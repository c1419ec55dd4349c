/** The per-course pass of the analysis and the running totals it feeds: each
    evaluation file is summarised on its own, and its series and comments are
    appended to the totals over all courses. */
module Aggregate {
  import opened Tables
  import opened Records
  import opened Metadata
  import opened Ratings
  import opened Comments

  /** One evaluation export: its file name and its parsed response rows. */
  datatype EvalFile = EvalFile(name: string, rows: seq<Row>)

  /** What the analysis keeps about one course. */
  datatype FileSummary = FileSummary(
    info: CourseInfo,
    responses: nat,
    effectiveness: seq<int>,
    ratings: map<Label, seq<int>>,
    beneficial: seq<string>,
    improvement: seq<string>)

  /** `s` holds exactly the series and comments the extractors yield along
      `cells`. */
  ghost predicate Extracts(s: FileSummary, cells: seq<Cell>) {
    && s.effectiveness == EffectivenessSeries(cells)
    && (forall l :: Series(s.ratings, l) == QuestionSeries(cells, l))
    && KeysHaveScores(s.ratings)
    && s.beneficial == CommentsTo(cells, Beneficial)
    && s.improvement == CommentsTo(cells, Improvement)
  }

  /** `s` holds exactly what the analysis derives from file `f`. */
  ghost predicate Summarizes(s: FileSummary, f: EvalFile) {
    && s.info == ParseCourseInfo(f.name)
    && s.responses == |f.rows|
    && Extracts(s, Cells(f.rows))
  }

  /** The body of the per-file loop up to the course summary: name parsing,
      response count and both extractions. */
  method SummarizeFile(f: EvalFile) returns (s: FileSummary)
    ensures Summarizes(s, f)
  {
    var ratings, effectiveness := ExtractRatings(f.rows);
    var beneficial, improvement := ExtractComments(f.rows);
    s := FileSummary(ParseCourseInfo(f.name), |f.rows|, effectiveness, ratings, beneficial, improvement);
    forall l | l in ratings
      ensures ratings[l] != []
    {
      assert Series(ratings, l) == ratings[l];
    }
  }

  /** The series and comments accumulated over all courses so far. */
  datatype Totals = Totals(
    ratings: map<Label, seq<int>>,
    effectiveness: seq<int>,
    beneficial: seq<string>,
    improvement: seq<string>)

  const NoTotals: Totals := Totals(map[], [], [], [])

  /** The loop over the labels in declared order, from position `k` on: every
      label with a non-empty series in `ratings` has it appended to its total.
      A label is only created in the totals when something is appended. */
  function ExtendRatings(all: map<Label, seq<int>>, ratings: map<Label, seq<int>>, k: nat): map<Label, seq<int>>
    decreases |Questions| - k
  {
    if k >= |Questions| then all
    else ExtendRatings(AppendSeries(all, ratings, Questions[k]), ratings, k + 1)
  }

  /** Appends `ratings`' series for `l` to the total for `l`, creating the
      total only when that series is non-empty. */
  function AppendSeries(all: map<Label, seq<int>>, ratings: map<Label, seq<int>>, l: Label): (r: map<Label, seq<int>>)
    ensures Series(r, l) == Series(all, l) + Series(ratings, l)
    ensures forall other :: other != l ==> Series(r, other) == Series(all, other)
    ensures KeysHaveScores(all) ==> KeysHaveScores(r)
  {
    if Series(ratings, l) != [] then all[l := Series(all, l) + ratings[l]] else all
  }

  /** Label `Questions[i]`'s total gains `ratings`' series for it exactly when
      the loop still has to visit it; labels already visited keep their
      totals. */
  lemma {:induction false} ExtendRatingsSeries(all: map<Label, seq<int>>, ratings: map<Label, seq<int>>, k: nat, i: int)
    requires IsQuestionIndex(i)
    ensures Series(ExtendRatings(all, ratings, k), Questions[i])
            == Series(all, Questions[i]) + (if k <= i then Series(ratings, Questions[i]) else [])
    decreases |Questions| - k
  {
    if k < |Questions| {
      var next := AppendSeries(all, ratings, Questions[k]);
      assert ExtendRatings(all, ratings, k) == ExtendRatings(next, ratings, k + 1);
      ExtendRatingsSeries(next, ratings, k + 1, i);
      if i != k {
        QuestionsDistinct(i, k);
      }
    }
  }

  /** The loop never stores an empty series. */
  lemma {:induction false} ExtendRatingsKeys(all: map<Label, seq<int>>, ratings: map<Label, seq<int>>, k: nat)
    requires KeysHaveScores(all)
    ensures KeysHaveScores(ExtendRatings(all, ratings, k))
    decreases |Questions| - k
  {
    if k < |Questions| {
      ExtendRatingsKeys(AppendSeries(all, ratings, Questions[k]), ratings, k + 1);
    }
  }

  /** Appends one course to the totals: every label's total gains the
      course's series for it, and each list gains the course's list. */
  function Absorb(t: Totals, s: FileSummary): (r: Totals)
    ensures forall l :: Series(r.ratings, l) == Series(t.ratings, l) + Series(s.ratings, l)
    ensures KeysHaveScores(t.ratings) ==> KeysHaveScores(r.ratings)
    ensures r.effectiveness == t.effectiveness + s.effectiveness
    ensures r.beneficial == t.beneficial + s.beneficial
    ensures r.improvement == t.improvement + s.improvement
  {
    ExtendRatingsAppends(t.ratings, s.ratings);
    Totals(ExtendRatings(t.ratings, s.ratings, 0),
           t.effectiveness + s.effectiveness,
           t.beneficial + s.beneficial,
           t.improvement + s.improvement)
  }

  /** The whole label loop appends each label's series to its total and
      stores no empty series. */
  lemma ExtendRatingsAppends(all: map<Label, seq<int>>, ratings: map<Label, seq<int>>)
    ensures forall l :: Series(ExtendRatings(all, ratings, 0), l) == Series(all, l) + Series(ratings, l)
    ensures KeysHaveScores(all) ==> KeysHaveScores(ExtendRatings(all, ratings, 0))
  {
    forall l
      ensures Series(ExtendRatings(all, ratings, 0), l) == Series(all, l) + Series(ratings, l)
    {
      ExtendRatingsSeries(all, ratings, 0, Position(l));
    }
    if KeysHaveScores(all) {
      ExtendRatingsKeys(all, ratings, 0);
    }
  }

  /** `Absorb` appends the course's series for every label to the total. */
  lemma AbsorbSeries(t: Totals, s: FileSummary, l: Label)
    ensures Series(Absorb(t, s).ratings, l) == Series(t.ratings, l) + Series(s.ratings, l)
  {
    QuestionsListed(l);
    var i :| IsQuestionIndex(i) && Questions[i] == l;
    ExtendRatingsSeries(t.ratings, s.ratings, 0, i);
  }

  /** The totals after the courses of `ss`, in order: each list is the
      courses' lists joined, first course first. */
  function Fold(ss: seq<FileSummary>): (r: Totals)
    ensures r.effectiveness == Joined(ss, EffectivenessOf)
    ensures r.beneficial == Joined(ss, BeneficialOf)
    ensures r.improvement == Joined(ss, ImprovementOf)
    decreases |ss|
  {
    if |ss| == 0 then NoTotals
    else
      var front, last := ss[..|ss| - 1], ss[|ss| - 1];
      assert front + [last] == ss;
      JoinedSnoc(front, last, EffectivenessOf);
      JoinedSnoc(front, last, BeneficialOf);
      JoinedSnoc(front, last, ImprovementOf);
      Absorb(Fold(front), last)
  }

  lemma FoldSnoc(ss: seq<FileSummary>, s: FileSummary)
    ensures Fold(ss + [s]) == Absorb(Fold(ss), s)
  {
    assert (ss + [s])[..|ss|] == ss;
  }

  /** All rows of the files, file after file. */
  function AllRows(files: seq<EvalFile>): seq<Row>
    decreases |files|
  {
    if |files| == 0 then [] else AllRows(files[..|files| - 1]) + files[|files| - 1].rows
  }

  /** Reference definition of a per-course part joined over the courses, first
      course first. */
  function Joined<T>(ss: seq<FileSummary>, part: FileSummary -> seq<T>): seq<T>
    decreases |ss|
  {
    if |ss| == 0 then [] else part(ss[0]) + Joined(ss[1..], part)
  }

  lemma {:induction false} JoinedSnoc<T>(ss: seq<FileSummary>, s: FileSummary, part: FileSummary -> seq<T>)
    ensures Joined(ss + [s], part) == Joined(ss, part) + part(s)
    decreases |ss|
  {
    if |ss| == 0 {
      assert [s][1..] == [];
    } else {
      assert (ss + [s])[1..] == ss[1..] + [s];
      JoinedSnoc(ss[1..], s, part);
    }
  }

  /** The per-course lengths of a part added up, last course first. */
  function SumLens<T>(ss: seq<FileSummary>, part: FileSummary -> seq<T>): nat
    decreases |ss|
  {
    if |ss| == 0 then 0 else SumLens(ss[..|ss| - 1], part) + |part(ss[|ss| - 1])|
  }

  /** A joined part is as long as the courses' parts together. */
  lemma {:induction false} JoinedLength<T>(ss: seq<FileSummary>, part: FileSummary -> seq<T>)
    ensures |Joined(ss, part)| == SumLens(ss, part)
    decreases |ss|
  {
    if |ss| > 0 {
      var front, last := ss[..|ss| - 1], ss[|ss| - 1];
      assert front + [last] == ss;
      JoinedSnoc(front, last, part);
      JoinedLength(front, part);
    }
  }

  function EffectivenessOf(s: FileSummary): seq<int> {
    s.effectiveness
  }

  function BeneficialOf(s: FileSummary): seq<string> {
    s.beneficial
  }

  function ImprovementOf(s: FileSummary): seq<string> {
    s.improvement
  }

  /** The totals hold, per label, the courses' series joined in course order,
      the joined effectiveness scores and the joined comment lists; a label is
      a key only when its joined series is non-empty. */
  lemma {:induction false} FoldJoins(ss: seq<FileSummary>)
    requires forall j :: 0 <= j < |ss| ==> KeysHaveScores(ss[j].ratings)
    ensures forall l :: Series(Fold(ss).ratings, l) == Joined(ss, (s: FileSummary) => Series(s.ratings, l))
    ensures KeysHaveScores(Fold(ss).ratings)
    ensures Fold(ss).effectiveness == Joined(ss, EffectivenessOf)
    ensures Fold(ss).beneficial == Joined(ss, BeneficialOf)
    ensures Fold(ss).improvement == Joined(ss, ImprovementOf)
    decreases |ss|
  {
    if |ss| == 0 {
      assert KeysHaveScores(map[]);
    } else {
      var n := |ss| - 1;
      var front := ss[..n];
      assert ss == front + [ss[n]];
      FoldJoins(front);
      forall l
        ensures Series(Fold(ss).ratings, l) == Joined(ss, (s: FileSummary) => Series(s.ratings, l))
      {
        AbsorbSeries(Fold(front), ss[n], l);
        JoinedSnoc(front, ss[n], (s: FileSummary) => Series(s.ratings, l));
      }
      ExtendRatingsKeys(Fold(front).ratings, ss[n].ratings, 0);
      JoinedSnoc(front, ss[n], EffectivenessOf);
      JoinedSnoc(front, ss[n], BeneficialOf);
      JoinedSnoc(front, ss[n], ImprovementOf);
    }
  }

  /** `t` holds exactly the series and comments extracted along `cells`. */
  ghost predicate TotalsMatch(t: Totals, cells: seq<Cell>) {
    && (forall l :: Series(t.ratings, l) == QuestionSeries(cells, l))
    && KeysHaveScores(t.ratings)
    && t.effectiveness == EffectivenessSeries(cells)
    && t.beneficial == CommentsTo(cells, Beneficial)
    && t.improvement == CommentsTo(cells, Improvement)
  }

  /** Absorbing the summary of a further walk extends every label's series. */
  lemma AbsorbRatings(t: Totals, s: FileSummary, front: seq<Cell>, last: seq<Cell>)
    requires forall l :: Series(t.ratings, l) == QuestionSeries(front, l)
    requires forall l :: Series(s.ratings, l) == QuestionSeries(last, l)
    ensures forall l :: Series(Absorb(t, s).ratings, l) == QuestionSeries(front + last, l)
  {
    var r := Absorb(t, s).ratings;
    forall l
      ensures Series(r, l) == QuestionSeries(front + last, l)
    {
      var text := QuestionText(l);
      AbsorbSeries(t, s, l);
      CollectAppend(front, last, c => LikertScore(text, c));
    }
  }

  lemma AbsorbLists(t: Totals, s: FileSummary, front: seq<Cell>, last: seq<Cell>)
    requires t.effectiveness == EffectivenessSeries(front) && s.effectiveness == EffectivenessSeries(last)
    requires t.beneficial == CommentsTo(front, Beneficial) && s.beneficial == CommentsTo(last, Beneficial)
    requires t.improvement == CommentsTo(front, Improvement) && s.improvement == CommentsTo(last, Improvement)
    ensures Absorb(t, s).effectiveness == EffectivenessSeries(front + last)
    ensures Absorb(t, s).beneficial == CommentsTo(front + last, Beneficial)
    ensures Absorb(t, s).improvement == CommentsTo(front + last, Improvement)
  {
    CollectAppend(front, last, EffectivenessScore);
    CollectAppend(front, last, BeneficialComment);
    CollectAppend(front, last, ImprovementComment);
  }

  /** Absorbing the summary of a further walk gives the totals of the longer
      walk. */
  lemma AbsorbMatches(t: Totals, s: FileSummary, front: seq<Cell>, last: seq<Cell>)
    requires TotalsMatch(t, front) && Extracts(s, last)
    ensures TotalsMatch(Absorb(t, s), front + last)
  {
    AbsorbRatings(t, s, front, last);
    ExtendRatingsKeys(t.ratings, s.ratings, 0);
    AbsorbLists(t, s, front, last);
  }

  /** Summing the courses one by one is extracting from all their rows at
      once: the totals are the series and comments of the single survey made
      of every file's rows, file after file. */
  lemma {:induction false} FoldIsExtractionOfAllRows(files: seq<EvalFile>, ss: seq<FileSummary>)
    requires |ss| == |files|
    requires forall j :: 0 <= j < |ss| ==> Extracts(ss[j], Cells(files[j].rows))
    ensures TotalsMatch(Fold(ss), Cells(AllRows(files)))
    decreases |ss|
  {
    if |ss| == 0 {
      assert KeysHaveScores(map[]);
    } else {
      var n := |ss| - 1;
      FoldIsExtractionOfAllRows(files[..n], ss[..n]);
      FoldStep(files, ss);
    }
  }

  lemma {:induction false} FoldStep(files: seq<EvalFile>, ss: seq<FileSummary>)
    requires |ss| == |files| > 0
    requires TotalsMatch(Fold(ss[..|ss| - 1]), Cells(AllRows(files[..|ss| - 1])))
    requires Extracts(ss[|ss| - 1], Cells(files[|ss| - 1].rows))
    ensures TotalsMatch(Fold(ss), Cells(AllRows(files)))
  {
    var n := |ss| - 1;
    var front, last := Cells(AllRows(files[..n])), Cells(files[n].rows);
    AbsorbMatches(Fold(ss[..n]), ss[n], front, last);
    assert Fold(ss) == Absorb(Fold(ss[..n]), ss[n]);
    CellsOfAllRows(files);
  }

  lemma CellsOfAllRows(files: seq<EvalFile>)
    requires |files| > 0
    ensures Cells(AllRows(files)) == Cells(AllRows(files[..|files| - 1])) + Cells(files[|files| - 1].rows)
  {
    assert AllRows(files) == AllRows(files[..|files| - 1]) + files[|files| - 1].rows;
    CellsAppend(AllRows(files[..|files| - 1]), files[|files| - 1].rows);
  }
}
