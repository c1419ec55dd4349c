/** The whole analysis run: the files in name order, one course report per
    file, the aggregate statistics and ranking, the positive-feedback
    selection, the shown samples and the LaTeX-ready lines. */
module Report {
  import opened Wrappers
  import opened Text
  import opened Tables
  import opened Records
  import opened Ratings
  import opened Comments
  import opened Stats
  import opened Feedback
  import opened Sorting
  import opened Aggregate
  import opened Ranking

  /** POSIX path order on files of one directory: code-point order of the
      names, case included. */
  predicate NameLe(a: EvalFile, b: EvalFile) {
    LexLe(a.name, b.name)
  }

  lemma NameLeOrders()
    ensures TotalPreorder(NameLe)
  {
    forall a, b
      ensures NameLe(a, b) || NameLe(b, a)
    {
      LexLeTotal(a.name, b.name);
    }
    forall a, b, c | NameLe(a, b) && NameLe(b, c)
      ensures NameLe(a, c)
    {
      LexLeTransitive(a.name, b.name, c.name);
    }
  }

  /** `sorted(eval_files)`. */
  function SortFiles(files: seq<EvalFile>): (r: seq<EvalFile>)
    ensures |r| == |files|
    ensures forall i, j :: 0 <= i < j < |r| ==> LexLe(r[i].name, r[j].name)
    ensures multiset(r) == multiset(files)
  {
    NameLeOrders();
    var r := InsertionSort(files, NameLe);
    assert |multiset(r)| == |multiset(files)|;
    r
  }

  /** What is shown for one course: its summary, the effectiveness statistics
      when it has effectiveness scores, and one tuple per scored label in
      declared order. */
  datatype CourseReport = CourseReport(summary: FileSummary, effectiveness: Option<Summary>, questions: seq<RankedStat>)

  function ReportCourse(s: FileSummary): (c: CourseReport)
    ensures c.summary == s
    ensures c.effectiveness.None? <==> s.effectiveness == []
    ensures c.effectiveness == CalculateStats(s.effectiveness)
    ensures forall j :: 0 <= j < |c.questions| ==> Describes(c.questions[j], s.ratings)
    ensures forall a, b :: 0 <= a < b < |c.questions| ==> Position(c.questions[a].question) < Position(c.questions[b].question)
    ensures forall l :: Series(s.ratings, l) != [] ==> exists j :: 0 <= j < |c.questions| && c.questions[j].question == l
  {
    LabelStatsInOrder(s.ratings, 0);
    CourseReport(s, CalculateStats(s.effectiveness), LabelStats(s.ratings, 0))
  }

  /** How many good comments are shown, and how long each may be. */
  const FeedbackShown: nat := 10
  const FeedbackLimit: nat := 500

  /** How many improvement suggestions are considered, the length a shown one
      must exceed, and how long each may be. */
  const ImprovementShown: nat := 5
  const ImprovementMinLength: nat := 10
  const ImprovementLimit: nat := 300

  /** How many good comments go to the LaTeX list, and how long each may be. */
  const LatexShown: nat := 3
  const LatexLimit: nat := 200

  /** A text longer than `limit` cut to its first `limit` characters and
      marked with an ellipsis. */
  function Truncate(s: string, limit: nat): (r: string)
    ensures |s| <= limit ==> r == s
    ensures |s| > limit ==> |r| == limit + 3 && r[..limit] == s[..limit] && r[limit..] == "..."
  {
    if |s| > limit then s[..limit] + "..." else s
  }

  /** No truncated text is longer than the limit plus the ellipsis. */
  lemma TruncateBound(s: string, limit: nat)
    ensures |Truncate(s, limit)| <= limit + 3
    ensures |Truncate(s, limit)| <= |s| + 3
  {
  }

  /** The first `n` entries of `xs`, each truncated. */
  function ShownPrefix(xs: seq<string>, n: nat, limit: nat): (r: seq<string>)
    ensures |r| == Min(n, |xs|)
    ensures forall i :: 0 <= i < |r| ==> r[i] == Truncate(xs[i], limit)
  {
    seq(Min(n, |xs|), i requires 0 <= i < Min(n, |xs|) => Truncate(xs[i], limit))
  }

  /** The numbered improvement suggestions shown from position `k` on: among
      the first five, those longer than ten characters, each with its 1-based
      position among the five, truncated. */
  function ImprovementSample(xs: seq<string>, k: nat): (r: seq<(nat, string)>)
    ensures |r| <= Min(ImprovementShown, |xs|) - Min(k, Min(ImprovementShown, |xs|))
    ensures forall j :: 0 <= j < |r| ==>
              && k < r[j].0 <= Min(ImprovementShown, |xs|)
              && |xs[r[j].0 - 1]| > ImprovementMinLength
              && r[j].1 == Truncate(xs[r[j].0 - 1], ImprovementLimit)
    decreases |xs| - k
  {
    if k >= Min(ImprovementShown, |xs|) then []
    else if |xs[k]| > ImprovementMinLength then [(k + 1, Truncate(xs[k], ImprovementLimit))] + ImprovementSample(xs, k + 1)
    else ImprovementSample(xs, k + 1)
  }

  /** Every long enough suggestion among the first five is shown. */
  lemma {:induction false} ImprovementSampleComplete(xs: seq<string>, k: nat, i: nat)
    requires k <= i < Min(ImprovementShown, |xs|) && |xs[i]| > ImprovementMinLength
    ensures exists j :: 0 <= j < |ImprovementSample(xs, k)| && ImprovementSample(xs, k)[j].0 == i + 1
    decreases |xs| - k
  {
    var r := ImprovementSample(xs, k);
    if |xs[k]| > ImprovementMinLength {
      if i == k {
        assert r[0].0 == i + 1;
      } else {
        ImprovementSampleComplete(xs, k + 1, i);
        var rest := ImprovementSample(xs, k + 1);
        var j :| 0 <= j < |rest| && rest[j].0 == i + 1;
        assert r[j + 1] == rest[j];
      }
    } else {
      ImprovementSampleComplete(xs, k + 1, i);
    }
  }

  /** The shown suggestions keep their order. */
  lemma {:induction false} ImprovementSampleOrdered(xs: seq<string>, k: nat)
    ensures forall a, b :: 0 <= a < b < |ImprovementSample(xs, k)| ==>
              ImprovementSample(xs, k)[a].0 < ImprovementSample(xs, k)[b].0
    decreases |xs| - k
  {
    if k < Min(ImprovementShown, |xs|) {
      ImprovementSampleOrdered(xs, k + 1);
      var r, rest := ImprovementSample(xs, k), ImprovementSample(xs, k + 1);
      if |xs[k]| > ImprovementMinLength {
        assert r == [(k + 1, Truncate(xs[k], ImprovementLimit))] + rest;
        forall a, b | 0 <= a < b < |r|
          ensures r[a].0 < r[b].0
        {
          assert r[b] == rest[b - 1];
          if a > 0 {
            assert r[a] == rest[a - 1];
          }
        }
      }
    }
  }

  /** Python's `text.replace(c, rep)` for a one-character pattern. */
  function Replace(s: string, c: char, rep: string): (r: string)
    ensures c !in s ==> r == s
  {
    if |s| == 0 then s
    else (if s[0] == c then rep else [s[0]]) + Replace(s[1..], c, rep)
  }

  lemma {:induction false} ReplaceAppend(a: string, b: string, c: char, rep: string)
    ensures Replace(a + b, c, rep) == Replace(a, c, rep) + Replace(b, c, rep)
    decreases |a|
  {
    if |a| == 0 {
      assert a + b == b;
    } else {
      assert (a + b)[1..] == a[1..] + b;
      ReplaceAppend(a[1..], b, c, rep);
    }
  }

  /** The LaTeX cleanup as written: five replacements in a row. */
  function LatexClean(s: string): string {
    var s1 := Replace(s, '&', "\\&");
    var s2 := Replace(s1, '%', "\\%");
    var s3 := Replace(s2, '$', "\\$");
    var s4 := Replace(s3, '#', "\\#");
    Replace(s4, '_', "\\_")
  }

  /** A character LaTeX treats specially and the cleanup escapes. */
  predicate IsSpecial(c: char) {
    c == '&' || c == '%' || c == '$' || c == '#' || c == '_'
  }

  /** Reference definition: every special character gets a backslash in front
      of it, every other character stays. */
  function Escape(s: string): (r: string)
    ensures |r| >= |s|
  {
    if |s| == 0 then s
    else (if IsSpecial(s[0]) then ['\\', s[0]] else [s[0]]) + Escape(s[1..])
  }

  /** On a single character the five replacements agree with `Escape`. */
  lemma LatexCleanOne(c: char)
    ensures LatexClean([c]) == Escape([c])
  {
    ReplaceOne(c, '&', "\\&");
    var s1 := Replace([c], '&', "\\&");
    if c == '&' {
      assert s1 == "\\&";
    } else {
      ReplaceOne(c, '%', "\\%");
      if c != '%' {
        ReplaceOne(c, '$', "\\$");
        if c != '$' {
          ReplaceOne(c, '#', "\\#");
          if c != '#' {
            ReplaceOne(c, '_', "\\_");
          }
        }
      }
    }
    assert [c][1..] == [];
  }

  /** Replacing in a one-character text. */
  lemma ReplaceOne(c: char, d: char, rep: string)
    ensures Replace([c], d, rep) == if c == d then rep else [c]
  {
    assert [c][1..] == [];
  }

  lemma {:induction false} LatexCleanAppend(a: string, b: string)
    ensures LatexClean(a + b) == LatexClean(a) + LatexClean(b)
  {
    var a1, b1 := Replace(a, '&', "\\&"), Replace(b, '&', "\\&");
    var a2, b2 := Replace(a1, '%', "\\%"), Replace(b1, '%', "\\%");
    var a3, b3 := Replace(a2, '$', "\\$"), Replace(b2, '$', "\\$");
    var a4, b4 := Replace(a3, '#', "\\#"), Replace(b3, '#', "\\#");
    ReplaceAppend(a, b, '&', "\\&");
    ReplaceAppend(a1, b1, '%', "\\%");
    ReplaceAppend(a2, b2, '$', "\\$");
    ReplaceAppend(a3, b3, '#', "\\#");
    ReplaceAppend(a4, b4, '_', "\\_");
  }

  /** The five replacements in a row escape each special character exactly
      once: no replacement touches the backslash or the character another one
      inserted. */
  lemma {:induction false} LatexCleanIsEscape(s: string)
    ensures LatexClean(s) == Escape(s)
    decreases |s|
  {
    if |s| > 0 {
      var c, rest := s[0], s[1..];
      assert s == [c] + rest;
      LatexCleanAppend([c], rest);
      LatexCleanOne(c);
      LatexCleanIsEscape(rest);
      assert Escape(s) == Escape([c]) + Escape(rest) by {
        assert [c][1..] == [];
      }
    }
  }

  /** Removes the backslash in front of each special character. */
  function Unescape(s: string): string {
    if |s| == 0 then s
    else if |s| >= 2 && s[0] == '\\' && IsSpecial(s[1]) then [s[1]] + Unescape(s[2..])
    else [s[0]] + Unescape(s[1..])
  }

  /** The cleanup loses nothing: removing the inserted backslashes gives back
      the comment. */
  lemma {:induction false} EscapeRoundTrip(s: string)
    ensures Unescape(LatexClean(s)) == s
  {
    LatexCleanIsEscape(s);
    UnescapeEscape(s);
  }

  lemma {:induction false} UnescapeEscape(s: string)
    ensures Unescape(Escape(s)) == s
    decreases |s|
  {
    if |s| > 0 {
      UnescapeEscape(s[1..]);
      var e, rest := Escape(s), Escape(s[1..]);
      if IsSpecial(s[0]) {
        assert e == ['\\', s[0]] + rest;
        assert e[2..] == rest;
      } else {
        assert e == [s[0]] + rest;
        assert e[1..] == rest;
        if |e| >= 2 && s[0] == '\\' {
          assert e[1] == rest[0];
          assert !IsSpecial(rest[0]);
        }
      }
      assert s == [s[0]] + s[1..];
    }
  }

  /** An escaped text needs nothing undone when it has no special character. */
  lemma {:induction false} EscapePlain(p: string)
    requires forall i :: 0 <= i < |p| ==> !IsSpecial(p[i])
    ensures Escape(p) == p
    decreases |p|
  {
    if |p| > 0 {
      EscapePlain(p[1..]);
      assert p == [p[0]] + p[1..];
    }
  }

  /** Unescaping passes over a prefix without backslashes unchanged. */
  lemma {:induction false} UnescapePlain(p: string, t: string)
    requires forall i :: 0 <= i < |p| ==> p[i] != '\\'
    ensures Unescape(p + t) == p + Unescape(t)
    decreases |p|
  {
    if |p| > 0 {
      assert (p + t)[0] == p[0] && (p + t)[1..] == p[1..] + t;
      assert Unescape(p + t) == [p[0]] + Unescape(p[1..] + t);
      UnescapePlain(p[1..], t);
      assert p == [p[0]] + p[1..];
    } else {
      assert p + t == t;
    }
  }

  /** A LaTeX item as written: the comment escaped first, the escaped text
      then cut to 200 characters and marked with an ellipsis. */
  function LatexItemAsWritten(s: string): (r: string)
    ensures |Escape(s)| <= LatexLimit ==> r == Escape(s)
    ensures |Escape(s)| > LatexLimit ==> r == Escape(s)[..LatexLimit] + "..."
  {
    LatexCleanIsEscape(s);
    Truncate(LatexClean(s), LatexLimit)
  }

  /** The cut can fall between a backslash and the character it escapes: a
      comment of 199 plain characters followed by `&` comes out as the 199
      characters, a lone backslash and the ellipsis, which LaTeX reads as the
      accent command `\.`; read back, the item shows a backslash the comment
      never had. */
  lemma LatexCutSplitsEscape(p: string, c: char)
    requires |p| == LatexLimit - 1 && IsSpecial(c)
    requires forall i :: 0 <= i < |p| ==> !IsSpecial(p[i]) && p[i] != '\\'
    ensures LatexItemAsWritten(p + [c]) == p + "\\..."
    ensures '\\' !in p + [c] && '\\' in Unescape(LatexItemAsWritten(p + [c]))
  {
    LatexCleanPlainThenSpecial(p, c);
    var cleaned := p + ['\\', c];
    assert cleaned[..LatexLimit] == p + "\\";
    assert LatexItemAsWritten(p + [c]) == p + "\\...";
    ReadBackShowsBackslash(p);
    NoBackslash(p, c);
  }

  /** Escaping plain text followed by one special character. */
  lemma LatexCleanPlainThenSpecial(p: string, c: char)
    requires IsSpecial(c)
    requires forall i :: 0 <= i < |p| ==> !IsSpecial(p[i])
    ensures LatexClean(p + [c]) == p + ['\\', c]
  {
    LatexCleanAppend(p, [c]);
    LatexCleanIsEscape(p);
    EscapePlain(p);
    LatexCleanOne(c);
    assert Escape([c]) == ['\\', c] by {
      assert [c][1..] == [];
    }
  }

  /** Read back, a lone backslash before the ellipsis stays. */
  lemma ReadBackShowsBackslash(p: string)
    requires forall i :: 0 <= i < |p| ==> p[i] != '\\'
    ensures '\\' in Unescape(p + "\\...")
  {
    UnescapePlain(p, "\\...");
    var t := "\\...";
    assert Unescape(t) == "\\" + Unescape(t[1..]);
    assert (p + Unescape(t))[|p|] == '\\';
  }

  lemma NoBackslash(p: string, c: char)
    requires IsSpecial(c)
    requires forall i :: 0 <= i < |p| ==> p[i] != '\\'
    ensures '\\' !in p + [c]
  {
    forall i | 0 <= i < |p| + 1
      ensures (p + [c])[i] != '\\'
    {
      if i < |p| {
        assert (p + [c])[i] == p[i];
      }
    }
  }

  /** The LaTeX item as evidently intended: the comment cut to 200
      characters, then escaped, so that read back it is exactly the shown
      part of the comment. */
  function LatexItem(s: string): (r: string)
    ensures Unescape(r) == Truncate(s, LatexLimit)
  {
    EscapeRoundTrip(Truncate(s, LatexLimit));
    LatexClean(Truncate(s, LatexLimit))
  }

  /** Whenever the escaped comment fits in 200 characters nothing is cut,
      and the corrected item is exactly the item as written. */
  lemma LatexItemAgreesWhenFits(s: string)
    requires |LatexClean(s)| <= LatexLimit
    ensures LatexItem(s) == LatexItemAsWritten(s) == LatexClean(s)
  {
    LatexCleanIsEscape(s);
    assert |s| <= LatexLimit;
  }

  /** `good_feedback[:3]`, each made a LaTeX item. Read back, each item is
      its comment cut to 200 characters; when the escaped comment fits, it is
      the item as written. */
  function LatexItems(good: seq<string>): (r: seq<string>)
    ensures |r| == Min(LatexShown, |good|)
    ensures forall i :: 0 <= i < |r| ==> Unescape(r[i]) == Truncate(good[i], LatexLimit)
    ensures forall i :: 0 <= i < |r| && |LatexClean(good[i])| <= LatexLimit ==> r[i] == LatexItemAsWritten(good[i])
  {
    var r := seq(Min(LatexShown, |good|), i requires 0 <= i < Min(LatexShown, |good|) => LatexItem(good[i]));
    forall i | 0 <= i < |r| && |LatexClean(good[i])| <= LatexLimit
      ensures r[i] == LatexItemAsWritten(good[i])
    {
      LatexItemAgreesWhenFits(good[i]);
    }
    r
  }

  /** The analysis result: nothing when no evaluation file was found. */
  datatype Report =
    | NoFiles
    | Report(
        courses: seq<CourseReport>,
        totals: Totals,
        effectiveness: Option<Summary>,
        ranking: seq<RankedStat>,
        top: seq<RankedStat>,
        bottom: seq<RankedStat>,
        goodFeedback: seq<string>,
        feedbackShown: seq<string>,
        improvementShown: seq<(nat, string)>,
        latexAreas: seq<string>,
        latexFeedback: seq<string>)

  /** The full question text of each entry, found by looking its label
      string up in the question table. */
  function AreaTexts(r: seq<RankedStat>): (texts: seq<string>)
    ensures |texts| == |r|
    ensures forall j :: 0 <= j < |r| ==> texts[j] == QuestionText(r[j].question)
  {
    if |r| == 0 then []
    else
      LabelForRoundTrip(r[0].question);
      var head, rest := QuestionText(LabelFor(Name(r[0].question))), AreaTexts(r[1..]);
      assert forall j :: 0 < j < |r| ==> rest[j - 1] == QuestionText(r[j].question);
      [head] + rest
  }

  /** The part of the run after the per-course loop. */
  function Conclude(courses: seq<CourseReport>, totals: Totals): (report: Report)
    ensures report.Report? && report.courses == courses && report.totals == totals
    ensures report.effectiveness == CalculateStats(totals.effectiveness)
    ensures report.ranking == Rank(totals.ratings)
    ensures report.top == Top(report.ranking) && report.bottom == Bottom(report.ranking)
    ensures |report.top| == |report.bottom| == Min(3, |report.ranking|)
    ensures report.goodFeedback == FilterGoodFeedback(totals.beneficial, DefaultMinLength)
    ensures forall x :: x in report.goodFeedback ==> x in totals.beneficial && IsGoodFeedback(x, DefaultMinLength)
    ensures report.feedbackShown == ShownPrefix(report.goodFeedback, FeedbackShown, FeedbackLimit)
    ensures report.improvementShown == ImprovementSample(totals.improvement, 0)
    ensures report.latexAreas == AreaTexts(report.top)
    ensures |report.latexAreas| == |report.top|
    ensures report.latexFeedback == LatexItems(report.goodFeedback)
    ensures |report.latexFeedback| == Min(LatexShown, |report.goodFeedback|)
    ensures forall i :: 0 <= i < |report.latexFeedback| ==>
              Unescape(report.latexFeedback[i]) == Truncate(report.goodFeedback[i], LatexLimit)
  {
    var ranking := Rank(totals.ratings);
    var good := FilterGoodFeedback(totals.beneficial, DefaultMinLength);
    RankingEntries(totals.ratings);
    SubsequenceMembers(good, totals.beneficial);
    Report(courses, totals, CalculateStats(totals.effectiveness), ranking, Top(ranking), Bottom(ranking),
           good, ShownPrefix(good, FeedbackShown, FeedbackLimit),
           ImprovementSample(totals.improvement, 0),
           AreaTexts(Top(ranking)),
           LatexItems(good))
  }

  lemma {:induction false} SubsequenceMembers<T>(a: seq<T>, b: seq<T>)
    requires IsSubsequence(a, b)
    ensures forall x :: x in a ==> x in b
    decreases |b|
  {
    if |b| > 0 {
      if |a| > 0 && a[0] == b[0] && IsSubsequence(a[1..], b[1..]) {
        SubsequenceMembers(a[1..], b[1..]);
        assert a == [a[0]] + a[1..];
      } else {
        SubsequenceMembers(a, b[1..]);
      }
    }
  }

  /** Each course report holds the summary of the file at its position and
      the statistics of that summary. */
  ghost predicate CoursesExplained(courses: seq<CourseReport>, files: seq<EvalFile>) {
    && |courses| == |files|
    && forall j :: 0 <= j < |files| ==>
         Summarizes(courses[j].summary, files[j]) && courses[j] == ReportCourse(courses[j].summary)
  }

  /** The totals are the series and comments extracted from all rows of the
      files, file after file; a label is a key only when it received scores. */
  ghost predicate TotalsExplained(totals: Totals, files: seq<EvalFile>) {
    TotalsMatch(totals, Cells(AllRows(files)))
  }

  /** `main()`: no report when there is no file; otherwise the files are read
      in name order, one course report per file, and the totals the
      aggregate part is built from are exactly the series and comments
      extracted from all their rows, file after file. */
  method Analyze(files: seq<EvalFile>) returns (report: Report)
    ensures report.NoFiles? <==> |files| == 0
    ensures report.Report? ==>
              && CoursesExplained(report.courses, SortFiles(files))
              && TotalsExplained(report.totals, SortFiles(files))
              && report == Conclude(report.courses, report.totals)
  {
    if |files| == 0 {
      return NoFiles;
    }
    var sorted := SortFiles(files);
    var summaries, totals := SummarizeAll(sorted);
    TotalsAreExtraction(sorted, summaries, totals);
    var courses := ReportCourses(summaries);
    CoursesSummarize(courses, summaries, sorted);
    report := Conclude(courses, totals);
  }

  /** One course report per summary. */
  function ReportCourses(ss: seq<FileSummary>): (r: seq<CourseReport>)
    ensures |r| == |ss| && forall k :: 0 <= k < |ss| ==> r[k] == ReportCourse(ss[k])
  {
    seq(|ss|, k requires 0 <= k < |ss| => ReportCourse(ss[k]))
  }

  lemma TotalsAreExtraction(files: seq<EvalFile>, ss: seq<FileSummary>, totals: Totals)
    requires |ss| == |files| && totals == Fold(ss)
    requires forall j :: 0 <= j < |ss| ==> Summarizes(ss[j], files[j])
    ensures TotalsExplained(totals, files)
  {
    FoldIsExtractionOfAllRows(files, ss);
  }

  lemma CoursesSummarize(courses: seq<CourseReport>, ss: seq<FileSummary>, files: seq<EvalFile>)
    requires |courses| == |ss| == |files|
    requires forall k :: 0 <= k < |files| ==> Summarizes(ss[k], files[k]) && courses[k] == ReportCourse(ss[k])
    ensures CoursesExplained(courses, files)
  {
    forall k | 0 <= k < |files|
      ensures Summarizes(courses[k].summary, files[k]) && courses[k] == ReportCourse(courses[k].summary)
    {
      assert courses[k].summary == ss[k];
    }
  }

  lemma SummariesSnoc(ss: seq<FileSummary>, files: seq<EvalFile>, s: FileSummary)
    requires |ss| < |files|
    requires forall k :: 0 <= k < |ss| ==> Summarizes(ss[k], files[k])
    requires Summarizes(s, files[|ss|])
    ensures forall k :: 0 <= k < |ss| + 1 ==> Summarizes((ss + [s])[k], files[k])
  {
  }

  /** The per-course loop: each file summarised, totals absorbed in order. */
  method SummarizeAll(files: seq<EvalFile>) returns (summaries: seq<FileSummary>, totals: Totals)
    ensures |summaries| == |files|
    ensures forall k :: 0 <= k < |files| ==> Summarizes(summaries[k], files[k])
    ensures totals == Fold(summaries)
  {
    summaries, totals := [], NoTotals;
    for j := 0 to |files|
      invariant |summaries| == j
      invariant forall k :: 0 <= k < j ==> Summarizes(summaries[k], files[k])
      invariant totals == Fold(summaries)
    {
      var s := SummarizeFile(files[j]);
      SummariesSnoc(summaries, files, s);
      FoldSnoc(summaries, s);
      summaries := summaries + [s];
      totals := Absorb(totals, s);
    }
  }
}
