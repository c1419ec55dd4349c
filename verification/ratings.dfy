/** `extract_ratings`: numeric scores per rated question and for overall
    effectiveness, taken from the columns whose names carry the question. */
module Ratings {
  import opened Wrappers
  import opened Text
  import opened Tables
  import opened Records

  /** Marks the free-text column paired with a rated question. */
  const CommentsMarker: string := "_Comments"

  /** Searched for in the lower-cased column name. */
  const EffectivenessMarker: string := "overall effectiveness"

  /** A column whose answers score the question with text `text`. */
  predicate AsksQuestion(text: string, column: string) {
    Contains(column, text) && !Contains(column, CommentsMarker)
  }

  /** A column whose answers rate overall effectiveness. */
  predicate AsksEffectiveness(column: string) {
    Contains(Lower(column), EffectivenessMarker) && !Contains(column, CommentsMarker)
  }

  /** The Likert score a cell contributes to the question with text `text`,
      if any. */
  function LikertScore(text: string, cell: Cell): Option<int> {
    if AsksQuestion(text, cell.0) && cell.1 in LikertMap then Some(LikertMap[cell.1]) else None
  }

  /** The effectiveness score a cell contributes, if any. */
  function EffectivenessScore(cell: Cell): Option<int> {
    if AsksEffectiveness(cell.0) && cell.1 in EffectivenessMap then Some(EffectivenessMap[cell.1]) else None
  }

  /** Reference definition of the series of the question with text `text`
      over a walk of cells. */
  function TextSeries(cells: seq<Cell>, text: string): seq<int> {
    Collect(cells, c => LikertScore(text, c))
  }

  /** Question `q`'s series over a walk of cells. */
  function QuestionSeries(cells: seq<Cell>, q: Label): seq<int> {
    TextSeries(cells, QuestionText(q))
  }

  /** Reference definition of the effectiveness series over a walk of cells. */
  function EffectivenessSeries(cells: seq<Cell>): seq<int> {
    Collect(cells, EffectivenessScore)
  }

  /** The series stored under label `l`, empty when nothing was ever appended
      under it (a missing key of Python's `defaultdict(list)`). */
  function Series(ratings: map<Label, seq<int>>, l: Label): seq<int> {
    if l in ratings then ratings[l] else []
  }

  /** A label is a key only once something was appended under it. */
  ghost predicate KeysHaveScores(ratings: map<Label, seq<int>>) {
    forall l :: l in ratings ==> ratings[l] != []
  }

  /** `ratings` holds exactly question `Questions[i]`'s series over `cells`,
      for the positions `lo <= i < hi` of the question table. */
  ghost predicate HoldsSeries(ratings: map<Label, seq<int>>, cells: seq<Cell>, lo: int, hi: int) {
    forall i :: lo <= i < hi && IsQuestionIndex(i) ==> Series(ratings, Questions[i]) == QuestionSeries(cells, Questions[i])
  }

  /** `extract_ratings(responses)`. For every cell in row-major order, every
      question whose text the column contains (outside a comments column) gets
      the Likert score of the answer when it is one; a column mentioning
      overall effectiveness adds the effectiveness score of the answer. */
  method ExtractRatings(rows: seq<Row>) returns (ratings: map<Label, seq<int>>, effectiveness: seq<int>)
    ensures forall l :: Series(ratings, l) == QuestionSeries(Cells(rows), l)
    ensures forall l :: l in ratings <==> QuestionSeries(Cells(rows), l) != []
    ensures effectiveness == EffectivenessSeries(Cells(rows))
  {
    ratings := map[];
    effectiveness := [];
    var r := 0;
    while r < |rows|
      invariant 0 <= r <= |rows|
      invariant HoldsSeries(ratings, Cells(rows[..r]), 0, |Questions|)
      invariant KeysHaveScores(ratings)
      invariant effectiveness == EffectivenessSeries(Cells(rows[..r]))
    {
      CellsStep(rows, r);
      ratings, effectiveness := TallyRow(ratings, effectiveness, rows[r], Cells(rows[..r]));
      r := r + 1;
    }
    assert rows[..r] == rows;
    HeldSeriesCoverLabels(ratings, Cells(rows));
  }

  /** Holding the series of every position of the table is holding the
      series of every label, and with no empty series stored the keys are
      exactly the labels that received scores. */
  lemma HeldSeriesCoverLabels(ratings: map<Label, seq<int>>, cells: seq<Cell>)
    requires HoldsSeries(ratings, cells, 0, |Questions|) && KeysHaveScores(ratings)
    ensures forall l :: Series(ratings, l) == QuestionSeries(cells, l)
    ensures forall l :: l in ratings <==> QuestionSeries(cells, l) != []
  {
    forall l
      ensures Series(ratings, l) == QuestionSeries(cells, l)
    {
      QuestionsListed(l);
    }
  }

  /** The loop over the cells of one row. */
  method TallyRow(ratings: map<Label, seq<int>>, effectiveness: seq<int>, row: Row, ghost done: seq<Cell>)
    returns (ratings': map<Label, seq<int>>, effectiveness': seq<int>)
    requires HoldsSeries(ratings, done, 0, |Questions|) && KeysHaveScores(ratings)
    requires effectiveness == EffectivenessSeries(done)
    ensures HoldsSeries(ratings', done + row, 0, |Questions|) && KeysHaveScores(ratings')
    ensures effectiveness' == EffectivenessSeries(done + row)
  {
    ratings', effectiveness' := ratings, effectiveness;
    ghost var seen := done;
    var j := 0;
    assert done + row[..0] == done;
    while j < |row|
      invariant 0 <= j <= |row|
      invariant seen == done + row[..j]
      invariant HoldsSeries(ratings', seen, 0, |Questions|)
      invariant KeysHaveScores(ratings')
      invariant effectiveness' == EffectivenessSeries(seen)
    {
      ratings', effectiveness' := TallyCell(ratings', effectiveness', row[j], seen);
      seen := seen + [row[j]];
      j := j + 1;
    }
    assert row[..j] == row;
  }

  /** The loop body of `extract_ratings` for one cell. */
  method TallyCell(ratings: map<Label, seq<int>>, effectiveness: seq<int>, cell: Cell, ghost before: seq<Cell>)
    returns (ratings': map<Label, seq<int>>, effectiveness': seq<int>)
    requires HoldsSeries(ratings, before, 0, |Questions|) && KeysHaveScores(ratings)
    requires effectiveness == EffectivenessSeries(before)
    ensures HoldsSeries(ratings', before + [cell], 0, |Questions|) && KeysHaveScores(ratings')
    ensures effectiveness' == EffectivenessSeries(before + [cell])
  {
    var (column, value) := cell;
    ratings' := AddLikert(ratings, cell, before);
    effectiveness' := effectiveness;
    if AsksEffectiveness(column) {
      if value in EffectivenessMap {
        effectiveness' := effectiveness + [EffectivenessMap[value]];
      }
    }
    CollectSnoc(before, cell, EffectivenessScore);
  }

  /** The loop over the question table for one cell. */
  method AddLikert(ratings: map<Label, seq<int>>, cell: Cell, ghost before: seq<Cell>)
    returns (ratings': map<Label, seq<int>>)
    requires HoldsSeries(ratings, before, 0, |Questions|) && KeysHaveScores(ratings)
    ensures HoldsSeries(ratings', before + [cell], 0, |Questions|) && KeysHaveScores(ratings')
  {
    ghost var after := before + [cell];
    ratings' := ratings;
    var k := 0;
    while k < |Questions|
      invariant 0 <= k <= |Questions|
      invariant HoldsSeries(ratings', after, 0, k)
      invariant HoldsSeries(ratings', before, k, |Questions|)
      invariant KeysHaveScores(ratings')
    {
      LikertStep(ratings', before, cell, k);
      ratings' := AddScore(ratings', Questions[k], cell);
      k := k + 1;
    }
  }

  /** One question of the loop: when the column holds the question's text
      (outside a comments column) and the answer is on the Likert scale, its
      score is appended to the question's series. */
  function AddScore(ratings: map<Label, seq<int>>, q: Label, cell: Cell): (r: map<Label, seq<int>>)
    ensures Series(r, q) == Series(ratings, q) + TextSeries([cell], QuestionText(q))
    ensures forall l :: l != q ==> Series(r, l) == Series(ratings, l)
    ensures KeysHaveScores(ratings) ==> KeysHaveScores(r)
  {
    var (column, value) := cell;
    if AsksQuestion(QuestionText(q), column) && value in LikertMap then
      ratings[q := Series(ratings, q) + [LikertMap[value]]]
    else ratings
  }

  /** One pass of `AddLikert`'s loop: question `k` moves from the series over
      `before` to the series over `before + [cell]`, and no other question's
      series changes. */
  lemma LikertStep(ratings: map<Label, seq<int>>, before: seq<Cell>, cell: Cell, k: int)
    requires IsQuestionIndex(k)
    requires HoldsSeries(ratings, before + [cell], 0, k) && HoldsSeries(ratings, before, k, |Questions|)
    ensures HoldsSeries(AddScore(ratings, Questions[k], cell), before + [cell], 0, k + 1)
    ensures HoldsSeries(AddScore(ratings, Questions[k], cell), before, k + 1, |Questions|)
  {
    var text := QuestionText(Questions[k]);
    CollectSnoc(before, cell, c => LikertScore(text, c));
    forall i | IsQuestionIndex(i) && i != k
      ensures Questions[i] != Questions[k]
    {
      QuestionsDistinct(i, k);
    }
  }

  /** Every score in a question's series is the Likert score of an answer in a
      column asking that question, so it lies in [1,5]. Stated for any
      question text; `QuestionSeries(cells, q)` is the case of `q`'s text. */
  lemma QuestionScoresOrigin(cells: seq<Cell>, text: string)
    ensures forall k :: 0 <= k < |TextSeries(cells, text)| ==>
              && IsScore(TextSeries(cells, text)[k])
              && exists i :: 0 <= i < |cells| && AsksQuestion(text, cells[i].0) && cells[i].1 in LikertMap
                             && TextSeries(cells, text)[k] == LikertMap[cells[i].1]
  {
    ScalesAreFivePoint();
    CollectOrigin(cells, c => LikertScore(text, c));
    var series := TextSeries(cells, text);
    forall k | 0 <= k < |series|
      ensures exists i :: 0 <= i < |cells| && AsksQuestion(text, cells[i].0) && cells[i].1 in LikertMap
                          && series[k] == LikertMap[cells[i].1]
    {
      var i :| 0 <= i < |cells| && LikertScore(text, cells[i]) == Some(series[k]);
    }
  }

  /** Every effectiveness score is the score of an answer in an
      overall-effectiveness column, so it lies in [1,5]. */
  lemma EffectivenessScoresOrigin(cells: seq<Cell>)
    ensures forall k :: 0 <= k < |EffectivenessSeries(cells)| ==>
              && IsScore(EffectivenessSeries(cells)[k])
              && exists i :: 0 <= i < |cells| && AsksEffectiveness(cells[i].0) && cells[i].1 in EffectivenessMap
                             && EffectivenessSeries(cells)[k] == EffectivenessMap[cells[i].1]
  {
    ScalesAreFivePoint();
    CollectOrigin(cells, EffectivenessScore);
  }

  /** A question's series has one score per cell that asks the question with a
      Likert answer; a column asking several questions feeds each of them. */
  lemma QuestionSeriesLength(cells: seq<Cell>, text: string)
    ensures |TextSeries(cells, text)| ==
            |set i: nat | i < |cells| && AsksQuestion(text, cells[i].0) && cells[i].1 in LikertMap|
  {
    CollectCount(cells, c => LikertScore(text, c));
    assert PickedPositions(cells, c => LikertScore(text, c)) ==
           set i: nat | i < |cells| && AsksQuestion(text, cells[i].0) && cells[i].1 in LikertMap;
  }

  /** The effectiveness series has one score per effectiveness cell with a
      recognised answer. */
  lemma EffectivenessSeriesLength(cells: seq<Cell>)
    ensures |EffectivenessSeries(cells)| ==
            |set i: nat | i < |cells| && AsksEffectiveness(cells[i].0) && cells[i].1 in EffectivenessMap|
  {
    CollectCount(cells, EffectivenessScore);
    assert PickedPositions(cells, EffectivenessScore) ==
           set i: nat | i < |cells| && AsksEffectiveness(cells[i].0) && cells[i].1 in EffectivenessMap;
  }

  /** The two scales never mix: no single answer feeds both a question's series
      and the effectiveness series. */
  lemma ScalesNeverMix(text: string, cell: Cell)
    ensures TextSeries([cell], text) == [] || EffectivenessSeries([cell]) == []
  {
    ScalesAreFivePoint();
    assert [cell][..0] == [];
  }
}
