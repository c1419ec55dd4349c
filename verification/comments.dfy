/** `extract_comments`: the free-text answers to the "most beneficial" and the
    "more effective" questions, without the non-answers. */
module Comments {
  import opened Wrappers
  import opened Text
  import opened Records

  /** Searched for in the lower-cased column name. */
  const BeneficialMarker: string := "most beneficial"
  const ImprovementMarker: string := "more effective"

  /** The answer that stands for "declined to answer". */
  const NoAnswer: string := "D/A"

  datatype Destination = Beneficial | Improvement | Neither

  /** A raw answer that counts as given: non-empty and not the no-answer token.
      The test is on the answer before stripping. */
  predicate Answered(value: string) {
    value != "" && value != NoAnswer
  }

  /** Where one cell's answer goes. The improvement test is only reached when
      the beneficial one fails, so a column carrying both markers feeds the
      beneficial comments alone. */
  function Route(cell: Cell): Destination {
    var (column, value) := cell;
    if Contains(Lower(column), BeneficialMarker) && Answered(value) then Beneficial
    else if Contains(Lower(column), ImprovementMarker) && Answered(value) then Improvement
    else Neither
  }

  /** The stripped answer of a cell routed to the beneficial list, if it is. */
  function BeneficialComment(cell: Cell): Option<string> {
    if Route(cell) == Beneficial then Some(Strip(cell.1)) else None
  }

  /** The stripped answer of a cell routed to the improvement list, if it is. */
  function ImprovementComment(cell: Cell): Option<string> {
    if Route(cell) == Improvement then Some(Strip(cell.1)) else None
  }

  /** Reference definition of the comments routed to `d` along a walk. */
  function CommentsTo(cells: seq<Cell>, d: Destination): seq<string> {
    match d
    case Beneficial => Collect(cells, BeneficialComment)
    case Improvement => Collect(cells, ImprovementComment)
    case Neither => []
  }

  /** `extract_comments(responses)`: for every cell in row-major order, a
      beneficial-comment column adds its stripped answer to the first list,
      otherwise an improvement column adds it to the second. */
  method ExtractComments(rows: seq<Row>) returns (beneficial: seq<string>, improvement: seq<string>)
    ensures beneficial == CommentsTo(Cells(rows), Beneficial)
    ensures improvement == CommentsTo(Cells(rows), Improvement)
  {
    beneficial, improvement := [], [];
    var r := 0;
    while r < |rows|
      invariant 0 <= r <= |rows|
      invariant beneficial == CommentsTo(Cells(rows[..r]), Beneficial)
      invariant improvement == CommentsTo(Cells(rows[..r]), Improvement)
    {
      CellsStep(rows, r);
      beneficial, improvement := CommentsOfRow(beneficial, improvement, rows[r], Cells(rows[..r]));
      r := r + 1;
    }
    assert rows[..r] == rows;
  }

  /** The loop over the cells of one row. */
  method CommentsOfRow(beneficial: seq<string>, improvement: seq<string>, row: Row, ghost done: seq<Cell>)
    returns (beneficial': seq<string>, improvement': seq<string>)
    requires beneficial == CommentsTo(done, Beneficial)
    requires improvement == CommentsTo(done, Improvement)
    ensures beneficial' == CommentsTo(done + row, Beneficial)
    ensures improvement' == CommentsTo(done + row, Improvement)
  {
    beneficial', improvement' := beneficial, improvement;
    ghost var seen := done;
    var j := 0;
    while j < |row|
      invariant 0 <= j <= |row|
      invariant seen == done + row[..j]
      invariant beneficial' == CommentsTo(seen, Beneficial)
      invariant improvement' == CommentsTo(seen, Improvement)
    {
      beneficial', improvement' := FileCell(beneficial', improvement', row[j], seen);
      ConcatPrefixStep(done, row, j);
      seen := seen + [row[j]];
      j := j + 1;
    }
    assert row[..j] == row;
  }

  /** The loop body of `extract_comments` for one cell. */
  method FileCell(beneficial: seq<string>, improvement: seq<string>, cell: Cell, ghost seen: seq<Cell>)
    returns (beneficial': seq<string>, improvement': seq<string>)
    requires beneficial == CommentsTo(seen, Beneficial)
    requires improvement == CommentsTo(seen, Improvement)
    ensures beneficial' == CommentsTo(seen + [cell], Beneficial)
    ensures improvement' == CommentsTo(seen + [cell], Improvement)
  {
    beneficial', improvement' := beneficial, improvement;
    CollectSnoc(seen, cell, BeneficialComment);
    CollectSnoc(seen, cell, ImprovementComment);
    var (column, value) := cell;
    if Contains(Lower(column), BeneficialMarker) && value != "" && value != NoAnswer {
      assert Route(cell) == Beneficial;
      beneficial' := beneficial + [Strip(value)];
    } else if Contains(Lower(column), ImprovementMarker) && value != "" && value != NoAnswer {
      assert Route(cell) == Improvement;
      improvement' := improvement + [Strip(value)];
    } else {
      assert Route(cell) == Neither;
    }
  }

  /** `comment` is the stripped form of the given answer in `cell`, whose
      column carries the marker of `d`; an improvement comment never comes
      from a column that also carries the beneficial marker. */
  predicate ComesFrom(cell: Cell, comment: string, d: Destination) {
    && Answered(cell.1)
    && comment == Strip(cell.1)
    && (d == Beneficial ==> Contains(Lower(cell.0), BeneficialMarker))
    && (d == Improvement ==> Contains(Lower(cell.0), ImprovementMarker) && !Contains(Lower(cell.0), BeneficialMarker))
  }

  /** Every comment comes from a cell of the walk as `ComesFrom` describes. */
  lemma CommentsOrigin(cells: seq<Cell>, d: Destination)
    requires d != Neither
    ensures forall k :: 0 <= k < |CommentsTo(cells, d)| ==>
              exists i :: 0 <= i < |cells| && ComesFrom(cells[i], CommentsTo(cells, d)[k], d)
  {
    var out := CommentsTo(cells, d);
    if d == Beneficial {
      CollectOrigin(cells, BeneficialComment);
      forall k | 0 <= k < |out|
        ensures exists i :: 0 <= i < |cells| && ComesFrom(cells[i], out[k], d)
      {
        var i :| 0 <= i < |cells| && BeneficialComment(cells[i]) == Some(out[k]);
        assert Route(cells[i]) == Beneficial;
        assert ComesFrom(cells[i], out[k], d);
      }
    } else {
      CollectOrigin(cells, ImprovementComment);
      forall k | 0 <= k < |out|
        ensures exists i :: 0 <= i < |cells| && ComesFrom(cells[i], out[k], d)
      {
        var i :| 0 <= i < |cells| && ImprovementComment(cells[i]) == Some(out[k]);
        assert Route(cells[i]) == Improvement;
        assert ComesFrom(cells[i], out[k], d);
      }
    }
  }

  /** A given answer in a column with either marker is kept, whatever its
      stripped form; a column with both markers feeds only the beneficial
      list. */
  lemma RoutingOfAnswer(column: string, value: string)
    requires Answered(value)
    ensures Contains(Lower(column), BeneficialMarker) ==>
              CommentsTo([(column, value)], Beneficial) == [Strip(value)]
              && CommentsTo([(column, value)], Improvement) == []
    ensures !Contains(Lower(column), BeneficialMarker) && Contains(Lower(column), ImprovementMarker) ==>
              CommentsTo([(column, value)], Improvement) == [Strip(value)]
              && CommentsTo([(column, value)], Beneficial) == []
  {
    assert [(column, value)][..0] == [];
  }

  /** A whitespace-only answer is not a non-answer: it passes the test on
      the raw answer and is kept, as "", in whichever list its column feeds. */
  lemma BlankAnswerKeptEmpty(column: string, value: string)
    requires value != "" && forall t :: 0 <= t < |value| ==> IsSpace(value[t])
    ensures Contains(Lower(column), BeneficialMarker) ==>
              CommentsTo([(column, value)], Beneficial) == [""]
    ensures !Contains(Lower(column), BeneficialMarker) && Contains(Lower(column), ImprovementMarker) ==>
              CommentsTo([(column, value)], Improvement) == [""]
  {
    assert value != NoAnswer by {
      assert IsSpace(value[0]) && value[0] != NoAnswer[0];
    }
    RoutingOfAnswer(column, value);
    StripAllSpace(value);
  }

  /** The example of a column asking what was most beneficial. */
  lemma BlankAnswerExample()
    ensures CommentsTo([("What was most beneficial?", "   ")], Beneficial) == [""]
  {
    var column := "What was most beneficial?";
    assert OccursAt(Lower(column), BeneficialMarker, 9) by {
      assert Lower(column)[9..24] == BeneficialMarker;
    }
    ContainsAt(Lower(column), BeneficialMarker, 9);
    BlankAnswerKeptEmpty(column, "   ");
  }

  /** The empty answer and the no-answer token add nothing. */
  lemma NonAnswersDropped(column: string, d: Destination)
    ensures CommentsTo([(column, "")], d) == [] || d == Neither
    ensures CommentsTo([(column, NoAnswer)], d) == [] || d == Neither
  {
    assert [(column, "")][..0] == [];
    assert [(column, NoAnswer)][..0] == [];
  }
}
