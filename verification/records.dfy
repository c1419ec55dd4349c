/** Survey responses as the extractors see them: one row per respondent, each
    an ordered sequence of (column name, answer) cells, the items of the
    reader's row dictionary (header order when the names are distinct), and the
    row-major walk over all cells that both extractors perform. */
module Records {
  import opened Wrappers

  /** A (column name, answer) pair. A field missing from a short line, `None`
      in the reader, is taken as the empty answer: both fail every rule's test
      on the answer alike. */
  type Cell = (string, string)

  type Row = seq<Cell>

  /** All cells of `rows`, row by row, each row in column order. */
  function Cells(rows: seq<Row>): seq<Cell> {
    if |rows| == 0 then [] else Cells(rows[..|rows| - 1]) + rows[|rows| - 1]
  }

  /** Extending the processed rows by one row extends the walk by its cells. */
  lemma CellsStep(rows: seq<Row>, n: nat)
    requires n < |rows|
    ensures Cells(rows[..n + 1]) == Cells(rows[..n]) + rows[n]
  {
    assert rows[..n + 1][..n] == rows[..n];
  }

  /** The walk over two batches of rows is the walk over the first, then the
      walk over the second. */
  lemma {:induction false} CellsAppend(a: seq<Row>, b: seq<Row>)
    ensures Cells(a + b) == Cells(a) + Cells(b)
    decreases |b|
  {
    if |b| == 0 {
      assert a + b == a;
    } else {
      var n := |b| - 1;
      assert (a + b)[..|a + b| - 1] == a + b[..n];
      assert Cells(a + b) == Cells(a + b[..n]) + b[n];
      CellsAppend(a, b[..n]);
      assert Cells(b) == Cells(b[..n]) + b[n];
    }
  }

  /** The singleton of a picked value, or nothing. */
  function Picked<T>(o: Option<T>): (r: seq<T>)
    ensures o.Some? ==> r == [o.value]
    ensures o.None? ==> r == []
  {
    match o
    case Some(v) => [v]
    case None => []
  }

  /** The values `pick` yields along `cells`, in order, skipping the cells it
      declines. */
  function Collect<T>(cells: seq<Cell>, pick: Cell -> Option<T>): (r: seq<T>)
    ensures |r| <= |cells|
    decreases |cells|
  {
    if |cells| == 0 then []
    else Collect(cells[..|cells| - 1], pick) + Picked(pick(cells[|cells| - 1]))
  }

  /** Every collected value is what `pick` yields at some cell of the walk. */
  lemma {:induction false} CollectOrigin<T>(cells: seq<Cell>, pick: Cell -> Option<T>)
    ensures forall k :: 0 <= k < |Collect(cells, pick)| ==>
              exists i :: 0 <= i < |cells| && pick(cells[i]) == Some(Collect(cells, pick)[k])
    decreases |cells|
  {
    if |cells| > 0 {
      var front := cells[..|cells| - 1];
      CollectOrigin(front, pick);
      var r := Collect(cells, pick);
      var r0 := Collect(front, pick);
      assert r == r0 + Picked(pick(cells[|cells| - 1]));
      forall k | 0 <= k < |r| ensures exists i :: 0 <= i < |cells| && pick(cells[i]) == Some(r[k]) {
        if k < |r0| {
          var i :| 0 <= i < |front| && pick(front[i]) == Some(r0[k]);
          assert front[i] == cells[i];
        } else {
          assert pick(cells[|cells| - 1]) == Some(r[k]);
        }
      }
    } else {
      assert Collect(cells, pick) == [];
    }
  }

  /** One more cell adds at most its own picked value at the end. */
  lemma CollectSnoc<T>(cells: seq<Cell>, c: Cell, pick: Cell -> Option<T>)
    ensures Collect(cells + [c], pick) == Collect(cells, pick) + Picked(pick(c))
  {
    assert (cells + [c])[..|cells|] == cells;
  }

  /** Taking one more element of `b` after `a`. */
  lemma ConcatPrefixStep<T>(a: seq<T>, b: seq<T>, j: nat)
    requires j < |b|
    ensures a + b[..j + 1] == (a + b[..j]) + [b[j]]
  {
  }

  /** Collecting over a concatenation concatenates the collections: the output
      keeps the order of the walk. */
  lemma {:induction false} CollectAppend<T>(a: seq<Cell>, b: seq<Cell>, pick: Cell -> Option<T>)
    ensures Collect(a + b, pick) == Collect(a, pick) + Collect(b, pick)
    decreases |b|
  {
    if |b| > 0 {
      var n := |b| - 1;
      assert (a + b)[..|a + b| - 1] == a + b[..n];
      CollectAppend(a, b[..n], pick);
    } else {
      assert a + b == a;
    }
  }

  /** The positions of the cells `pick` accepts. */
  function PickedPositions<T>(cells: seq<Cell>, pick: Cell -> Option<T>): set<nat> {
    set i: nat | i < |cells| && pick(cells[i]).Some?
  }

  /** One value per accepted cell: nothing is dropped or duplicated. */
  lemma {:induction false} CollectCount<T>(cells: seq<Cell>, pick: Cell -> Option<T>)
    ensures |Collect(cells, pick)| == |PickedPositions(cells, pick)|
    decreases |cells|
  {
    if |cells| > 0 {
      var n := |cells| - 1;
      var front := cells[..n];
      CollectCount(front, pick);
      var p := PickedPositions(cells, pick);
      var q := PickedPositions(front, pick);
      forall i: nat | i < n
        ensures i in p <==> i in q
      {
        assert cells[i] == front[i];
      }
      if pick(cells[n]).Some? {
        assert p == q + {n};
        assert n !in q;
      } else {
        assert p == q;
      }
    }
  }
}
