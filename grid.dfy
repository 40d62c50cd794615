/** The tabular input as the spreadsheet reader hands it over: ordered
    column labels and ordered rows, each row carrying its index label (`index`), and
    the removal of rows whose cells are all missing (`dropna(how='all')`). */
module Grid {
  import opened Cells
  import opened Labels

  /** One row: the index label pandas gives it and its cells, one per column. */
  datatype Row = Row(index: int, cells: seq<Cell>)

  datatype Table = Table(columns: seq<Label>, rows: seq<Row>)

  /** A data frame is rectangular: every row has one cell per column. */
  predicate Rectangular(t: Table) {
    forall k :: 0 <= k < |t.rows| ==> |t.rows[k].cells| == |t.columns|
  }

  /** The index `read_excel` gives by default: row k is labelled k. */
  predicate DefaultIndex(t: Table) {
    forall k :: 0 <= k < |t.rows| ==> t.rows[k].index == k
  }

  /** Row labels strictly increase in row order (true of the default index). */
  predicate LabelsIncreasing(rows: seq<Row>) {
    forall a, b :: 0 <= a < b < |rows| ==> rows[a].index < rows[b].index
  }

  predicate StrictlyIncreasing(p: seq<int>) {
    forall a, b :: 0 <= a < b < |p| ==> p[a] < p[b]
  }

  /** The rows `dropna(how='all')` removes. A row with no cells at all
      (a frame without columns) counts as entirely missing. */
  predicate AllMissing(r: Row) {
    forall j :: 0 <= j < |r.cells| ==> IsNa(r.cells[j])
  }

  /** `dropna(how='all')`: the rows that have at least one present cell,
      in their original order and with their original labels. */
  function DropEmptyRows(rows: seq<Row>): (kept: seq<Row>)
    ensures |kept| <= |rows|
    ensures forall k :: 0 <= k < |kept| ==> kept[k] in rows && !AllMissing(kept[k])
  {
    if rows == [] then []
    else
      var last := rows[|rows| - 1];
      DropEmptyRows(rows[..|rows| - 1]) + (if AllMissing(last) then [] else [last])
  }

  /** The positions, in the input, of the rows that survive the filter. */
  function KeptPositions(rows: seq<Row>): (p: seq<int>)
    ensures forall k :: 0 <= k < |p| ==> 0 <= p[k] < |rows|
  {
    if rows == [] then []
    else
      var n := |rows| - 1;
      KeptPositions(rows[..n]) + (if AllMissing(rows[n]) then [] else [n])
  }

  /** The positions of the rows that are not entirely missing, as a set. */
  ghost function NonEmptyPositions(rows: seq<Row>): set<int> {
    set j | 0 <= j < |rows| && !AllMissing(rows[j])
  }

  /** The k-th row the filter keeps is the input row at the k-th kept position. */
  lemma {:induction false} DropEmptyRowsAt(rows: seq<Row>)
    ensures |DropEmptyRows(rows)| == |KeptPositions(rows)|
    ensures forall k :: 0 <= k < |KeptPositions(rows)| ==>
              DropEmptyRows(rows)[k] == rows[KeptPositions(rows)[k]]
  {
    if rows != [] {
      var n := |rows| - 1;
      DropEmptyRowsAt(rows[..n]);
    }
  }

  /** The kept positions increase, so the filter preserves row order. */
  lemma {:induction false} KeptPositionsIncreasing(rows: seq<Row>)
    ensures StrictlyIncreasing(KeptPositions(rows))
  {
    if rows != [] {
      KeptPositionsIncreasing(rows[..|rows| - 1]);
    }
  }

  /** A position is kept if and only if its row has a present cell. */
  lemma {:induction false} KeptPositionsExact(rows: seq<Row>)
    ensures forall j :: 0 <= j < |rows| ==> (j in KeptPositions(rows) <==> !AllMissing(rows[j]))
  {
    if rows != [] {
      var n := |rows| - 1;
      var init := rows[..n];
      KeptPositionsExact(init);
      var p := KeptPositions(init);
      forall j | 0 <= j < |rows|
        ensures j in KeptPositions(rows) <==> !AllMissing(rows[j])
      {
        if j < n {
          assert init[j] == rows[j];
          assert j in p <==> !AllMissing(init[j]);
        }
      }
    }
  }

  /** The filter keeps exactly the rows that are not entirely missing, in
      input order: the k-th kept row is the input row at the k-th kept
      position, the positions increase, and a position is kept if and only
      if its row has a present cell. */
  lemma {:induction false} DropEmptyRowsKeepsOrder(rows: seq<Row>)
    ensures |DropEmptyRows(rows)| == |KeptPositions(rows)|
    ensures forall k :: 0 <= k < |KeptPositions(rows)| ==>
              DropEmptyRows(rows)[k] == rows[KeptPositions(rows)[k]]
    ensures StrictlyIncreasing(KeptPositions(rows))
    ensures forall j :: 0 <= j < |rows| ==> (j in KeptPositions(rows) <==> !AllMissing(rows[j]))
  {
    DropEmptyRowsAt(rows);
    KeptPositionsIncreasing(rows);
    KeptPositionsExact(rows);
  }

  /** The number of rows kept equals the number of input rows that are not
      entirely missing. */
  lemma DropEmptyRowsCount(rows: seq<Row>)
    ensures |DropEmptyRows(rows)| == |NonEmptyPositions(rows)|
  {
    DropEmptyRowsKeepsOrder(rows);
    var p := KeptPositions(rows);
    assert NonEmptyPositions(rows) == set k | k in p;
    DistinctCardinality(p);
  }

  /** A strictly increasing sequence has as many elements as it has values. */
  lemma {:induction false} DistinctCardinality(p: seq<int>)
    requires StrictlyIncreasing(p)
    ensures |set k | k in p| == |p|
  {
    if p != [] {
      var n := |p| - 1;
      DistinctCardinality(p[..n]);
      assert (set k | k in p) == (set k | k in p[..n]) + {p[n]};
      assert p[n] !in p[..n];
    }
  }
}
