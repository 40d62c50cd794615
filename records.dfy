/** Records `{id, data}` built from the rows of a table, and what a
    successful load produces: one record per row that is not entirely
    missing, in row order, with id `index + 1` and one payload entry per
    column key. */
module Records {
  import opened Cells
  import opened Labels
  import opened Grid

  /** One normalised row: its id and its payload keyed by `str(column)`. */
  datatype Record = Record(id: int, data: map<string, Value>)

  datatype Option<T> = None | Some(value: T)

  /** No two columns carry the same label. `read_excel` renames repeated
      headers, so the frames it returns have this property. */
  predicate DistinctLabels(columns: seq<Label>) {
    forall a, b :: 0 <= a < b < |columns| ==> columns[a] != columns[b]
  }

  /** The payload built from a row, column by column in column order. Each
      column writes its key, so when two columns have the same key the
      later one's value is the one that stays. */
  function RowData(columns: seq<Label>, cells: seq<Cell>): (data: map<string, Value>)
    requires |columns| == |cells|
    ensures columns != [] ==> Key(columns[|columns| - 1]) in data &&
                              data[Key(columns[|columns| - 1])] == NormalizeCell(cells[|cells| - 1])
  {
    if columns == [] then map[]
    else
      var n := |columns| - 1;
      RowData(columns[..n], cells[..n])[Key(columns[n]) := NormalizeCell(cells[n])]
  }

  /** The payload keys a table's columns give: `{str(c) | c in columns}`. */
  ghost function ColumnKeys(columns: seq<Label>): set<string> {
    set j | 0 <= j < |columns| :: Key(columns[j])
  }

  /** Column j is the last column whose key is the key of column j. */
  ghost predicate LastWithKey(columns: seq<Label>, j: int) {
    0 <= j < |columns| &&
    forall j' :: j < j' < |columns| ==> Key(columns[j']) != Key(columns[j])
  }

  /** Every payload has exactly the column keys. */
  lemma {:induction false} RowDataKeys(columns: seq<Label>, cells: seq<Cell>)
    requires |columns| == |cells|
    ensures RowData(columns, cells).Keys == ColumnKeys(columns)
  {
    if columns != [] {
      var n := |columns| - 1;
      RowDataKeys(columns[..n], cells[..n]);
      RowDataKeysStep(columns, cells);
      ColumnKeysStep(columns);
    }
  }

  /** The last column adds its key to the payload of the columns before it. */
  lemma RowDataKeysStep(columns: seq<Label>, cells: seq<Cell>)
    requires |columns| == |cells| && columns != []
    ensures RowData(columns, cells).Keys ==
            RowData(columns[..|columns| - 1], cells[..|cells| - 1]).Keys + {Key(columns[|columns| - 1])}
  {
  }

  /** The column keys are those of the columns before the last, and the last one's. */
  lemma ColumnKeysStep(columns: seq<Label>)
    requires columns != []
    ensures ColumnKeys(columns) == ColumnKeys(columns[..|columns| - 1]) + {Key(columns[|columns| - 1])}
  {
  }

  /** The value under a column's key is that column's normalised cell,
      provided no later column has the same key. */
  lemma {:induction false} RowDataValue(columns: seq<Label>, cells: seq<Cell>, j: int)
    requires |columns| == |cells|
    requires LastWithKey(columns, j)
    ensures Key(columns[j]) in RowData(columns, cells)
    ensures RowData(columns, cells)[Key(columns[j])] == NormalizeCell(cells[j])
  {
    var n := |columns| - 1;
    if j < n {
      assert LastWithKey(columns[..n], j);
      RowDataValue(columns[..n], cells[..n], j);
    }
  }

  /** Two columns with the same key: the value of the later one is kept.
      Under a text header "7" followed by an integer header 7 there is a
      single key "7", holding the second column's value. */
  lemma DuplicateKeyLaterWins(a: Cell, b: Cell)
    ensures RowData([Name("7"), Position(7)], [a, b]).Keys == {"7"}
    ensures RowData([Name("7"), Position(7)], [a, b])["7"] == NormalizeCell(b)
  {
    assert Digits(7) == "7";
    assert RowData([Name("7")], [a]) == map["7" := NormalizeCell(a)];
  }

  /** The record a row becomes: its id is the row's index label plus one
      and its payload has exactly the column keys. */
  function RowRecord(columns: seq<Label>, row: Row): (r: Record)
    requires |row.cells| == |columns|
    ensures r.id == row.index + 1
    ensures r.data.Keys == ColumnKeys(columns)
  {
    RowDataKeys(columns, row.cells);
    Record(row.index + 1, RowData(columns, row.cells))
  }

  /** The collection a successful load of `t` leaves in the store: one
      record per row that is not entirely missing, each with the column
      keys. */
  function LoadedRecords(t: Table): (recs: seq<Record>)
    requires Rectangular(t)
    ensures |recs| == |NonEmptyPositions(t.rows)|
    ensures forall k :: 0 <= k < |recs| ==> recs[k].data.Keys == ColumnKeys(t.columns)
  {
    DropEmptyRowsCount(t.rows);
    var kept := DropEmptyRows(t.rows);
    seq(|kept|, k requires 0 <= k < |kept| => RowRecord(t.columns, kept[k]))
  }

  /** The inner loop of the load: fills the payload of one row column by
      column, then wraps it with the row's id. When a label occurs twice,
      `row[column]` is a Series rather than a cell, and the `pd.isna` test
      raises on it: the row yields no record. */
  method BuildRecord(columns: seq<Label>, row: Row) returns (r: Option<Record>)
    requires |row.cells| == |columns|
    ensures r.Some? <==> DistinctLabels(columns)
    ensures r.Some? ==> r.value == RowRecord(columns, row)
  {
    var data: map<string, Value> := map[];
    for j := 0 to |columns|
      invariant data == RowData(columns[..j], row.cells[..j])
      invariant forall a :: 0 <= a < j ==> columns[a] !in columns[..a] + columns[a + 1..]
    {
      if columns[j] in columns[..j] + columns[j + 1..] {
        RepeatedLabel(columns, j);
        return None;
      }
      assert columns[..j + 1][..j] == columns[..j];
      assert row.cells[..j + 1][..j] == row.cells[..j];
      data := data[Key(columns[j]) := NormalizeCell(row.cells[j])];
    }
    NoRepeatedLabel(columns);
    assert columns[..|columns|] == columns;
    assert row.cells[..|columns|] == row.cells;
    r := Some(Record(row.index + 1, data));
  }

  lemma RepeatedLabel(columns: seq<Label>, j: int)
    requires 0 <= j < |columns|
    requires columns[j] in columns[..j] + columns[j + 1..]
    ensures !DistinctLabels(columns)
  {
  }

  lemma NoRepeatedLabel(columns: seq<Label>)
    requires forall a :: 0 <= a < |columns| ==> columns[a] !in columns[..a] + columns[a + 1..]
    ensures DistinctLabels(columns)
  {
  }

  // ---------------------------------------------------------------------
  // Properties of a successful load

  /** Record k comes from the k-th row that is not entirely missing, and
      these rows are taken in increasing row order. */
  lemma LoadedFollowsRows(t: Table)
    requires Rectangular(t)
    ensures |LoadedRecords(t)| == |KeptPositions(t.rows)|
    ensures StrictlyIncreasing(KeptPositions(t.rows))
    ensures forall k :: 0 <= k < |LoadedRecords(t)| ==>
              LoadedRecords(t)[k] == RowRecord(t.columns, t.rows[KeptPositions(t.rows)[k]])
  {
    DropEmptyRowsKeepsOrder(t.rows);
  }

  /** Every payload value is the normalised cell of its row and column
      (for the last column carrying that key). */
  lemma LoadedValues(t: Table, k: int, j: int)
    requires Rectangular(t)
    requires 0 <= k < |LoadedRecords(t)|
    requires LastWithKey(t.columns, j)
    ensures |LoadedRecords(t)| == |KeptPositions(t.rows)|
    ensures Key(t.columns[j]) in LoadedRecords(t)[k].data
    ensures LoadedRecords(t)[k].data[Key(t.columns[j])] ==
            NormalizeCell(t.rows[KeptPositions(t.rows)[k]].cells[j])
  {
    LoadedFollowsRows(t);
    RowDataValue(t.columns, t.rows[KeptPositions(t.rows)[k]].cells, j);
  }

  /** Each record's id is its source row's index label plus one: ids are
      not renumbered after empty rows are dropped. */
  lemma LoadedIds(t: Table)
    requires Rectangular(t)
    ensures |LoadedRecords(t)| == |KeptPositions(t.rows)|
    ensures forall k :: 0 <= k < |LoadedRecords(t)| ==>
              LoadedRecords(t)[k].id == t.rows[KeptPositions(t.rows)[k]].index + 1
  {
    LoadedFollowsRows(t);
  }

  /** With increasing row labels the ids strictly increase in record order,
      so they are unique. */
  lemma LoadedIdsIncreasing(t: Table)
    requires Rectangular(t)
    requires LabelsIncreasing(t.rows)
    ensures forall a, b :: 0 <= a < b < |LoadedRecords(t)| ==>
              LoadedRecords(t)[a].id < LoadedRecords(t)[b].id
  {
    LoadedFollowsRows(t);
  }

  /** The id a dropped row would have had is given to no record: it is
      skipped, not reused. */
  lemma DroppedRowIdSkipped(t: Table, j: int)
    requires Rectangular(t)
    requires LabelsIncreasing(t.rows)
    requires 0 <= j < |t.rows| && AllMissing(t.rows[j])
    ensures forall k :: 0 <= k < |LoadedRecords(t)| ==> LoadedRecords(t)[k].id != t.rows[j].index + 1
  {
  }

  /** Under the default index, record k's id is one plus the position in
      the sheet of the row it came from. */
  lemma DefaultIndexIds(t: Table)
    requires Rectangular(t)
    requires DefaultIndex(t)
    ensures LabelsIncreasing(t.rows)
    ensures |LoadedRecords(t)| == |KeptPositions(t.rows)|
    ensures forall k :: 0 <= k < |LoadedRecords(t)| ==>
              LoadedRecords(t)[k].id == KeptPositions(t.rows)[k] + 1
  {
    LoadedIds(t);
  }

  /** A sheet with columns name and age and three rows, the middle one
      blank: two records, with ids 1 and 3. The age column holds a blank,
      so pandas stores it as floats; since the name column is text, each
      row is an object array of plain Python values, so the age arrives as
      a plain 30.0 and the blanks as plain NaN. */
  lemma BlankMiddleRowExample()
    ensures
      var t := Table([Name("name"), Name("age")],
                     [Row(0, [Plain(Text("Ana")), Plain(Float(30.0))]),
                      Row(1, [Plain(NotANumber), Plain(NotANumber)]),
                      Row(2, [Plain(Text("Bo")), Plain(NotANumber)])]);
      Rectangular(t) &&
      LoadedRecords(t) ==
        [Record(1, map["name" := Val(Text("Ana")), "age" := Val(Float(30.0))]),
         Record(3, map["name" := Val(Text("Bo")), "age" := Null])]
  {
    var rows := [Row(0, [Plain(Text("Ana")), Plain(Float(30.0))]),
                 Row(1, [Plain(NotANumber), Plain(NotANumber)]),
                 Row(2, [Plain(Text("Bo")), Plain(NotANumber)])];
    var t := Table([Name("name"), Name("age")], rows);
    ExampleKeptRows();
    ExampleRecords();
    assert LoadedRecords(t) == [RowRecord(t.columns, rows[0]), RowRecord(t.columns, rows[2])];
  }

  /** In the example, the filter keeps the first and the last row. */
  lemma ExampleKeptRows()
    ensures
      var r0 := Row(0, [Plain(Text("Ana")), Plain(Float(30.0))]);
      var r1 := Row(1, [Plain(NotANumber), Plain(NotANumber)]);
      var r2 := Row(2, [Plain(Text("Bo")), Plain(NotANumber)]);
      DropEmptyRows([r0, r1, r2]) == [r0, r2]
  {
    var r0 := Row(0, [Plain(Text("Ana")), Plain(Float(30.0))]);
    var r1 := Row(1, [Plain(NotANumber), Plain(NotANumber)]);
    var r2 := Row(2, [Plain(Text("Bo")), Plain(NotANumber)]);
    var rows := [r0, r1, r2];
    assert rows[..2] == [r0, r1] && [r0, r1][..1] == [r0] && [r0][..0] == [];
    assert !IsNa(r0.cells[0]) && !IsNa(r2.cells[0]);
    assert AllMissing(r1) && !AllMissing(r0) && !AllMissing(r2);
    assert DropEmptyRows([r0]) == [r0];
    assert DropEmptyRows([r0, r1]) == [r0];
  }

  /** In the example, the two kept rows give ids 1 and 3, and the blank age
      becomes null. */
  lemma ExampleRecords()
    ensures
      var cols := [Name("name"), Name("age")];
      RowRecord(cols, Row(0, [Plain(Text("Ana")), Plain(Float(30.0))])) ==
        Record(1, map["name" := Val(Text("Ana")), "age" := Val(Float(30.0))]) &&
      RowRecord(cols, Row(2, [Plain(Text("Bo")), Plain(NotANumber)])) ==
        Record(3, map["name" := Val(Text("Bo")), "age" := Null])
  {
  }
}
