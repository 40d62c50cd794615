/** The record store: an `ExcelProcessor` holds the list of records of the
    last successful load, replaces it wholesale on the next successful load,
    keeps it on a failed read, and serves counts and random samples of it. */
module Processor {
  import opened Cells
  import opened Grid
  import opened Records
  import opened Sampler

  /** What the spreadsheet reader gives back: a table, or an exception
      (file not found, unreadable format, unknown sheet). */
  datatype ReadOutcome = Read(table: Table) | Unreadable

  class ExcelProcessor {
    var dataArray: seq<Record>

    /** A new store holds no records. */
    constructor ()
      ensures dataArray == []
    {
      dataArray := [];
    }

    /** `load_excel`, given the reader's outcome. On a failed read the
        exception handler runs before the reset, so the previous records
        stay. On success the empty rows are dropped, the list is reset and
        one record per remaining row is appended, in row order. If a column
        label occurs twice, the first row raises inside the loop, after the
        reset, and the handler leaves the list empty. */
    method LoadExcel(outcome: ReadOutcome)
      requires outcome.Read? ==> Rectangular(outcome.table)
      modifies this
      ensures outcome.Unreadable? ==> dataArray == old(dataArray)
      ensures (outcome.Read? && !DistinctLabels(outcome.table.columns) &&
               DropEmptyRows(outcome.table.rows) != []) ==> dataArray == []
      ensures (outcome.Read? && (DistinctLabels(outcome.table.columns) ||
               DropEmptyRows(outcome.table.rows) == [])) ==>
                dataArray == LoadedRecords(outcome.table) &&
                TotalRecords() == |NonEmptyPositions(outcome.table.rows)|
    {
      if outcome.Unreadable? {
        return;
      }
      var t := outcome.table;
      var kept := DropEmptyRows(t.rows);
      ghost var all := LoadedRecords(t);
      assert |all| == |kept|;
      dataArray := [];
      for k := 0 to |kept|
        invariant dataArray == all[..k]
        invariant k > 0 ==> DistinctLabels(t.columns)
      {
        var rec := BuildRecord(t.columns, kept[k]);
        if rec.None? {
          assert k == 0 && dataArray == [];
          return;
        }
        assert rec.value == all[k];
        dataArray := dataArray + [rec.value];
      }
      assert dataArray == all;
    }

    /** `get_total_records`: the number of records held; zero exactly when
        the store is empty, which is how the caller tells that nothing is
        loaded. */
    function TotalRecords(): (n: nat)
      reads this
      ensures n == 0 <==> dataArray == []
    {
      |dataArray|
    }

    /** `get_random_records(n)`. In order: empty store gives no records,
        a non-positive count gives no records, a count reaching the store's
        size gives the whole list in its order, and otherwise `n` records
        drawn without replacement. The store itself is left as it was. */
    method GetRandomRecords(n: int) returns (r: seq<Record>)
      ensures dataArray == [] ==> r == []
      ensures n <= 0 ==> r == []
      ensures dataArray != [] && n >= |dataArray| ==> r == dataArray
      ensures 0 < n < |dataArray| ==> |r| == n
      ensures DrawnFrom(r, dataArray)
      ensures multiset(r) <= multiset(dataArray)
    {
      if dataArray == [] || n <= 0 {
        r := [];
        EmptyIsDrawn(dataArray);
      } else if n >= |dataArray| {
        r := dataArray;
        WholeIsDrawn(dataArray);
      } else {
        ghost var pos;
        r, pos := Sample(dataArray, n);
        assert DrawnFrom(r, dataArray);
      }
      DrawnFromIsSubset(r, dataArray);
    }
  }

  /** A sample taken after a load of a table with increasing row labels
      never holds two records with the same id. */
  lemma SampleIdsDistinct(t: Table, r: seq<Record>)
    requires Rectangular(t) && LabelsIncreasing(t.rows)
    requires DrawnFrom(r, LoadedRecords(t))
    ensures forall a, b :: 0 <= a < b < |r| ==> r[a].id != r[b].id
  {
    LoadedIdsIncreasing(t);
    DrawnKeysDistinct(r, LoadedRecords(t), (x: Record) => x.id);
  }
}
