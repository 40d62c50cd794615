# ExcelProcessor record store, modelled in Dafny

This project models the core of `ExcelProcessor` from `excel_processor.py`. It
has two parts.

- **Loading.** A sheet is turned into a list of records `{id, data}`. Rows whose
  cells are all missing are dropped. Every other row becomes one record whose id
  is the row's index label plus one. Its payload maps `str(column)` to the cell
  after normalisation: a missing cell becomes null, a NumPy-wrapped scalar is
  unwrapped, and anything else passes through.
- **Sampling.** `get_random_records(n)` checks its cases in order. An empty
  store gives `[]`. A non-positive `n` gives `[]`. An `n` of at least the
  store's size gives the whole list in its order. Any other `n` gives `n`
  records drawn without replacement.

The spreadsheet reader is abstract. It either returns a `Table` (ordered column
labels and ordered rows, each row with its pandas index label and one `Cell` per
column) or fails (`Unreadable`). The random source is an unconstrained choice
inside `Sampler.Sample`. Every property stated of a sample therefore holds for
every draw the source could make.

Modules: `Cells` holds cells and the normalisation rule. `Labels` holds column
labels and `str(column)`. `Grid` holds the table and `dropna(how='all')`.
`Records` holds the record shape, the collection a load produces, and the inner
per-column loop. `Sampler` models `random.sample`. `Processor` holds the
`ExcelProcessor` class and its single field `dataArray`.

Two details of the code are easy to misread:

- **Ids are not renumbered.** The comment at excel_processor.py:35 calls the id
  incremental from 1, but the code sets it to `index + 1`. Because `dropna`
  (line 26) keeps the row labels, a dropped row leaves a gap. A sheet whose
  middle row is blank gives ids 1 and 3 (`Records.BlankMiddleRowExample`).
- **A failed read keeps the old records.** The read (lines 20-23) comes before
  the reset (line 29). When the read raises, control goes to the handlers at
  lines 57-60, which only print, so `data_array` keeps its previous contents.
  An exception raised inside the row loop comes after the reset. A column label
  that occurs twice is one such case: the store is then left empty.

## Model

| member | source | states |
|---|---|---|
| `Cells.IsNa` | excel_processor.py:44 | `pd.isna` on a cell: true for None, and for NaN whether wrapped or not; false for every other scalar |
| `Cells.NormalizeCell` | excel_processor.py:43-48 | the result is null exactly when pandas counts the cell missing (None or NaN, wrapped or not); otherwise it is the wrapped scalar unwrapped, or the plain value unchanged; the missing test takes precedence, so a wrapped NaN becomes null and no payload value is NaN |
| `Labels.Decimal` | excel_processor.py:50 | `str` of an integer is an optional '-' then digits, starts with '-' exactly when the integer is negative, and reads back as that integer |
| `Labels.DigitsNoLeadingZero` | excel_processor.py:50 | the decimal digits of a number have no leading zero: only 0 is written starting with '0' |
| `Labels.DecimalNoLeadingZero` | excel_processor.py:50 | `str` of an integer is canonical: it starts with '0' only as "0", and no '0' follows a '-', so a text header such as "07" never shares a key with an integer header |
| `Labels.Key` | excel_processor.py:50 | `str(column)`: a text header is its own key, and an integer header's key reads back as that integer |
| `Labels.ParseDigitsOfDigits` | excel_processor.py:50 | reading the decimal digits of a number gives the number back, the round trip that the `Labels.Decimal` row rests on |
| `Labels.PositionKeysInjective` | excel_processor.py:50 | two integer column labels give the same payload key if and only if they are equal |
| `Grid.DropEmptyRows` | excel_processor.py:26 | the kept rows are input rows, none of them entirely missing, and there are no more of them than input rows |
| `Grid.DropEmptyRowsKeepsOrder` | excel_processor.py:26 | the k-th kept row is the input row at the k-th kept position; the positions strictly increase; a position is kept if and only if its row has a present cell |
| `Grid.DropEmptyRowsCount` | excel_processor.py:26 | the number of kept rows equals the number of input rows that are not entirely missing |
| `Records.RowData` | excel_processor.py:40-50 | the payload filled column by column; the last column's key always holds the last column's normalised cell |
| `Records.RowDataKeys` | excel_processor.py:40-50 | a row's payload has exactly the key set `{str(c) | c in columns}` |
| `Records.RowDataValue` | excel_processor.py:40-50 | under the key of a column that no later column shares, the payload holds that column's normalised cell |
| `Records.DuplicateKeyLaterWins` | excel_processor.py:50 | a text header "7" followed by an integer header 7 give one key, and the later column's value is the one kept |
| `Records.RowRecord` | excel_processor.py:34-37 | the `row_object` of a row: id is the row's index label plus one, and the payload has exactly the column keys |
| `Records.LoadedRecords` | excel_processor.py:26-52 | the list a successful load leaves: as many records as there are rows that are not entirely missing, each with the same key set, the column keys |
| `Records.BuildRecord` | excel_processor.py:33-50 | the per-column loop yields a record if and only if no column label occurs twice; that record has id `index + 1` and the row's payload, column by column; a repeated label makes `row[column]` a Series on which the test at line 44 raises |
| `Records.LoadedFollowsRows` | excel_processor.py:26-52 | record k is built from the row at the k-th kept position, and these positions increase, so record order follows row order |
| `Records.LoadedValues` | excel_processor.py:41-50 | each payload value is the normalised cell of the record's source row at that column, for the last column carrying that key |
| `Records.LoadedIds` | excel_processor.py:32-35 | each record's id is its source row's index label plus one, with no renumbering after the filter |
| `Records.LoadedIdsIncreasing` | excel_processor.py:32-35 | when row labels increase, ids strictly increase in record order and so are unique |
| `Records.DroppedRowIdSkipped` | excel_processor.py:26-35 | the id a dropped row would have had is given to no record |
| `Records.DefaultIndexIds` | excel_processor.py:32-35 | under the reader's default index, record k's id is one plus the sheet position of its source row |
| `Records.BlankMiddleRowExample` | excel_processor.py:26-52 | columns name and age with a blank middle row load as two records with ids 1 and 3, and the missing age becomes null |
| `Sampler.Sample` | excel_processor.py:86 | `random.sample(population, k)` returns k elements taken from pairwise-distinct positions, in draw order |
| `Sampler.PickSubMultiset` | excel_processor.py:86 | elements taken at distinct positions form a sub-multiset of the population |
| `Sampler.WholeIsDrawn` | excel_processor.py:80-83 | the whole list, in its order, is one result of a draw of its full size |
| `Sampler.EmptyIsDrawn` | excel_processor.py:72-78 | the empty list is a draw from any population |
| `Sampler.DrawnFromIsSubset` | excel_processor.py:86 | a draw is no longer than the population, and every element of it comes from the population, with no element more often than there |
| `Sampler.DrawnKeysDistinct` | excel_processor.py:86 | a draw from a population whose keys are distinct repeats no key |
| `Processor.ExcelProcessor.constructor` | excel_processor.py:7-8 | a new store holds no records |
| `Processor.ExcelProcessor.LoadExcel` | excel_processor.py:18-60 | a failed read leaves the records exactly as they were; a successful read replaces them with the records of the table, whatever was held before, and the count becomes the number of non-empty rows; if a label occurs twice and some row is kept, the loop raises after the reset and the store is left empty |
| `Processor.ExcelProcessor.TotalRecords` | excel_processor.py:112-114 | the number of records held, zero exactly when the store is empty |
| `Processor.ExcelProcessor.GetRandomRecords` | excel_processor.py:62-89 | the empty store gives `[]` for any n; n <= 0 gives `[]`; n >= size gives the whole list in order; otherwise exactly n records; every result is a draw without replacement from the store, hence a sub-multiset of it, and the store is not modified |
| `Processor.SampleIdsDistinct` | excel_processor.py:32-89 | any draw from a loaded store whose row labels increase, and so every result of `get_random_records` on it, holds no two records with the same id |

## Left out

- Reading the file (`pd.read_excel`, the `sheet_name` forwarding) is foreign I/O. The model takes the reader's outcome as input: a table, or `Unreadable`.
- The split between `FileNotFoundError` and other read exceptions is not modelled. Both handlers only print, so both are `Unreadable`.
- All console messages (`print`) are left out.
- `display_sample_data` is left out. It only formats text for the console.
- `export_to_json` and the JSON dump in `main` are left out. They are file I/O and JSON encoding.
- `main` is left out: its prompts, `int()` parsing and interrupt handling are command-line plumbing.
- The uniformity of `random.sample` is left out. It is a statistical property. Only length, provenance and distinct positions are stated.
- Floating point and NumPy's `.item()` conversions are left out. Scalars are opaque values, a float is a Dafny real, and unwrapping returns the carried scalar.
- `pd.isna` recognises only None and NaN in this model. Other missing markers such as `NaT` are not modelled.
- Of the exceptions that can be raised inside the row loop, only the one for a repeated column label is modelled. Any other would leave a partly filled list. Normalisation is otherwise total here.
- Column labels are text or integers. Other label types (floats, dates) and the way `read_excel` renames repeated headers are not modelled. Labels are taken as the reader returns them.
- Key order is not modelled. A Python dict keeps the order in which keys are first inserted, and when two columns share a key the dict keeps the first position with the later value. A Dafny `map` has no order, so the key order of the JSON text (lines 107, 125, 172) is not captured.
- Aliasing is not modelled. `data_array.copy()` (line 83) is a shallow copy, and `random.sample` (line 86) returns the store's own dict objects. A caller that mutates a returned record's `data` therefore changes the store. Records here are values, so this cannot happen in the model.
- `Processor.ExcelProcessor.LoadExcel` requires the table to be rectangular, meaning one cell per column in every row. A data frame always has this shape.
- `Sampler.Sample` requires `k <= |population|`. `random.sample` raises otherwise, and `get_random_records` never calls it with such a `k`.
