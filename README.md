# Delivery-associate violation report, modelled in Dafny

The application takes an uploaded CSV of driving-safety events, one row per
event. Each row names a delivery associate (column `Delivery Associate `,
with a trailing space), the telematics `Source` and the `Metric Type` of the
violation. The user picks some sources and some metric types. The program
then does three things:

- It keeps the events that match both choices.
- It groups them by (associate, source), in ascending key order.
- It writes one `[Name, Violations, Source]` row per group. `Violations` is
  the group's metric types with their counts, for example
  `Speeding (2), Distraction (1)`.

The table is saved as the worksheet `Processed Data` of an Excel workbook.
Every cell is centred and boxed with thin lines. The header row is filled
`B8CCE4` and set in bold. Each column is two characters wider than its
longest value. The workbook's file name is the upload's name with `.csv`
rewritten to `_processed.xlsx`.

Modules:

- `Wrappers`: `Option` and `Result`.
- `Sequences`: the position of a value's first occurrence in a list. It is
  the column lookup by name when the records are read, and it fixes the
  first-appearance order of tied counts.
- `Text`: the Python string behaviour the program relies on:
  - the ordering of `str`;
  - `str(n)` for counts;
  - `', '.join`, with `split` as its inverse;
  - `str.replace`.
- `Tallies`:
  - `Series.value_counts()` over one group's metric types;
  - the summary string built from it;
  - a decoder that reads a summary back.
- `Report`: `process_data`. It covers the column check, the filter mask, the
  groupby keys, the loop that builds the rows, and what the result says about
  the input.
- `Sheet`: `save_to_excel`. A `Worksheet` class holds the written values, a
  2-D array of cell styles and the column widths. Its methods apply the
  styling loops and the width loop.
- `Upload`: the output file name.

## Model

| member | source | states |
|---|---|---|
| Text.LessIrreflexive | app.py:107 | No string sorts before itself in the order groupby sorts its keys by. |
| Text.LessTransitive | app.py:107 | That string order is transitive. |
| Text.LessTotal | app.py:107 | Of two different strings, one sorts before the other. |
| Text.Decimal | app.py:112 | The count written into a summary is a non-empty run of digits, with no leading zero unless the count is 0. |
| Text.ParseDecimalOfDecimal | app.py:112 | Reading the written count back gives the same number. |
| Text.Split | app.py:112 | Splitting at a separator gives at least one piece. No piece holds the separator. Joining the pieces with it gives the input back. This is the inverse of the join. |
| Text.ReplaceWithoutOccurrence | app.py:71 | `replace` leaves a string that holds no occurrence of the pattern unchanged. |
| Tallies.Tallied | app.py:111 | Counting a group's metric types gives each distinct type once, with the number of times it occurs. A type is listed iff it occurs. The counts add up to the group's size. |
| Tallies.ValueCounts | app.py:111 | `value_counts()` of a group lists each metric type of the group exactly once. Each entry's count is the number of times the type occurs, and at least 1. Counts are in descending order, ties in order of first appearance. The counts add up to the group's size. |
| Tallies.RankRanked | app.py:111 | Sorting the distinct tallies leaves them in descending count order, ties by first appearance. |
| Tallies.ValueCountsUnique | app.py:111 | Only one list meets the `value_counts` contract: any list of the group's types, each with its count once and in that order, is `ValueCounts`. |
| Tallies.MoreFrequentFirst | app.py:111 | For the types `a, b, a`, `a` (2) comes before `b` (1). |
| Tallies.TieKeepsFirstAppearance | app.py:111 | For the types `a, b, b, a`, both counts are 2 and `a`, seen first, comes first. |
| Tallies.DecodeEntryOfEntry | app.py:112 | One `metric (count)` entry reads back as the metric and count it was written from. |
| Tallies.SummaryRoundTrip | app.py:112 | A whole summary reads back as the tallies it was built from, in order, when no metric name holds a comma. |
| Tallies.SummaryOfTwo | app.py:112 | Two entries are joined by exactly `, `. |
| Tallies.MoreFrequentFirstSummary | app.py:112 | Two Speeding and one Distraction render as `Speeding (2), Distraction (1)`. |
| Tallies.TieKeepsFirstAppearanceSummary | app.py:112 | A tie between Distraction and Sign Signal renders as `Distraction (2), Sign Signal (2)`. |
| Report.ReadRecords | app.py:105-107 | With `Source` missing, the error names `Source`. Otherwise, with `Metric Type` missing, it names `Metric Type`. Otherwise, with the person column missing, it names that column. With all three present, it succeeds with one record per input row, each field taken from that row's cell in the column of that name. |
| Report.Filter | app.py:106 | A record survives iff it is in the input and both its source and its metric type were selected. |
| Report.FilterCounts | app.py:106 | A selected record survives as many times as it occurs in the input. Any other record does not survive at all. |
| Report.FilterAppend | app.py:106 | Filtering a concatenation is the concatenation of the filtered parts, so survivors keep their input order. |
| Report.KeyLessTransitive | app.py:107 | The (name, source) tuple order groupby sorts by is transitive. |
| Report.KeyLessTotal | app.py:107 | Of two different keys, one sorts before the other. |
| Report.KeyLessIrreflexive | app.py:107 | No key sorts before itself. |
| Report.InsertKey | app.py:107 | Inserting a key into an ascending list of distinct keys keeps it ascending and distinct, and adds exactly that key. |
| Report.GroupKeys | app.py:107 | The groups are the distinct (name, source) keys of the filtered records, each exactly once, in strictly ascending order. |
| Report.GroupMetricsAppend | app.py:110 | A group's `Metric Type` column lists the group's records in input order: the column of two stretches of records is the first stretch's column followed by the second's. |
| Report.GroupMetricsCounts | app.py:110-111 | A group's `Metric Type` column has one entry per record with that key. Each metric type occurs as often as the record with that name, source and type. |
| Report.TabulateGroups | app.py:110-113 | The loop appends one row per group, in group order, each the row of its group. |
| Report.ProcessData | app.py:104-116 | `process_data` fails with the missing column's error, or returns the rows of the groups of the selected records. |
| Report.RowsAreGroups | app.py:107-113 | Every row's (name, source) comes from a selected input record. Every selected record's key has a row. No key has two rows. Rows are in strictly ascending key order. |
| Report.EmptyTable | app.py:106-115 | The table is empty iff no input record matches both selections. |
| Report.GroupMetricCount | app.py:106-111 | A metric type occurs in a selected source's group as often as the matching input event if the type was selected, and never otherwise. |
| Report.GroupCountsFromInput | app.py:110-112 | Each metric type in a group's counts was selected, and its count is the number of input events with that person, source and type. Every selected type the pair has is listed, once, with count at least 1, in `value_counts` order. The counts add up to the number of selected records with that person and source. |
| Report.RowViolationsDecode | app.py:112-113 | Each row's Violations cell reads back as exactly its group's `value_counts`, when the selected metric names hold no comma. |
| Report.SingleGroupExample | app.py:107-113 | Three events of one person and source, two of `a` and one of `b`, give a single row that lists `a (2)` before `b (1)`. |
| Sheet.SheetValues | app.py:124 | The written sheet has the header `Name, Violations, Source`, then one line of three cells per row. |
| Sheet.SheetRoundTrip | app.py:124 | Reading the sheet back below the header gives exactly the processed rows. |
| Sheet.Longest | app.py:145 | The longest rendering in a column is at least every cell's length and equals some cell's length. An empty column gives 0. |
| Sheet.ColumnWidth | app.py:145 | A column's width is two more than its longest value: no cell is longer than the width minus 2, and some cell is that long. |
| Sheet.HeaderWidths | app.py:145-146 | The three columns are at least 6, 12 and 8 wide, their headers' lengths plus two. |
| Sheet.WidthExample | app.py:145 | A Name column with names of 3, 10 and 5 characters is 12 wide. |
| Sheet.FinalStyle | app.py:131-141 | Every cell ends centred on both axes and boxed with thin lines. A cell has the `B8CCE4` fill, and likewise the bold font, iff it is in the header row. |
| Sheet.Worksheet.constructor | app.py:124 | `to_excel` creates the sheet `Processed Data`, holding the header and rows, with one unstyled cell per value and no column widths set. |
| Sheet.Worksheet.ApplyStyles | app.py:131-141 | Every cell of the sheet becomes centred and boxed. Header cells get the solid `B8CCE4` fill and the bold font. Data cells keep their fill and font. |
| Sheet.Worksheet.FitColumnWidths | app.py:144-146 | Columns 1 to 3 each get the width of their values. Widths of other columns are unchanged. |
| Sheet.FittedKeys | app.py:144-146 | Setting the widths of columns 1 to n one after another adds exactly those columns to the widths already set. |
| Sheet.FittedColumns | app.py:144-146 | After the first n steps, column k, for k from 1 to n, holds the k-th width computed. |
| Sheet.FittedOthers | app.py:144-146 | Widths of other columns are left as they were. |
| Sheet.FittedWidths | app.py:144-146 | After all three steps, exactly columns 1 to 3 are added, each two more than its longest value, and every other width is kept. |
| Sheet.SaveToExcel | app.py:118-146 | The saved sheet holds the header and rows. Every cell has its final style. Exactly columns 1 to 3 have a width, each two more than its longest value. |
| Upload.OutputNameLength | app.py:71 | Each `.csv` in the name makes the output name 11 characters longer. |
| Upload.OutputNameUnchanged | app.py:71 | The output name equals the upload's name iff the name holds no `.csv`. |
| Upload.OutputNameAt | app.py:71 | A `.csv` after a stretch without one becomes `_processed.xlsx`, and the rest of the name is rewritten the same way. So every occurrence is replaced, left to right. |
| Upload.OutputNameOfCsv | app.py:71 | A name `base.csv`, with no other `.csv`, becomes `base_processed.xlsx`. |
| Upload.UpperCaseExtensionKeepsName | app.py:62-72 | `report.CSV` keeps its name, so the workbook's output path in `uploads` is the path the upload was saved at. |
| Upload.ProcessedName | app.py:71 | The corrected output name always ends in `_processed.xlsx` and never equals the upload's name. |
| Upload.ProcessedNameAgrees | app.py:71 | On `base.csv` names the corrected name is the one the program produces. |

## Left out

- The Flask routes, the HTML upload and result pages, `secure_filename`, saving the upload, `os.makedirs` and the download route. They are web and file I/O. The model starts from the parsed table and the selected lists, and ends at the worksheet contents.
- `pd.read_csv`. The model's input is already a rectangular table of text cells. Empty cells, NaN values and dtype inference are not modelled, so groupby's dropping of NaN keys is not either.
- Report.ReadRecords: states that each field comes from a column with that name. This is exact only when column names are unique. `read_csv` renames duplicates, so they are; the model takes the first column of a name.
- Report.ProcessData: the `KeyError` pandas raises for a missing column becomes `SchemaError`. The web error page it leads to is not modelled.
- Tallies.ValueCounts: fixes the order of tied counts as first appearance in the group. pandas promises only descending counts and leaves the order of ties to its hashing and sorting.
- Tallies.SummaryRoundTrip: holds only for metric names without a comma, because the summary itself is comma-separated. The five metric types the form offers contain none. Report.RowViolationsDecode carries the same requirement.
- Text.Replace: requires a non-empty pattern. Python's rule for an empty pattern is not modelled, since the program only replaces `.csv`.
- The xlsx file bytes, `pd.ExcelWriter` and the workbook object. The worksheet is modelled as values, per-cell styles and column widths.
- pandas' own header styling (bold, border, centring). It is written before the styling loops, and those loops overwrite every attribute it sets. The model therefore starts from unstyled cells.
- Writing the workbook to its path (`pd.ExcelWriter`, app.py:123). What happens when that path is the upload's own, as for `report.CSV`, depends on pandas, which the model does not cover: it may overwrite the upload or reject the extension.
- `get_column_letter`. Widths are keyed by the 1-based column number (1, 2, 3 for A, B, C).
- Sheet.Longest: a `None` cell and an empty string both count 0, so cells are modelled as strings. Lengths are counted in characters, as Python's `len` counts code points.

## Findings

| source | as written | input that shows it | evidently intended | confidence | as-written member | corrected member |
|---|---|---|---|---|---|---|
| app.py:71 | A name without a lower-case `.csv` keeps its name, so the output name, and with it the output path (app.py:62, 72), equals the upload's. What writing the workbook to that path then does is up to pandas. | `report.CSV` | An output name of its own that ends in `_processed.xlsx` | medium; not executed | Upload.UpperCaseExtensionKeepsName | Upload.ProcessedName |
