# DataSight core in Dafny

DataSight is a browser tool: the user drops a CSV or Excel file on it, and it
shows the file as a table with per-column statistics. This project models
the three parts of it that compute something, and proves properties of
each:

- **Ingestion** (`ingest.dfy`, module `Ingest`). This is
  `src/utils/fileHandlers.ts`. It covers the `validateFile` gate (presence,
  then the 50 MiB size limit, then the extension) and the normalisation
  `parseCSV` and `parseExcel` apply to the row matrix their parser library
  returns. That normalisation checks the record count, trims and validates
  the headers, drops rows of the wrong width or without a filled cell,
  rejects an empty result and turns Excel cells into strings. The library
  output is the input of the model: a `CsvOutcome` (errors and records, or
  the error callback's message) and a `Workbook` (sheet names and the row
  matrix of each sheet).
- **Column analysis** (`analysis.dfy`, module `Analysis`). This is
  `src/utils/analysis.ts` with the wrapper in `src/pages/AnalyzerPage.tsx`.
  It covers `analyzeColumn`, its type inference from the first non-null
  value, the unique and missing counts, the text-order `min`/`max` of a
  string column, and the mapping of one analysis per header. `Date.parse`
  is the parameter `dateParses`.
- **Data table** (`table_view.dfy`, module `TableView`). This is
  `src/components/DataTable.tsx`. It covers the sort-header click cycle,
  the comparator and the stable copy-sort, the per-column filters and
  their comparisons, and the first-100-rows window with its row count.
  The component is the class `DataTable`: its sort configuration and
  filter map are fields that its handlers update. The copy-sort is an
  in-place insertion sort on a fresh array. It is proved equal to a
  functional stable sort, `SortRows`, whose properties are then proved:
  - it is ordered;
  - it is a permutation;
  - it is stable;
  - it is idempotent;
  - it commutes with filtering.

Shared pieces:
- `types.dfy` holds the records of `src/types/index.ts` and the JavaScript
  values a raw cell may hold.
- `text.dfy` holds `trim`, `toLowerCase`, string `<`, `includes`,
  `startsWith`, `endsWith` and `String(n)`.
- `seqs.dfy` holds `filter` (`KeepIf`) and its laws.

Two behaviours of the code that a reader might not expect:
- **Check order.** The record count is checked before the headers. A file
  with fewer than two records fails with "File is empty or has no data
  rows" whatever its header row holds: fileHandlers.ts:38 comes before :44,
  and :92 comes before :98 (`Ingest.CsvCheckOrder`,
  `Ingest.NormalizeExcel`, `Ingest.ExcelInvalidHeadersIff`).
- **The `number` type.** A column of a loaded table is never classified
  `number`. Every cell of a loaded table is a string: CSV records are
  strings, and `parseExcel` stringifies every cell at fileHandlers.ts:115.
  So `inferColumnType` never sees a number for a loaded table
  (`Analysis.LoadedColumnsNeverNumber`), and the numeric statistics never
  appear.

## Model

| member | source | states |
|---|---|---|
| Text.Trim | src/utils/fileHandlers.ts:43 | the result is the input with a whitespace prefix and a whitespace suffix removed, and has no whitespace at either end; it is empty iff the input is all whitespace |
| Text.TrimIdempotent | src/utils/fileHandlers.ts:43 | trimming twice is trimming once |
| Text.IncludesIffOccurs | src/components/DataTable.tsx:64 | `includes` holds iff the text occurs at some position |
| Text.Lower | src/components/DataTable.tsx:57-58 | the result has the input's length; each upper-case ASCII letter becomes its lower-case letter (code + 32) and every other character is kept |
| Text.LexLess | src/components/DataTable.tsx:42 | string `<` never holds between equal strings and holds when the first characters already differ upwards |
| Text.LexLessFirstDifference | src/components/DataTable.tsx:42 | string `<` holds iff `a` is a proper prefix of `b`, or at the first position where they differ `a` has the smaller character |
| Text.Includes | src/components/DataTable.tsx:64 | a text that starts the cell is included, and an included text is no longer than the cell |
| Text.IsPrefix | src/components/DataTable.tsx:68 | `startsWith` holds iff the text is no longer than the cell and the cell begins with it, character by character |
| Text.IsSuffix | src/components/DataTable.tsx:70 | `endsWith` holds iff the text is no longer than the cell and the cell ends with it, character by character |
| Text.IntToString | src/utils/fileHandlers.ts:115 | `String(n)` of a whole number is non-empty, starts with a digit or '-', starts with '-' iff n is negative, has no whitespace at either end, and is "0" iff n is 0 |
| Text.IntToStringValue | src/utils/fileHandlers.ts:115 | after an optional '-', `String(n)` is all decimal digits, they denote the magnitude of n, and there is no leading zero |
| Text.NatToStringValue | src/utils/fileHandlers.ts:115 | the decimal digits of a natural number denote that number and have no leading zero |
| Types.ToJsString | src/utils/fileHandlers.ts:115 | `String(c)` of a string is the string itself, and the text is empty exactly for the empty string |
| Types.IsFalsy | src/utils/fileHandlers.ts:97 | a string cell is falsy iff it is empty; any other cell is falsy iff its text is "0", "false", "null" or "undefined" (the number 0, false, null, undefined) |
| Seqs.KeepIf | src/components/DataTable.tsx:55 | a value is in the result of `filter` iff it is in the input and satisfies the predicate; the result is no longer than the input |
| Ingest.Extension | src/utils/fileHandlers.ts:19 | the extension is the suffix after the last '.', holds no '.', and is the whole name when there is no '.' |
| Ingest.ValidateFile | src/utils/fileHandlers.ts:8-26 | a file is accepted iff it is present, at most `MAX_FILE_SIZE` bytes and its lower-cased extension is csv, xlsx or xls; otherwise the first failing check, in source order, names the rejection |
| Ingest.FileErrorMessage | src/utils/fileHandlers.ts:9-22 | every rejection carries a non-empty message |
| Ingest.ExtensionAfterLastDot | src/utils/fileHandlers.ts:19 | for any stem, `stem.ext` has extension `ext` when `ext` has no dot |
| Ingest.ExtensionWithoutDot | src/utils/fileHandlers.ts:19-20 | a name without a dot is judged on the whole name |
| Ingest.SizeLimitInclusive | src/utils/fileHandlers.ts:6-17 | exactly 50 MiB passes and one byte more fails with the size error; the extension check ignores case |
| Ingest.CsvHeaders | src/utils/fileHandlers.ts:43 | one trimmed header per raw header |
| Ingest.IngestErrorMessage | src/utils/fileHandlers.ts:33-108 | a parser error reports its own message; every other failure has a non-empty fixed message |
| Ingest.CsvDataRows | src/utils/fileHandlers.ts:48-50 | the kept rows are exactly the qualifying records after the header record, as an order-preserving subsequence, each as often as in the input |
| Ingest.ParseCsv | src/utils/fileHandlers.ts:31-65 | a parser error is reported iff the error callback fired or the result carries errors; a failed read always has a non-empty message; a clean result gives exactly the normalisation of its records |
| Ingest.NormalizeCsv | src/utils/fileHandlers.ts:37-60 | failures are EmptyFile, InvalidHeaders or NoValidRows; success needs two records and keeps between one row and one fewer than the records |
| Ingest.CsvParserErrorsFirst | src/utils/fileHandlers.ts:33-35 | parser errors win over every other check and report the first error's message, or the default when it is empty |
| Ingest.CsvHeadersBlank | src/utils/fileHandlers.ts:43-44 | a header is empty after trimming iff its raw header is blank |
| Ingest.CsvNoRowsKept | src/utils/fileHandlers.ts:48-54 | no row is kept iff no record after the first qualifies |
| Ingest.CsvCheckOrder | src/utils/fileHandlers.ts:38-54 | under two records gives EmptyFile; InvalidHeaders iff there are two records and a blank raw header; NoValidRows iff the headers are fine and no record qualifies |
| Ingest.CsvSuccessCanonical | src/utils/fileHandlers.ts:43-60 | a successful parse is canonical: at least one header, headers trimmed and non-empty, rows as wide as the headers, each with a non-empty cell; headers are the trimmed raw headers |
| Ingest.ExcelCellText | src/utils/fileHandlers.ts:115 | a cell becomes '' iff it is undefined, null or '' |
| Ingest.ExcelRowText | src/utils/fileHandlers.ts:114-116 | the stringified row has the same width and each cell stringified |
| Ingest.ExcelHeaders | src/utils/fileHandlers.ts:97 | one header per raw header cell |
| Ingest.ExcelHeader | src/utils/fileHandlers.ts:97 | a falsy cell gives the empty header, and no header begins or ends with whitespace |
| Ingest.ExcelDataRows | src/utils/fileHandlers.ts:103-105 | the kept rows are exactly the qualifying rows after the header row (null counts as a value), in order, each as often as in the input |
| Ingest.ParseExcel | src/utils/fileHandlers.ts:72-121 | a parser error is reported iff reading the file threw; a thrown `Error` keeps its message and any other thrown value gets a non-empty one; a workbook that was read gives exactly the workbook's outcome |
| Ingest.ParseWorkbook | src/utils/fileHandlers.ts:77-117 | success needs a first sheet that exists; whenever the first sheet exists the result is exactly the normalisation of that sheet; no failure is a parser error |
| Ingest.NormalizeExcel | src/utils/fileHandlers.ts:92-117 | failures are EmptyFile, InvalidHeaders or NoValidRows; EmptyFile iff there are fewer than two records; success needs two records, keeps the file name and at least one row |
| Ingest.ExcelHeaderEmptyIff | src/utils/fileHandlers.ts:97-98 | a header is empty iff its cell is falsy (0, false, null, undefined, '') or a whitespace-only string |
| Ingest.ExcelHeadersBlank | src/utils/fileHandlers.ts:97-98 | the header row holds an empty header iff some raw header cell maps to '' |
| Ingest.ExcelNoRowsKept | src/utils/fileHandlers.ts:103-109 | no row is kept iff no record after the first qualifies |
| Ingest.ExcelInvalidHeadersIff | src/utils/fileHandlers.ts:92-99 | the Excel import fails with InvalidHeaders iff there are at least two records and some cell of the first record maps to an empty header |
| Ingest.ExcelNoValidRowsIff | src/utils/fileHandlers.ts:92-109 | the Excel import fails with NoValidRows iff there are at least two records, every header is non-empty and no later record qualifies |
| Ingest.ExcelBlankHeaderRejected | src/utils/fileHandlers.ts:97-99 | a whitespace-only string header rejects the sheet with InvalidHeaders |
| Ingest.ExcelCheckOrder | src/utils/fileHandlers.ts:77-94 | no workbook or no sheets gives NoSheets; a missing first sheet gives FirstSheetEmpty; under two records gives EmptyFile |
| Ingest.ExcelFalsyHeaderRejected | src/utils/fileHandlers.ts:97-99 | a falsy header cell such as 0 or false rejects the sheet with InvalidHeaders |
| Ingest.ExcelSuccessShape | src/utils/fileHandlers.ts:97-117 | a successful parse has at least one trimmed, non-empty header, rectangular rows, and rows that are the stringified qualifying sheet rows in order |
| Ingest.ExcelCanonicalWithoutNulls | src/utils/fileHandlers.ts:103-116 | without null cells in the data rows, a successful parse is canonical |
| Ingest.ExcelNullRowSurvives | src/utils/fileHandlers.ts:103-116 | a row of nulls under valid headers is kept and becomes a row of '', so the result is not canonical |
| Analysis.Column | src/utils/analysis.ts:4 | one cell per row, undefined past the row's end |
| Analysis.ColumnValues | src/utils/analysis.ts:4 | the values are the column's cells other than undefined and '', as an order-preserving subsequence of the column, each as often as in the column |
| Analysis.SampleIndex | src/utils/analysis.ts:25 | the sample is the first value neither null nor undefined; every earlier value is null or undefined |
| Analysis.InferColumnType | src/utils/analysis.ts:24-29 | `number` iff the sample is a number; `date` iff the sample is not a number and `Date.parse` accepts its text; `string` otherwise, including when there is no sample |
| Analysis.InsertByText | src/utils/analysis.ts:18-19 | inserting a value adds exactly that value to the multiset |
| Analysis.SortValues | src/utils/analysis.ts:18-19 | the sorted copy is a permutation of the values |
| Analysis.SortValuesSorted | src/utils/analysis.ts:18-19 | the sorted copy is ordered by text |
| Analysis.AnalyzeColumn | src/utils/analysis.ts:3-22 | the name is the header; the type is the inferred type of the column's values; the missing count is at most the row count, and the unique and missing counts together are at most the row count |
| Analysis.CountsOfColumn | src/utils/analysis.ts:10-11 | `nullCount` counts the rows whose cell is undefined or ''; `uniqueValues` counts the distinct other values |
| Analysis.StringColumnExtrema | src/utils/analysis.ts:17-20 | for a string column with values, `min` and `max` are values of the column, `min` <= `max`, and every value lies between them in text order |
| Analysis.EmptyColumn | src/utils/analysis.ts:3-29 | a column without values is a string column with no unique values, every row missing and `min`/`max` undefined |
| Analysis.ExtremaFollowType | src/utils/analysis.ts:12-20 | numeric statistics iff `number`, no statistics iff `date`, text extremes iff `string` |
| Analysis.StringsNeverNumber | src/utils/analysis.ts:25-26 | a column of strings is never `number` |
| Analysis.StringRows | src/pages/AnalyzerPage.tsx:17 | each cell of the loaded content is the string it holds |
| Analysis.AnalyzeTable | src/pages/AnalyzerPage.tsx:16-18 | one result per header, in header order, the i-th the analysis of column i under header i |
| Analysis.LoadedColumnsNeverNumber | src/pages/AnalyzerPage.tsx:16-18 | no column of a loaded table is classified `number` |
| Analysis.AnalyzerPage.HandleFileLoad | src/pages/AnalyzerPage.tsx:14-20 | stores the table and exactly one analysis per header |
| Analysis.AnalyzerPage.constructor | src/pages/AnalyzerPage.tsx:11-12 | starts with no table and no analyses |
| TableView.NextSort | src/components/DataTable.tsx:13-22 | the next configuration is on the clicked column and ascending when that column is new |
| TableView.SortClickCycle | src/components/DataTable.tsx:13-22 | three clicks on the current column restore the configuration; three clicks on another column end unsorted |
| TableView.IndexOf | src/components/DataTable.tsx:35-36 | the first position of the column, or -1 iff it is not a header |
| TableView.CompareCells | src/components/DataTable.tsx:38-43 | the comparator returns -1, 0 or 1; 0 iff the cells are equal; an empty cell compares after a non-empty one and a non-empty one before an empty one |
| TableView.CompareCellsConsistent | src/components/DataTable.tsx:38-43 | the comparator is 0 iff the cells are equal, antisymmetric and transitive; an empty cell goes after every other cell in both directions; on distinct non-empty cells descending negates ascending, which is the string order |
| TableView.Insert | src/components/DataTable.tsx:34-44 | inserting a row adds exactly that row to the multiset |
| TableView.SortRows | src/components/DataTable.tsx:34-44 | the sorted copy is a permutation of the rows |
| TableView.InsertSorted | src/components/DataTable.tsx:34-44 | inserting into sorted rows keeps them sorted |
| TableView.SortRowsSorted | src/components/DataTable.tsx:34-44 | the sorted copy is ordered by the comparator |
| TableView.SortedMeaning | src/components/DataTable.tsx:38-43 | in the sorted copy, rows with an empty cell come last and the non-empty cells ascend (or descend) in string order |
| TableView.SortRowsStable | src/components/DataTable.tsx:34-44 | rows with the same sort cell keep their relative order |
| TableView.SortedUnchanged | src/components/DataTable.tsx:34-44 | rows already in order are left as they are |
| TableView.SortRowsIdempotent | src/components/DataTable.tsx:34-44 | sorting twice is sorting once |
| TableView.SortedView | src/components/DataTable.tsx:31-45 | the shown order is a permutation of the content |
| TableView.InsertionSort | src/components/DataTable.tsx:34-44 | the in-place sort leaves the array equal to the stable sort of its old contents |
| TableView.SortedRows | src/components/DataTable.tsx:31-45 | computes the sorted view from a fresh copy, leaving the content alone |
| TableView.ThirdClickRestores | src/components/DataTable.tsx:13-32 | three clicks on a column other than the current sort column, or on the current one while unsorted, show the content in its original order again |
| TableView.SortFilterCommute | src/components/DataTable.tsx:34-55 | filtering the sorted rows gives the sorted filtered rows |
| TableView.CellText | src/components/DataTable.tsx:57 | a cell text exists iff the column is a header and the row has a cell there |
| TableView.FilterPasses | src/components/DataTable.tsx:57-77 | an empty filter text or an unknown comparison passes every cell; `equals` with a text passes exactly the cell equal to the lower-cased text |
| TableView.RowPasses | src/components/DataTable.tsx:56 | with no filters, or only filters with empty text, every row passes |
| TableView.FilterRows | src/components/DataTable.tsx:54-80 | the kept rows are exactly those passing every filter, in order, each as often as in the input |
| TableView.EmptyFiltersKeepAll | src/components/DataTable.tsx:60 | filters with empty text keep every row |
| TableView.FilterChangeRefines | src/components/DataTable.tsx:47-56 | after setting one column's filter, the rows shown are those passing the other filters, then that one |
| TableView.FilterIgnoresCase | src/components/DataTable.tsx:58 | lower-casing a filter's text does not change what it passes |
| TableView.FilterIgnoresCellCase | src/components/DataTable.tsx:57 | lower-casing the row's cells does not change the text a filter sees |
| TableView.FilterKindsImply | src/components/DataTable.tsx:62-70 | an `equals` match passes `starts` and `ends`; a `starts` or `ends` match passes `contains` |
| TableView.TrivialFilters | src/components/DataTable.tsx:60-77 | an empty text or an unknown comparison passes every cell, and these are exactly the filters an absent cell passes |
| TableView.Window | src/components/DataTable.tsx:124-137 | the count is the number of filtered rows; the shown rows are their first min(100, count) rows |
| TableView.DisplayCell | src/components/DataTable.tsx:128 | a cell is never shown blank; a non-empty cell is shown as is |
| TableView.DataTable.constructor | src/components/DataTable.tsx:10-11 | starts unsorted with no filters |
| TableView.DataTable.HandleSort | src/components/DataTable.tsx:13-22 | the configuration becomes the next one of the click cycle; the filters are unchanged |
| TableView.DataTable.HandleFilterChange | src/components/DataTable.tsx:47-52 | the column's filter is replaced; every other filter and the sort configuration are unchanged |
| TableView.DataTable.FilterKind | src/components/DataTable.tsx:101 | the column's stored comparison when it has a non-empty one, `contains` otherwise |
| TableView.DataTable.FilterText | src/components/DataTable.tsx:114 | the column's stored filter text, '' when it has none |
| TableView.DataTable.SelectFilterKind | src/components/DataTable.tsx:100 | choosing a comparison keeps the column's filter text |
| TableView.DataTable.TypeFilterText | src/components/DataTable.tsx:115 | typing keeps the column's comparison, `contains` when none was chosen |
| TableView.DataTable.VisibleRows | src/components/DataTable.tsx:31-137 | the rendered rows and count are the window of the filtered, sorted content |

## Left out

- The parser libraries, Papa Parse and SheetJS, are not modelled. Their output is the input of `ParseCsv` and `ParseExcel`, so options such as `skipEmptyLines` and `blankrows` act before the model starts.
- `transformHeader` (fileHandlers.ts:67) is not modelled. Papa Parse only calls it when `header: true`, which is not set, so it has no effect.
- Promises, `async`, `FileReader`/`arrayBuffer`, `toast` messages and `console.error` are not modelled. Rejections and thrown errors are `Err` values carrying the message.
- `calculateAverage`, `Math.min` and `Math.max` are not modelled, because they compute floating-point values. `NumericStats` only marks that these fields are present. The branch is unreachable for loaded tables in any case.
- Types.ToJsString: Excel numbers are whole numbers within `Number.MAX_SAFE_INTEGER` (`Num(SafeInteger)`), for which `String()` writes plain decimal digits. Fractional numbers, larger magnitudes (inexact, and from 10^21 on written in exponent form), dates and their `String()` forms are not modelled.
- `Date.parse` and `Number()` are parameters: `dateParses` and `numLess`. The model does not fix which strings parse as dates or numbers.
- Text.IsSpace: `trim` removes a fixed set of whitespace characters, not the full Unicode space-separator category.
- Text.Lower: the model lower-cases ASCII letters only. JavaScript's `toLowerCase` also maps letters of other scripts (É to é), so filters on non-ASCII text can differ.
- Text.LexLess: string `<` compares code points rather than UTF-16 code units, so the two can differ on characters outside the Basic Multilingual Plane.
- TableView.DataTable.VisibleRows requires a rectangular table. With short rows the comparator can see `undefined` beside a string. `undefined` is neither `null` nor `''`, so neither early return fires, and `undefined < s` and `s < undefined` are both false. The comparator therefore returns 1 in both argument orders when ascending, and -1 in both when descending. The comparator is then inconsistent, and the order of the JavaScript sort is implementation-defined. Every table the ingestion functions produce is rectangular.
- TableView.SortedView: a sort column that is not a header is modelled as the unsorted content. In the source every comparison is then 0 and the sort is stable, so the result is the same.
- `getSortIcon`, the JSX markup, the landing page, `App.tsx`, `FileUploader.tsx` and `AnalysisPanel.tsx` are presentation code and are not modelled.
- React's state batching and re-rendering are not modelled. Each handler is a method that updates the component's fields at once.
