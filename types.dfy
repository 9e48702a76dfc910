/** The records shared by ingestion, analysis and the table view
    (src/types/index.ts), and the JavaScript values a raw cell can hold. */
module Types {
  import opened Text

  datatype Option<+T> = None | Some(value: T)

  datatype Result<+T, +E> = Ok(value: T) | Err(error: E)

  /** `Number.MAX_SAFE_INTEGER`, 2^53 - 1. */
  const MaxSafeInteger: int := 9007199254740991

  /** The whole numbers a JavaScript number holds exactly; `String(n)` writes
      each of them out in plain decimal digits. */
  type SafeInteger = n: int | -MaxSafeInteger <= n <= MaxSafeInteger

  /** A JavaScript value as a parser library can put it in a cell of a raw
      row matrix. Numbers are safe whole numbers in this model. */
  datatype Cell = Str(s: string) | Num(n: SafeInteger) | Bool(b: bool) | Null | Undefined

  /** `String(c)`. */
  function ToJsString(c: Cell): (r: string)
    ensures c.Str? ==> r == c.s
    ensures r == "" <==> c == Str("")
  {
    match c
    case Str(s) => s
    case Num(n) => IntToString(n)
    case Bool(b) => if b then "true" else "false"
    case Null => "null"
    case Undefined => "undefined"
  }

  /** JavaScript falsiness: the values `x || y` replaces by `y`. */
  predicate IsFalsy(c: Cell)
    ensures IsFalsy(c) ==> ToJsString(c) in {"", "0", "false", "null", "undefined"}
    ensures c.Str? ==> (IsFalsy(c) <==> c.s == "")
    ensures !c.Str? ==> (IsFalsy(c) <==> ToJsString(c) in {"0", "false", "null", "undefined"})
  {
    c == Str("") || c == Num(0) || c == Bool(false) || c == Null || c == Undefined
  }

  type Row = seq<string>

  /** `FileData`: the table an ingestion produces. */
  datatype FileData = FileData(fileName: string, headers: seq<string>, content: seq<Row>)

  /** Every content row is exactly as wide as the header row. */
  predicate Rectangular(d: FileData) {
    forall i :: 0 <= i < |d.content| ==> |d.content[i]| == |d.headers|
  }

  /** `row.some(cell => cell !== '')`. */
  predicate HasFilledCell(row: Row) {
    exists k :: 0 <= k < |row| && row[k] != ""
  }

  /** The canonical table: at least one header, every header trimmed and
      non-empty, rows as wide as the header row, no row made only of ''. */
  predicate Canonical(d: FileData) {
    && |d.headers| >= 1
    && (forall i :: 0 <= i < |d.headers| ==> d.headers[i] != "" && Trim(d.headers[i]) == d.headers[i])
    && Rectangular(d)
    && (forall i :: 0 <= i < |d.content| ==> HasFilledCell(d.content[i]))
  }

  /** `SortDirection`: 'asc' | 'desc' | null. */
  datatype SortDirection = Asc | Desc | Unsorted

  datatype SortConfig = SortConfig(column: string, direction: SortDirection)

  datatype ColumnType = NumberType | DateType | StringType

  /** The optional `average`/`min`/`max` fields of an analysis result:
      numeric statistics (present, values not modelled), the lexicographic
      extremes of a string column (`undefined` when the column is empty), or
      nothing at all for a date column. */
  datatype Extrema =
    | NumericStats
    | Lexical(min: Option<Cell>, max: Option<Cell>)
    | NoStats

  /** `AnalysisResult`. */
  datatype AnalysisResult = AnalysisResult(
    columnName: string,
    columnType: ColumnType,
    uniqueValues: nat,
    nullCount: nat,
    extrema: Extrema)
}
