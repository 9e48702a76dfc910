/** Ingestion (src/utils/fileHandlers.ts): the validation gate run before any
    parser, and the normalisation `parseCSV` and `parseExcel` apply to the row
    matrix their parser library produces. The libraries themselves are not
    modelled: their output is the input here. */
module Ingest {
  import opened Text
  import opened Seqs
  import opened Types

  /** `MAX_FILE_SIZE`: 50 MiB. */
  const MaxFileSize: nat := 50 * 1024 * 1024

  const AcceptedExtensions: set<string> := {"csv", "xlsx", "xls"}

  /** The part of a browser `File` that validation looks at. */
  datatype FileInfo = FileInfo(name: string, size: nat)

  datatype FileError = NoFileSelected | FileTooLarge | UnsupportedFormat

  /** The message `validateFile` toasts for each rejection. */
  function FileErrorMessage(e: FileError): (m: string)
    ensures m != ""
  {
    match e
    case NoFileSelected => "No file selected"
    case FileTooLarge => "File size exceeds 50MB limit"
    case UnsupportedFormat => "Unsupported file format. Please use CSV, XLSX, or XLS files"
  }

  /** The verdict of `validateFile`: it returns true exactly on `Accepted`. */
  datatype Validation = Accepted | Rejected(error: FileError)

  /** `name.split('.').pop()`: the text after the last '.', or the whole name
      when there is no '.'. */
  function Extension(name: string): (r: string)
    ensures '.' !in r
    ensures |r| <= |name| && r == name[|name| - |r|..]
    ensures |r| == |name| || name[|name| - |r| - 1] == '.'
  {
    if name == [] then []
    else if name[|name| - 1] == '.' then []
    else
      var init := name[..|name| - 1];
      var e := Extension(init);
      assert name[|name| - |e| - 1..] == init[|init| - |e|..] + [name[|name| - 1]];
      assert |e| < |init| ==> name[|name| - |e| - 2] == init[|init| - |e| - 1];
      e + [name[|name| - 1]]
  }

  /** `validateFile`: presence, then size, then extension; the first failing
      check decides the verdict. */
  function ValidateFile(file: Option<FileInfo>): (v: Validation)
    ensures v == Accepted <==>
      file.Some? && file.value.size <= MaxFileSize && Extension(Lower(file.value.name)) in AcceptedExtensions
    ensures file.None? ==> v == Rejected(NoFileSelected)
    ensures file.Some? && file.value.size > MaxFileSize ==> v == Rejected(FileTooLarge)
    ensures file.Some? && file.value.size <= MaxFileSize && Extension(Lower(file.value.name)) !in AcceptedExtensions
      ==> v == Rejected(UnsupportedFormat)
  {
    if file.None? then Rejected(NoFileSelected)
    else if file.value.size > MaxFileSize then Rejected(FileTooLarge)
    else if Extension(Lower(file.value.name)) !in AcceptedExtensions then Rejected(UnsupportedFormat)
    else Accepted
  }

  /** The extension is whatever follows the last dot, however many dots the
      name has before it. */
  lemma {:induction false} ExtensionAfterLastDot(stem: string, ext: string)
    requires '.' !in ext
    ensures Extension(stem + "." + ext) == ext
  {
    var name := stem + "." + ext;
    if ext != [] {
      var init := ext[..|ext| - 1];
      assert name[..|name| - 1] == stem + "." + init;
      assert name[|name| - 1] == ext[|ext| - 1];
      ExtensionAfterLastDot(stem, init);
      assert init + [ext[|ext| - 1]] == ext;
    }
  }

  /** A name without a dot is judged on the whole name. */
  lemma ExtensionWithoutDot(name: string)
    requires '.' !in name
    ensures Extension(name) == name
  {
  }

  /** The size test is a strict `>`: a file of exactly 50 MiB passes, one byte
      more fails; the extension is compared after lower-casing. */
  lemma SizeLimitInclusive()
    ensures ValidateFile(Some(FileInfo("DATA.CSV", 52428800))) == Accepted
    ensures ValidateFile(Some(FileInfo("DATA.CSV", 52428801))) == Rejected(FileTooLarge)
  {
    assert Lower("DATA.CSV") == "data" + "." + "csv";
    ExtensionAfterLastDot("data", "csv");
  }

  /** Why an ingestion failed; `IngestErrorMessage` gives the thrown text. */
  datatype IngestError =
    | ParserError(message: string)
    | EmptyFile
    | InvalidHeaders
    | NoValidRows
    | NoSheets
    | FirstSheetEmpty

  function IngestErrorMessage(e: IngestError): (m: string)
    ensures e.ParserError? ==> m == e.message
    ensures !e.ParserError? ==> m != ""
  {
    match e
    case ParserError(m) => m
    case EmptyFile => "File is empty or has no data rows"
    case InvalidHeaders => "Invalid or empty column headers detected"
    case NoValidRows => "No valid data rows found"
    case NoSheets => "No sheets found in the workbook"
    case FirstSheetEmpty => "First sheet is empty"
  }

  // ---------------------------------------------------------------- CSV

  /** What Papa.parse hands back: the `complete` callback's errors and row
      matrix, or the `error` callback's message. */
  datatype CsvOutcome =
    | Complete(errors: seq<string>, data: seq<seq<string>>)
    | ReadFailure(message: string)

  /** `data[0].map(header => header?.trim() || '')`. */
  function CsvHeaders(raw: seq<string>): (r: seq<string>)
    ensures |r| == |raw|
  {
    seq(|raw|, i requires 0 <= i < |raw| => Trim(raw[i]))
  }

  /** A data row is kept when it is as wide as the header row and has a cell
      other than ''. */
  predicate CsvRowQualifies(row: seq<string>, width: nat) {
    |row| == width && HasFilledCell(row)
  }

  /** The data rows `parseCSV` keeps: exactly the qualifying records after
      the header record, in their original order, each as often as in the
      input. */
  function CsvDataRows(data: seq<seq<string>>, width: nat): (r: seq<seq<string>>)
    requires |data| >= 1
    ensures forall row :: row in r <==> row in data[1..] && CsvRowQualifies(row, width)
    ensures IsSubsequence(r, data[1..])
    ensures forall row :: multiset(r)[row] == if CsvRowQualifies(row, width) then multiset(data[1..])[row] else 0
  {
    var q := (row: seq<string>) => CsvRowQualifies(row, width);
    KeepIfSubsequence(data[1..], q);
    KeepIfMultiplicity(data[1..], q);
    KeepIf(data[1..], q)
  }

  /** `parseCSV` from the parser's result on: parser errors first, then the
      normalisation. */
  function ParseCsv(fileName: string, outcome: CsvOutcome): (r: Result<FileData, IngestError>)
    ensures r.Err? && r.error.ParserError? <==> outcome.ReadFailure? || |outcome.errors| > 0
    ensures outcome.ReadFailure? ==> r.Err? && r.error.message != ""
    ensures r.Ok? ==> outcome.Complete? && outcome.errors == [] && r.value.fileName == fileName
    ensures outcome.Complete? && outcome.errors == [] ==> r == NormalizeCsv(fileName, outcome.data)
  {
    match outcome
    case ReadFailure(m) => Err(ParserError(if m != "" then m else "Failed to parse CSV file"))
    case Complete(errors, data) =>
      if |errors| > 0 then Err(ParserError(if errors[0] != "" then errors[0] else "Error parsing CSV file"))
      else NormalizeCsv(fileName, data)
  }

  /** The normalisation in `parseCSV`: at least two records, then headers,
      then rows. */
  function NormalizeCsv(fileName: string, data: seq<seq<string>>): (r: Result<FileData, IngestError>)
    ensures r.Err? ==> r.error in {EmptyFile, InvalidHeaders, NoValidRows}
    ensures r.Ok? ==> |data| >= 2 && r.value.fileName == fileName && 1 <= |r.value.content| < |data|
  {
    if |data| < 2 then Err(EmptyFile)
    else
      var headers := CsvHeaders(data[0]);
      if exists i :: 0 <= i < |headers| && headers[i] == "" then Err(InvalidHeaders)
      else
        var content := CsvDataRows(data, |headers|);
        if |content| == 0 then Err(NoValidRows)
        else Ok(FileData(fileName, headers, content))
  }

  /** Parser errors win over everything else and report the first message
      (or a default when it is empty). */
  lemma CsvParserErrorsFirst(fileName: string, errors: seq<string>, data: seq<seq<string>>)
    requires |errors| > 0
    ensures ParseCsv(fileName, Complete(errors, data)).Err?
    ensures IngestErrorMessage(ParseCsv(fileName, Complete(errors, data)).error)
      == if errors[0] != "" then errors[0] else "Error parsing CSV file"
  {
  }

  /** A trimmed header is empty exactly when the raw header is blank. */
  lemma CsvHeadersBlank(raw: seq<string>)
    ensures (exists i :: 0 <= i < |CsvHeaders(raw)| && CsvHeaders(raw)[i] == "")
      <==> exists i :: 0 <= i < |raw| && Trim(raw[i]) == ""
  {
    if exists i :: 0 <= i < |raw| && Trim(raw[i]) == "" {
      var i :| 0 <= i < |raw| && Trim(raw[i]) == "";
      assert CsvHeaders(raw)[i] == "";
    }
  }

  /** No data row is kept exactly when no record after the first qualifies. */
  lemma CsvNoRowsKept(data: seq<seq<string>>, width: nat)
    requires |data| >= 1
    ensures CsvDataRows(data, width) == [] <==> forall j :: 1 <= j < |data| ==> !CsvRowQualifies(data[j], width)
  {
    var kept := CsvDataRows(data, width);
    if kept == [] {
      forall j | 1 <= j < |data| ensures !CsvRowQualifies(data[j], width) {
        assert data[j] == data[1..][j - 1];
      }
    } else {
      assert kept[0] in kept;
      var j :| 0 <= j < |data[1..]| && data[1..][j] == kept[0];
      assert data[j + 1] == kept[0];
    }
  }

  /** The outcome of `parseCSV` is decided by its checks in source order:
      the record count before the headers, the headers before the rows. */
  lemma CsvCheckOrder(fileName: string, data: seq<seq<string>>)
    ensures |data| < 2 ==> NormalizeCsv(fileName, data) == Err(EmptyFile)
    ensures NormalizeCsv(fileName, data) == Err(InvalidHeaders) <==>
      |data| >= 2 && exists i :: 0 <= i < |data[0]| && Trim(data[0][i]) == ""
    ensures NormalizeCsv(fileName, data) == Err(NoValidRows) <==>
      && |data| >= 2
      && (forall i :: 0 <= i < |data[0]| ==> Trim(data[0][i]) != "")
      && (forall j :: 1 <= j < |data| ==> !CsvRowQualifies(data[j], |data[0]|))
  {
    if |data| >= 2 {
      CsvHeadersBlank(data[0]);
      CsvNoRowsKept(data, |data[0]|);
    }
  }

  /** The table a successful `parseCSV` resolves with. */
  lemma CsvSuccessValue(fileName: string, data: seq<seq<string>>)
    requires NormalizeCsv(fileName, data).Ok?
    ensures |data| >= 2
    ensures NormalizeCsv(fileName, data).value
      == FileData(fileName, CsvHeaders(data[0]), CsvDataRows(data, |data[0]|))
    ensures forall i :: 0 <= i < |data[0]| ==> CsvHeaders(data[0])[i] != ""
    ensures CsvDataRows(data, |data[0]|) != []
  {
  }

  /** Trimmed, non-empty headers over a non-empty list of qualifying rows
      make a canonical table. */
  lemma CsvTableCanonical(fileName: string, raw: seq<string>, content: seq<seq<string>>)
    requires forall i :: 0 <= i < |raw| ==> CsvHeaders(raw)[i] != ""
    requires content != []
    requires forall row :: row in content ==> CsvRowQualifies(row, |raw|)
    ensures Canonical(FileData(fileName, CsvHeaders(raw), content))
  {
    var headers := CsvHeaders(raw);
    forall i | 0 <= i < |headers| ensures Trim(headers[i]) == headers[i] {
      TrimIdempotent(raw[i]);
    }
    forall i | 0 <= i < |content| ensures CsvRowQualifies(content[i], |headers|) {
      assert content[i] in content;
    }
    assert CsvRowQualifies(content[0], |headers|);
  }

  /** A successful `parseCSV` yields the canonical table: its headers are the
      trimmed raw headers (so at least one, all non-empty and trimmed) and
      every row is as wide as the header row with a non-empty cell. */
  lemma CsvSuccessCanonical(fileName: string, data: seq<seq<string>>)
    requires NormalizeCsv(fileName, data).Ok?
    ensures Canonical(NormalizeCsv(fileName, data).value)
    ensures NormalizeCsv(fileName, data).value.fileName == fileName
    ensures |NormalizeCsv(fileName, data).value.headers| == |data[0]|
    ensures forall i :: 0 <= i < |data[0]| ==> NormalizeCsv(fileName, data).value.headers[i] == Trim(data[0][i])
  {
    CsvSuccessValue(fileName, data);
    CsvTableCanonical(fileName, data[0], CsvDataRows(data, |data[0]|));
  }

  // ---------------------------------------------------------------- Excel

  /** The workbook as `XLSX.read` returns it, each sheet given by the row
      matrix `sheet_to_json(sheet, {header: 1, defval: ''})` makes of it. */
  datatype Workbook = Workbook(sheetNames: seq<string>, sheets: map<string, seq<seq<Cell>>>)

  /** `String(header || '').trim()`. */
  function ExcelHeader(c: Cell): (h: string)
    ensures h == [] || (!IsSpace(h[0]) && !IsSpace(h[|h| - 1]))
    ensures IsFalsy(c) ==> h == ""
  {
    var text := if IsFalsy(c) then "" else ToJsString(c);
    assert IsFalsy(c) ==> Trim(text) == "" by {
      assert |Trim(text)| <= |text|;
    }
    Trim(text)
  }

  /** `(cell === undefined || cell === null) ? '' : String(cell)`: the text
      is empty exactly for undefined, null and ''. */
  function ExcelCellText(c: Cell): (r: string)
    ensures r == "" <==> c == Undefined || c == Null || c == Str("")
  {
    if c == Undefined || c == Null then "" else ToJsString(c)
  }

  function ExcelRowText(row: seq<Cell>): (r: Row)
    ensures |r| == |row|
    ensures forall k :: 0 <= k < |row| ==> r[k] == ExcelCellText(row[k])
  {
    seq(|row|, k requires 0 <= k < |row| => ExcelCellText(row[k]))
  }

  /** A sheet row is kept when it is as wide as the header row and has a cell
      that is neither undefined nor '' (null counts as a value here). */
  predicate ExcelRowQualifies(row: seq<Cell>, width: nat) {
    |row| == width && exists k :: 0 <= k < |row| && row[k] != Undefined && row[k] != Str("")
  }

  function ExcelHeaders(raw: seq<Cell>): (r: seq<string>)
    ensures |r| == |raw|
  {
    seq(|raw|, i requires 0 <= i < |raw| => ExcelHeader(raw[i]))
  }

  /** The sheet rows `parseExcel` keeps, before stringification: exactly the
      qualifying records after the header record, in their original order,
      each as often as in the input. */
  function ExcelDataRows(data: seq<seq<Cell>>, width: nat): (r: seq<seq<Cell>>)
    requires |data| >= 1
    ensures |r| < |data|
    ensures forall row :: row in r <==> row in data[1..] && ExcelRowQualifies(row, width)
    ensures IsSubsequence(r, data[1..])
    ensures forall row :: multiset(r)[row] == if ExcelRowQualifies(row, width) then multiset(data[1..])[row] else 0
  {
    var q := (row: seq<Cell>) => ExcelRowQualifies(row, width);
    KeepIfSubsequence(data[1..], q);
    KeepIfMultiplicity(data[1..], q);
    KeepIf(data[1..], q)
  }

  /** How reading the file ended: `XLSX.read` returned a workbook (or
      nothing), or reading threw. A thrown `Error` carries its message; any
      other thrown value carries none. */
  datatype ExcelRead =
    | Loaded(workbook: Option<Workbook>)
    | ReadThrew(message: Option<string>)

  /** `parseExcel`: a throw while reading is reported with the thrown
      message, or a fixed one when the thrown value is not an `Error`; a
      workbook goes on to `ParseWorkbook`. */
  function ParseExcel(fileName: string, read: ExcelRead): (r: Result<FileData, IngestError>)
    ensures r.Err? && r.error.ParserError? <==> read.ReadThrew?
    ensures read.ReadThrew? && read.message.Some? ==> r.Err? && IngestErrorMessage(r.error) == read.message.value
    ensures read.ReadThrew? && read.message.None? ==> r.Err? && IngestErrorMessage(r.error) != ""
    ensures read.Loaded? ==> r == ParseWorkbook(fileName, read.workbook)
  {
    match read
    case ReadThrew(m) => Err(ParserError(if m.Some? then m.value else "Failed to parse Excel file"))
    case Loaded(workbook) => ParseWorkbook(fileName, workbook)
  }

  /** `parseExcel` after the workbook has been read. */
  function ParseWorkbook(fileName: string, workbook: Option<Workbook>): (r: Result<FileData, IngestError>)
    ensures r.Err? ==> !r.error.ParserError?
    ensures r.Ok? ==>
      && workbook.Some? && |workbook.value.sheetNames| > 0 && workbook.value.sheetNames[0] in workbook.value.sheets
      && r == NormalizeExcel(fileName, workbook.value.sheets[workbook.value.sheetNames[0]])
    ensures workbook.Some? && |workbook.value.sheetNames| > 0 && workbook.value.sheetNames[0] in workbook.value.sheets
      ==> r == NormalizeExcel(fileName, workbook.value.sheets[workbook.value.sheetNames[0]])
  {
    if workbook.None? || |workbook.value.sheetNames| == 0 then Err(NoSheets)
    else if workbook.value.sheetNames[0] !in workbook.value.sheets then Err(FirstSheetEmpty)
    else NormalizeExcel(fileName, workbook.value.sheets[workbook.value.sheetNames[0]])
  }

  /** The normalisation in `parseExcel`: at least two records, then headers,
      then rows, then every kept cell turned into a string. */
  function NormalizeExcel(fileName: string, data: seq<seq<Cell>>): (r: Result<FileData, IngestError>)
    ensures r.Err? ==> r.error in {EmptyFile, InvalidHeaders, NoValidRows}
    ensures r == Err(EmptyFile) <==> |data| < 2
    ensures r.Ok? ==> |data| >= 2 && r.value.fileName == fileName && 1 <= |r.value.content| < |data|
  {
    if |data| < 2 then Err(EmptyFile)
    else
      var headers := ExcelHeaders(data[0]);
      if exists i :: 0 <= i < |headers| && headers[i] == "" then Err(InvalidHeaders)
      else
        var kept := ExcelDataRows(data, |headers|);
        if |kept| == 0 then Err(NoValidRows)
        else Ok(FileData(fileName, headers, seq(|kept|, j requires 0 <= j < |kept| => ExcelRowText(kept[j]))))
  }

  /** A header cell becomes '' exactly when it is falsy (including the number
      0 and `false`) or a string of whitespace. */
  lemma ExcelHeaderEmptyIff(c: Cell)
    ensures ExcelHeader(c) == "" <==>
      IsFalsy(c) || (c.Str? && forall k :: 0 <= k < |c.s| ==> IsSpace(c.s[k]))
  {
    var text := if IsFalsy(c) then "" else ToJsString(c);
    assert ExcelHeader(c) == Trim(text);
    if !c.Str? && !IsFalsy(c) {
      TextOfTruthyNonString(c);
    }
  }

  /** A truthy cell that is not a string has text that starts with a
      character other than whitespace. */
  lemma TextOfTruthyNonString(c: Cell)
    requires !c.Str? && !IsFalsy(c)
    ensures ToJsString(c) != [] && !IsSpace(ToJsString(c)[0])
  {
    if c.Num? {
      assert ToJsString(c) == IntToString(c.n);
    } else {
      assert c == Bool(true);
      assert ToJsString(c) == "true";
    }
  }

  /** A header cell becomes '' exactly when its trimmed `String(header || '')`
      is empty: the header row is rejected iff some cell is so. */
  lemma ExcelHeadersBlank(raw: seq<Cell>)
    ensures (exists i :: 0 <= i < |ExcelHeaders(raw)| && ExcelHeaders(raw)[i] == "")
      <==> exists i :: 0 <= i < |raw| && ExcelHeader(raw[i]) == ""
  {
    if exists i :: 0 <= i < |raw| && ExcelHeader(raw[i]) == "" {
      var i :| 0 <= i < |raw| && ExcelHeader(raw[i]) == "";
      assert ExcelHeaders(raw)[i] == "";
    }
  }

  /** No sheet row is kept exactly when no record after the first qualifies. */
  lemma ExcelNoRowsKept(data: seq<seq<Cell>>, width: nat)
    requires |data| >= 1
    ensures ExcelDataRows(data, width) == [] <==> forall j :: 1 <= j < |data| ==> !ExcelRowQualifies(data[j], width)
  {
    var kept := ExcelDataRows(data, width);
    if kept == [] {
      forall j | 1 <= j < |data| ensures !ExcelRowQualifies(data[j], width) {
        assert data[j] == data[1..][j - 1];
      }
    } else {
      assert kept[0] in kept;
      var j :| 0 <= j < |data[1..]| && data[1..][j] == kept[0];
      assert data[j + 1] == kept[0];
    }
  }

  /** The Excel normalisation fails with InvalidHeaders exactly when there
      are two records and some header cell maps to ''. */
  lemma ExcelInvalidHeadersIff(fileName: string, data: seq<seq<Cell>>)
    ensures NormalizeExcel(fileName, data) == Err(InvalidHeaders) <==>
      |data| >= 2 && exists i :: 0 <= i < |data[0]| && ExcelHeader(data[0][i]) == ""
  {
    if |data| >= 2 {
      ExcelHeadersBlank(data[0]);
    }
  }

  /** The Excel normalisation fails with NoValidRows exactly when there are
      two records, every header is non-empty and no record qualifies. */
  lemma ExcelNoValidRowsIff(fileName: string, data: seq<seq<Cell>>)
    ensures NormalizeExcel(fileName, data) == Err(NoValidRows) <==>
      && |data| >= 2
      && (forall i :: 0 <= i < |data[0]| ==> ExcelHeader(data[0][i]) != "")
      && (forall j :: 1 <= j < |data| ==> !ExcelRowQualifies(data[j], |data[0]|))
  {
    if |data| >= 2 {
      var r := NormalizeExcel(fileName, data);
      var headers := ExcelHeaders(data[0]);
      var blank := exists i :: 0 <= i < |headers| && headers[i] == "";
      ExcelHeadersBlank(data[0]);
      assert blank <==> !(forall i :: 0 <= i < |data[0]| ==> ExcelHeader(data[0][i]) != "");
      if blank {
        assert r == Err(InvalidHeaders);
      } else {
        var kept := ExcelDataRows(data, |headers|);
        ExcelNoRowsKept(data, |headers|);
        assert r == Err(NoValidRows) <==> kept == [];
      }
    }
  }

  /** A header made only of whitespace, such as "  ", rejects the sheet
      although it is not falsy. */
  lemma ExcelBlankHeaderRejected(fileName: string, data: seq<seq<Cell>>, i: nat)
    requires |data| >= 2 && i < |data[0]| && data[0][i].Str?
    requires forall k :: 0 <= k < |data[0][i].s| ==> IsSpace(data[0][i].s[k])
    ensures NormalizeExcel(fileName, data) == Err(InvalidHeaders)
  {
    ExcelHeaderEmptyIff(data[0][i]);
    ExcelInvalidHeadersIff(fileName, data);
  }

  /** Workbook-level failures come first, in source order; a first sheet with
      fewer than two records fails with EmptyFile whatever its header row. */
  lemma ExcelCheckOrder(fileName: string, workbook: Option<Workbook>)
    ensures workbook.None? || |workbook.value.sheetNames| == 0 ==> ParseWorkbook(fileName, workbook) == Err(NoSheets)
    ensures workbook.Some? && |workbook.value.sheetNames| > 0 && workbook.value.sheetNames[0] !in workbook.value.sheets
      ==> ParseWorkbook(fileName, workbook) == Err(FirstSheetEmpty)
    ensures workbook.Some? && |workbook.value.sheetNames| > 0 && workbook.value.sheetNames[0] in workbook.value.sheets
      && |workbook.value.sheets[workbook.value.sheetNames[0]]| < 2
      ==> ParseWorkbook(fileName, workbook) == Err(EmptyFile)
  {
  }

  /** A falsy header such as 0, false, null or '' rejects the sheet. */
  lemma ExcelFalsyHeaderRejected(fileName: string, data: seq<seq<Cell>>, i: nat)
    requires |data| >= 2 && i < |data[0]| && IsFalsy(data[0][i])
    ensures NormalizeExcel(fileName, data) == Err(InvalidHeaders)
  {
    ExcelHeaderEmptyIff(data[0][i]);
    assert ExcelHeaders(data[0])[i] == "";
  }

  /** A successful `parseExcel`: at least one header, every header trimmed and
      non-empty, every row as wide as the header row; the rows are the
      stringified qualifying sheet rows, in their original order, none
      dropped. */
  lemma ExcelSuccessShape(fileName: string, data: seq<seq<Cell>>)
    requires NormalizeExcel(fileName, data).Ok?
    ensures var d := NormalizeExcel(fileName, data).value;
      && d.fileName == fileName
      && |d.headers| == |data[0]| >= 1
      && (forall i :: 0 <= i < |d.headers| ==> d.headers[i] == ExcelHeader(data[0][i]))
      && (forall i :: 0 <= i < |d.headers| ==> d.headers[i] != "" && Trim(d.headers[i]) == d.headers[i])
      && Rectangular(d)
    ensures var kept := ExcelDataRows(data, |data[0]|);
      && IsSubsequence(kept, data[1..])
      && (forall row :: multiset(kept)[row] == if ExcelRowQualifies(row, |data[0]|) then multiset(data[1..])[row] else 0)
      && |NormalizeExcel(fileName, data).value.content| == |kept|
      && (forall j :: 0 <= j < |kept| ==> NormalizeExcel(fileName, data).value.content[j] == ExcelRowText(kept[j]))
  {
    var d := NormalizeExcel(fileName, data).value;
    var kept := ExcelDataRows(data, |data[0]|);
    forall i | 0 <= i < |d.headers| ensures Trim(d.headers[i]) == d.headers[i] {
      TrimIdempotent(if IsFalsy(data[0][i]) then "" else ToJsString(data[0][i]));
    }
    forall j | 0 <= j < |kept| ensures ExcelRowQualifies(kept[j], |data[0]|) {
      assert kept[j] in kept;
    }
    assert ExcelRowQualifies(kept[0], |data[0]|);
  }

  /** When the sheet holds no null cell, a successful `parseExcel` yields the
      canonical table: no row is made only of ''. */
  lemma ExcelCanonicalWithoutNulls(fileName: string, data: seq<seq<Cell>>)
    requires NormalizeExcel(fileName, data).Ok?
    requires forall j, k :: 1 <= j < |data| && 0 <= k < |data[j]| ==> data[j][k] != Null
    ensures Canonical(NormalizeExcel(fileName, data).value)
  {
    var d := NormalizeExcel(fileName, data).value;
    var kept := ExcelDataRows(data, |data[0]|);
    ExcelSuccessShape(fileName, data);
    forall j | 0 <= j < |d.content| ensures HasFilledCell(d.content[j]) {
      assert kept[j] in kept;
      var m :| 0 <= m < |data[1..]| && data[1..][m] == kept[j];
      assert ExcelRowQualifies(data[m + 1], |data[0]|);
      var k :| 0 <= k < |data[m + 1]| && data[m + 1][k] != Undefined && data[m + 1][k] != Str("");
      assert data[m + 1][k] != Null;
      assert d.content[j][k] == ExcelCellText(kept[j][k]);
    }
  }

  /** A sheet row holding only null passes the row filter (null is neither
      undefined nor '') and is then stringified to a row of '': whenever such
      a row sits under a valid header row, `parseExcel` succeeds with a table
      that is not canonical. */
  lemma ExcelNullRowSurvives(fileName: string, data: seq<seq<Cell>>, j: nat)
    requires |data| >= 2 && |data[0]| >= 1
    requires forall i :: 0 <= i < |data[0]| ==> ExcelHeader(data[0][i]) != ""
    requires 1 <= j < |data| && |data[j]| == |data[0]|
    requires forall k :: 0 <= k < |data[j]| ==> data[j][k] == Null
    ensures NormalizeExcel(fileName, data).Ok?
    ensures !Canonical(NormalizeExcel(fileName, data).value)
  {
    var headers := ExcelHeaders(data[0]);
    assert !exists i :: 0 <= i < |headers| && headers[i] == "";
    assert data[j][0] != Undefined && data[j][0] != Str("");
    assert ExcelRowQualifies(data[j], |headers|);
    var kept := ExcelDataRows(data, |headers|);
    assert data[j] == data[1..][j - 1];
    assert data[j] in kept;
    var m :| 0 <= m < |kept| && kept[m] == data[j];
    var d := NormalizeExcel(fileName, data).value;
    assert d.content[m] == ExcelRowText(data[j]);
    assert !HasFilledCell(d.content[m]);
  }
}
