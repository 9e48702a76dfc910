/** Column analysis (src/utils/analysis.ts): `analyzeColumn` with its type
    inference, and the per-header mapping the analyzer page applies to a
    loaded table. `Date.parse` is a parameter: `dateParses(s)` stands for
    `!isNaN(Date.parse(s))`. */
module Analysis {
  import opened Text
  import opened Seqs
  import opened Types

  /** `row[columnIndex]`: undefined past the end of the row. */
  function CellAt(row: seq<Cell>, i: nat): Cell {
    if i < |row| then row[i] else Undefined
  }

  /** `data.map(row => row[columnIndex])`. */
  function Column(data: seq<seq<Cell>>, i: nat): (r: seq<Cell>)
    ensures |r| == |data|
    ensures forall k :: 0 <= k < |data| ==> r[k] == CellAt(data[k], i)
  {
    seq(|data|, k requires 0 <= k < |data| => CellAt(data[k], i))
  }

  /** The filter `val !== undefined && val !== ''`. */
  predicate IsPresent(c: Cell) {
    c != Undefined && c != Str("")
  }

  /** A cell `nullCount` counts: undefined or ''. */
  predicate IsMissing(c: Cell) {
    c == Undefined || c == Str("")
  }

  /** The column's values: its cells other than undefined and '', in row order. */
  function ColumnValues(data: seq<seq<Cell>>, i: nat): (r: seq<Cell>)
    ensures |r| <= |data|
    ensures forall v :: v in r <==> v in Column(data, i) && IsPresent(v)
    ensures IsSubsequence(r, Column(data, i))
    ensures forall v :: multiset(r)[v] == if IsPresent(v) then multiset(Column(data, i))[v] else 0
  {
    KeepIfSubsequence(Column(data, i), IsPresent);
    KeepIfMultiplicity(Column(data, i), IsPresent);
    KeepIf(Column(data, i), IsPresent)
  }

  /** The index `find(v => v !== null && v !== undefined)` stops at: the first
      value that is neither null nor undefined, or `|values|` when there is
      none. */
  function SampleIndex(values: seq<Cell>): (k: nat)
    ensures k <= |values|
    ensures forall j :: 0 <= j < k ==> values[j] == Null || values[j] == Undefined
    ensures k < |values| ==> values[k] != Null && values[k] != Undefined
  {
    if values == [] then 0
    else if values[0] != Null && values[0] != Undefined then 0
    else 1 + SampleIndex(values[1..])
  }

  /** The sample `inferColumnType` classifies by. */
  function FirstSample(values: seq<Cell>): Option<Cell> {
    var k := SampleIndex(values);
    if k < |values| then Some(values[k]) else None
  }

  /** `inferColumnType`: `number` when the sample is a number, else `date`
      when `Date.parse` accepts it, else `string`; with no sample,
      `Date.parse(undefined)` is NaN and the column is `string`. */
  function InferColumnType(values: seq<Cell>, dateParses: string -> bool): (t: ColumnType)
    ensures t == NumberType <==> FirstSample(values).Some? && FirstSample(values).value.Num?
    ensures t == DateType <==>
      FirstSample(values).Some? && !FirstSample(values).value.Num? && dateParses(ToJsString(FirstSample(values).value))
  {
    match FirstSample(values)
    case None => StringType
    case Some(v) =>
      if v.Num? then NumberType
      else if dateParses(ToJsString(v)) then DateType
      else StringType
  }

  /** `String(a) <= String(b)`: the order `values.sort()` compares by. */
  predicate TextLeq(a: Cell, b: Cell) {
    LexLeq(ToJsString(a), ToJsString(b))
  }

  lemma TextLeqTransitive(a: Cell, b: Cell, c: Cell)
    requires TextLeq(a, b) && TextLeq(b, c)
    ensures TextLeq(a, c)
  {
    LexLeqTransitive(ToJsString(a), ToJsString(b), ToJsString(c));
  }

  lemma TextLeqTotal(a: Cell, b: Cell)
    ensures TextLeq(a, b) || TextLeq(b, a)
  {
    LexLeqTotal(ToJsString(a), ToJsString(b));
  }

  /** Ordered by text, from the first value to the last. */
  predicate SortedByText(s: seq<Cell>) {
    forall i, j :: 0 <= i < j < |s| ==> TextLeq(s[i], s[j])
  }

  /** Places `x` before the first element whose text is not smaller, so that
      values of equal text keep their order. */
  function InsertByText(x: Cell, s: seq<Cell>): (r: seq<Cell>)
    ensures multiset(r) == multiset(s) + multiset{x}
  {
    if s == [] then [x]
    else if TextLeq(x, s[0]) then
      assert multiset([x] + s) == multiset{x} + multiset(s);
      [x] + s
    else
      var rest := InsertByText(x, s[1..]);
      assert s == [s[0]] + s[1..];
      assert multiset([s[0]] + rest) == multiset{s[0]} + multiset(rest);
      [s[0]] + rest
  }

  /** `values.sort()` on a copy: a stable sort by text. */
  function SortValues(values: seq<Cell>): (r: seq<Cell>)
    ensures multiset(r) == multiset(values)
  {
    if values == [] then []
    else
      assert values == [values[0]] + values[1..];
      InsertByText(values[0], SortValues(values[1..]))
  }

  /** A value no greater than every element of a sorted sequence may head it. */
  lemma SortedCons(a: Cell, s: seq<Cell>)
    requires SortedByText(s)
    requires forall e :: e in s ==> TextLeq(a, e)
    ensures SortedByText([a] + s)
  {
    var r := [a] + s;
    forall i, j | 0 <= i < j < |r| ensures TextLeq(r[i], r[j]) {
      assert r[j] == s[j - 1];
      if i > 0 {
        assert r[i] == s[i - 1];
      }
    }
  }

  lemma {:induction false} InsertByTextSorted(x: Cell, s: seq<Cell>)
    requires SortedByText(s)
    ensures SortedByText(InsertByText(x, s))
  {
    if s == [] {
    } else if TextLeq(x, s[0]) {
      forall e | e in s ensures TextLeq(x, e) {
        var j :| 0 <= j < |s| && s[j] == e;
        if j > 0 {
          TextLeqTransitive(x, s[0], e);
        }
      }
      SortedCons(x, s);
    } else {
      TextLeqTotal(x, s[0]);
      InsertByTextSorted(x, s[1..]);
      var rest := InsertByText(x, s[1..]);
      forall e | e in rest ensures TextLeq(s[0], e) {
        assert e in multiset(rest);
        if e != x {
          assert e in multiset(s[1..]);
          var j :| 0 <= j < |s[1..]| && s[1..][j] == e;
          assert s[j + 1] == e;
        }
      }
      SortedCons(s[0], rest);
    }
  }

  /** The sorted copy is ordered by text. */
  lemma {:induction false} SortValuesSorted(values: seq<Cell>)
    ensures SortedByText(SortValues(values))
  {
    if values != [] {
      SortValuesSorted(values[1..]);
      InsertByTextSorted(values[0], SortValues(values[1..]));
    }
  }

  /** The first and last elements of a non-empty sequence sorted by text
      bound each of its values. */
  lemma SortedEnds(s: seq<Cell>)
    requires SortedByText(s) && s != []
    ensures forall v :: v in s ==> TextLeq(s[0], v) && TextLeq(v, s[|s| - 1])
  {
    forall v | v in s ensures TextLeq(s[0], v) && TextLeq(v, s[|s| - 1]) {
      var k :| 0 <= k < |s| && s[k] == v;
      if 0 < k {
        assert TextLeq(s[0], s[k]);
      }
      if k < |s| - 1 {
        assert TextLeq(s[k], s[|s| - 1]);
      }
    }
  }

  /** `analyzeColumn(data, columnIndex, header)`. */
  function AnalyzeColumn(data: seq<seq<Cell>>, columnIndex: nat, header: string, dateParses: string -> bool): (r: AnalysisResult)
    ensures r.columnName == header
    ensures r.columnType == InferColumnType(ColumnValues(data, columnIndex), dateParses)
    ensures r.nullCount <= |data|
    ensures r.uniqueValues + r.nullCount <= |data|
  {
    var values := ColumnValues(data, columnIndex);
    var columnType := InferColumnType(values, dateParses);
    var sorted := SortValues(values);
    DistinctAtMostLength(values);
    AnalysisResult(
      header,
      columnType,
      |set v | v in values|,
      |data| - |values|,
      match columnType
      case NumberType => NumericStats
      case StringType =>
        if sorted == [] then Lexical(None, None)
        else Lexical(Some(sorted[0]), Some(sorted[|sorted| - 1]))
      case DateType => NoStats)
  }

  /** `nullCount` is the number of rows whose cell is undefined or '' (a row
      too short for the column counts as undefined); `uniqueValues` is the
      number of distinct remaining values. */
  lemma CountsOfColumn(data: seq<seq<Cell>>, columnIndex: nat, header: string, dateParses: string -> bool)
    ensures AnalyzeColumn(data, columnIndex, header, dateParses).nullCount == Count(Column(data, columnIndex), IsMissing)
    ensures AnalyzeColumn(data, columnIndex, header, dateParses).uniqueValues
      == |set v | v in Column(data, columnIndex) && IsPresent(v)|
  {
    var values := ColumnValues(data, columnIndex);
    KeepIfCount(Column(data, columnIndex), IsPresent, IsMissing);
    assert (set v | v in values) == (set v | v in Column(data, columnIndex) && IsPresent(v));
  }

  /** For a `string` column with values, `min` and `max` are values of the
      column and every value lies between them in text order. */
  lemma StringColumnExtrema(data: seq<seq<Cell>>, columnIndex: nat, header: string, dateParses: string -> bool)
    requires AnalyzeColumn(data, columnIndex, header, dateParses).columnType == StringType
    requires ColumnValues(data, columnIndex) != []
    ensures var r := AnalyzeColumn(data, columnIndex, header, dateParses);
      && r.extrema.Lexical? && r.extrema.min.Some? && r.extrema.max.Some?
      && r.extrema.min.value in ColumnValues(data, columnIndex)
      && r.extrema.max.value in ColumnValues(data, columnIndex)
      && TextLeq(r.extrema.min.value, r.extrema.max.value)
      && forall v :: v in ColumnValues(data, columnIndex) ==>
           TextLeq(r.extrema.min.value, v) && TextLeq(v, r.extrema.max.value)
  {
    var values := ColumnValues(data, columnIndex);
    var sorted := SortValues(values);
    assert |sorted| == |values| by {
      assert |multiset(sorted)| == |multiset(values)|;
    }
    SortValuesSorted(values);
    SortedEnds(sorted);
    assert sorted[0] in multiset(values) && sorted[|sorted| - 1] in multiset(values);
    forall v | v in values ensures v in sorted {
      assert v in multiset(sorted);
    }
  }

  /** A column with no value left after dropping undefined and '' is a
      `string` column with no distinct values, every row counted as missing,
      and `min`/`max` undefined. */
  lemma EmptyColumn(data: seq<seq<Cell>>, columnIndex: nat, header: string, dateParses: string -> bool)
    requires ColumnValues(data, columnIndex) == []
    ensures AnalyzeColumn(data, columnIndex, header, dateParses)
      == AnalysisResult(header, StringType, 0, |data|, Lexical(None, None))
  {
    var values := ColumnValues(data, columnIndex);
    assert (set v | v in values) == {};
  }

  /** Which optional fields are present depends only on the type: numeric
      statistics for `number`, nothing for `date`, text extremes for
      `string`. */
  lemma ExtremaFollowType(data: seq<seq<Cell>>, columnIndex: nat, header: string, dateParses: string -> bool)
    ensures var r := AnalyzeColumn(data, columnIndex, header, dateParses);
      && (r.columnType == NumberType <==> r.extrema.NumericStats?)
      && (r.columnType == DateType <==> r.extrema.NoStats?)
      && (r.columnType == StringType <==> r.extrema.Lexical?)
  {
  }

  /** A column whose cells are all strings is never classified `number`. */
  lemma {:induction false} StringsNeverNumber(values: seq<Cell>, dateParses: string -> bool)
    requires forall k :: 0 <= k < |values| ==> values[k].Str?
    ensures InferColumnType(values, dateParses) != NumberType
  {
    var k := SampleIndex(values);
    if k < |values| {
      assert values[k].Str?;
    }
  }

  /** The cells of a loaded table as the JavaScript values they are: strings. */
  function StringRows(content: seq<Row>): (r: seq<seq<Cell>>)
    ensures |r| == |content|
    ensures forall j :: 0 <= j < |content| ==>
      |r[j]| == |content[j]| && forall k :: 0 <= k < |content[j]| ==> r[j][k] == Str(content[j][k])
  {
    seq(|content|, j requires 0 <= j < |content| => seq(|content[j]|, k requires 0 <= k < |content[j]| => Str(content[j][k])))
  }

  /** The analyzer page: one result per header, in header order, the i-th
      analysing column i under the i-th header. */
  function AnalyzeTable(d: FileData, dateParses: string -> bool): (r: seq<AnalysisResult>)
    ensures |r| == |d.headers|
    ensures forall i :: 0 <= i < |r| ==> r[i] == AnalyzeColumn(StringRows(d.content), i, d.headers[i], dateParses)
    ensures forall i :: 0 <= i < |r| ==>
      r[i].columnName == d.headers[i] && r[i].uniqueValues + r[i].nullCount <= |d.content|
  {
    seq(|d.headers|, i requires 0 <= i < |d.headers| => AnalyzeColumn(StringRows(d.content), i, d.headers[i], dateParses))
  }

  /** Loaded cells are always strings, so the `number` branch of the type
      inference is never taken for a loaded table. */
  lemma LoadedColumnsNeverNumber(d: FileData, dateParses: string -> bool)
    ensures forall r :: r in AnalyzeTable(d, dateParses) ==> r.columnType != NumberType
  {
    var rows := StringRows(d.content);
    var results := AnalyzeTable(d, dateParses);
    forall i | 0 <= i < |results| ensures results[i].columnType != NumberType {
      var values := ColumnValues(rows, i);
      forall k | 0 <= k < |values| ensures values[k].Str? {
        assert values[k] in Column(rows, i);
        var m :| 0 <= m < |rows| && Column(rows, i)[m] == values[k];
        assert CellAt(rows[m], i) == values[k];
      }
      StringsNeverNumber(values, dateParses);
    }
  }

  /** The analyzer page's state: the loaded table and its column analyses. */
  class AnalyzerPage {
    var fileData: Option<FileData>
    var analysis: seq<AnalysisResult>

    /** Nothing loaded yet. */
    constructor()
      ensures fileData == None && analysis == []
    {
      fileData := None;
      analysis := [];
    }

    /** `handleFileLoad`: stores the table and one analysis per header. */
    method HandleFileLoad(data: FileData, dateParses: string -> bool)
      modifies this
      ensures fileData == Some(data)
      ensures analysis == AnalyzeTable(data, dateParses)
      ensures |analysis| == |data.headers|
    {
      fileData := Some(data);
      analysis := AnalyzeTable(data, dateParses);
    }
  }
}
