/** The data table (src/components/DataTable.tsx): the sort-header click
    cycle, the copy-sort with its comparator, the per-column filters, and the
    first-100-rows window with its row count. */
module TableView {
  import opened Text
  import opened Seqs
  import opened Types

  /** `handleSort(column)`: a column other than the current one starts
      ascending; clicking the current column cycles ascending, descending,
      unsorted and ascending again. */
  function NextSort(cfg: SortConfig, column: string): (next: SortConfig)
    ensures next.column == column
    ensures cfg.column != column ==> next.direction == Asc
  {
    var direction :=
      if cfg.column == column && cfg.direction == Asc then Desc
      else if cfg.column == column && cfg.direction == Desc then Unsorted
      else Asc;
    SortConfig(column, direction)
  }

  /** Three clicks on the column already configured bring the configuration
      back; three clicks on any column end unsorted on that column. */
  lemma SortClickCycle(cfg: SortConfig, column: string)
    ensures cfg.column == column ==> NextSort(NextSort(NextSort(cfg, column), column), column) == cfg
    ensures NextSort(NextSort(NextSort(cfg, column), column), column).direction
      == (if cfg.column == column then cfg.direction else Unsorted)
  {
  }

  /** `headers.indexOf(column)`: the first position holding `column`, or -1. */
  function IndexOf(headers: seq<string>, column: string): (i: int)
    ensures -1 <= i < |headers|
    ensures i >= 0 ==> headers[i] == column && forall j :: 0 <= j < i ==> headers[j] != column
    ensures i < 0 <==> column !in headers
  {
    if headers == [] then -1
    else if headers[0] == column then 0
    else
      var i := IndexOf(headers[1..], column);
      if i < 0 then -1 else i + 1
  }

  /** The sort comparator on two cells of the sort column: 0 for equal cells,
      '' after everything else whatever the direction, and the string order,
      negated when descending, otherwise. */
  function CompareCells(a: string, b: string, direction: SortDirection): (c: int)
    ensures -1 <= c <= 1
    ensures c == 0 <==> a == b
    ensures a == "" && b != "" ==> c == 1
    ensures a != "" && b == "" ==> c == -1
  {
    if a == b then 0
    else if a == "" then 1
    else if b == "" then -1
    else
      var comparison := if LexLess(a, b) then -1 else 1;
      if direction == Asc then comparison else -comparison
  }

  /** The comparator is consistent, so the sort order is well defined: it
      returns 0 exactly on equal cells, swapping its arguments flips its
      sign, and "not after" is transitive. An empty cell goes after every
      other cell in both directions, and on two distinct non-empty cells
      descending is the negation of ascending, ascending being the string
      order. */
  lemma CompareCellsConsistent(a: string, b: string, c: string, direction: SortDirection)
    ensures CompareCells(a, b, direction) == 0 <==> a == b
    ensures a == "" && b != "" ==> CompareCells(a, b, direction) == 1 && CompareCells(b, a, direction) == -1
    ensures a != b && a != "" && b != "" ==>
      CompareCells(a, b, Desc) == -CompareCells(a, b, Asc) && (CompareCells(a, b, Asc) < 0 <==> LexLess(a, b))
    ensures CompareCells(a, b, direction) == -CompareCells(b, a, direction)
    ensures CompareCells(a, b, direction) <= 0 && CompareCells(b, c, direction) <= 0 ==> CompareCells(a, c, direction) <= 0
  {
    if a != b && a != "" && b != "" {
      LexLessTotal(a, b);
      if LexLess(a, b) {
        LexLessAsymmetric(a, b);
      }
    }
    if CompareCells(a, b, direction) <= 0 && CompareCells(b, c, direction) <= 0
      && a != b && b != c && a != c && a != "" && b != "" && c != "" {
      LexLessTotal(a, b);
      LexLessTotal(b, c);
      LexLessTotal(a, c);
      if direction == Asc {
        LexLessTransitive(a, b, c);
      } else {
        LexLessTransitive(c, b, a);
      }
      if LexLess(a, c) {
        LexLessAsymmetric(a, c);
      }
    }
  }

  /** Every row holds a cell at position `idx`. */
  predicate HasColumn(rows: seq<Row>, idx: nat) {
    forall k :: 0 <= k < |rows| ==> idx < |rows[k]|
  }

  /** Ordered by the comparator on column `idx`. */
  predicate SortedOn(rows: seq<Row>, idx: nat, direction: SortDirection)
    requires HasColumn(rows, idx)
  {
    forall i, j :: 0 <= i < j < |rows| ==> CompareCells(rows[i][idx], rows[j][idx], direction) <= 0
  }

  /** Places `x` before the first row it does not come after, hence before
      every row with the same cell. */
  function Insert(x: Row, rows: seq<Row>, idx: nat, direction: SortDirection): (r: seq<Row>)
    requires idx < |x| && HasColumn(rows, idx)
    ensures |r| == |rows| + 1
    ensures multiset(r) == multiset(rows) + multiset{x}
    ensures HasColumn(r, idx)
  {
    if rows == [] then [x]
    else if CompareCells(x[idx], rows[0][idx], direction) <= 0 then [x] + rows
    else
      assert rows == [rows[0]] + rows[1..];
      [rows[0]] + Insert(x, rows[1..], idx, direction)
  }

  /** The stable sort of `rows` on column `idx`: what `[...rows].sort(cmp)`
      returns, since that sort is stable and the comparator consistent. */
  function SortRows(rows: seq<Row>, idx: nat, direction: SortDirection): (r: seq<Row>)
    requires HasColumn(rows, idx)
    ensures |r| == |rows|
    ensures multiset(r) == multiset(rows)
    ensures HasColumn(r, idx)
  {
    if rows == [] then []
    else
      assert rows == [rows[0]] + rows[1..];
      Insert(rows[0], SortRows(rows[1..], idx, direction), idx, direction)
  }

  /** A row that comes after none of the rows of a sorted sequence may head it. */
  lemma SortedCons(x: Row, rows: seq<Row>, idx: nat, direction: SortDirection)
    requires idx < |x| && HasColumn(rows, idx) && SortedOn(rows, idx, direction)
    requires forall y :: y in rows ==> CompareCells(x[idx], y[idx], direction) <= 0
    ensures HasColumn([x] + rows, idx) && SortedOn([x] + rows, idx, direction)
  {
    var r := [x] + rows;
    forall i, j | 0 <= i < j < |r| ensures CompareCells(r[i][idx], r[j][idx], direction) <= 0 {
      assert r[j] == rows[j - 1];
      if i > 0 {
        assert r[i] == rows[i - 1];
      }
    }
  }

  lemma {:induction false} InsertSorted(x: Row, rows: seq<Row>, idx: nat, direction: SortDirection)
    requires idx < |x| && HasColumn(rows, idx) && SortedOn(rows, idx, direction)
    ensures SortedOn(Insert(x, rows, idx, direction), idx, direction)
  {
    if rows == [] {
    } else if CompareCells(x[idx], rows[0][idx], direction) <= 0 {
      forall y | y in rows ensures CompareCells(x[idx], y[idx], direction) <= 0 {
        var j :| 0 <= j < |rows| && rows[j] == y;
        CompareCellsConsistent(x[idx], rows[0][idx], y[idx], direction);
      }
      SortedCons(x, rows, idx, direction);
    } else {
      CompareCellsConsistent(rows[0][idx], x[idx], x[idx], direction);
      InsertSorted(x, rows[1..], idx, direction);
      var rest := Insert(x, rows[1..], idx, direction);
      forall y | y in rest ensures CompareCells(rows[0][idx], y[idx], direction) <= 0 {
        assert y in multiset(rest);
        if y != x {
          assert y in multiset(rows[1..]);
          var j :| 0 <= j < |rows[1..]| && rows[1..][j] == y;
          assert rows[j + 1] == y;
        }
      }
      SortedCons(rows[0], rest, idx, direction);
    }
  }

  /** The sorted copy is ordered by the comparator. */
  lemma {:induction false} SortRowsSorted(rows: seq<Row>, idx: nat, direction: SortDirection)
    requires HasColumn(rows, idx)
    ensures SortedOn(SortRows(rows, idx, direction), idx, direction)
  {
    if rows != [] {
      SortRowsSorted(rows[1..], idx, direction);
      InsertSorted(rows[0], SortRows(rows[1..], idx, direction), idx, direction);
    }
  }

  /** In the sorted copy, rows with an empty cell come last, and the
      non-empty cells ascend (or descend) in string order. */
  lemma SortedMeaning(rows: seq<Row>, idx: nat, direction: SortDirection, i: nat, j: nat)
    requires HasColumn(rows, idx)
    requires i < j < |rows|
    ensures var r := SortRows(rows, idx, direction);
      && (r[i][idx] == "" ==> r[j][idx] == "")
      && (r[i][idx] != "" && r[j][idx] != "" ==>
            if direction == Asc then LexLeq(r[i][idx], r[j][idx]) else LexLeq(r[j][idx], r[i][idx]))
  {
    var r := SortRows(rows, idx, direction);
    SortRowsSorted(rows, idx, direction);
    assert CompareCells(r[i][idx], r[j][idx], direction) <= 0;
    if r[i][idx] != r[j][idx] && r[i][idx] != "" && r[j][idx] != "" && direction != Asc {
      LexLessTotal(r[i][idx], r[j][idx]);
    }
  }

  /** Rows whose cell in column `idx` is `key`. */
  function HasKey(idx: nat, key: string): Row -> bool {
    row => idx < |row| && row[idx] == key
  }

  lemma {:induction false} InsertStable(x: Row, rows: seq<Row>, idx: nat, direction: SortDirection, key: string)
    requires idx < |x| && HasColumn(rows, idx)
    ensures KeepIf(Insert(x, rows, idx, direction), HasKey(idx, key))
      == (if x[idx] == key then [x] else []) + KeepIf(rows, HasKey(idx, key))
  {
    var p := HasKey(idx, key);
    assert p(x) == (x[idx] == key);
    if rows == [] {
    } else if CompareCells(x[idx], rows[0][idx], direction) <= 0 {
      KeepIfCons(x, rows, p);
    } else {
      InsertStable(x, rows[1..], idx, direction, key);
      if p(x) {
        assert x[idx] != rows[0][idx];
      }
      KeepIfPastHead(rows, Insert(x, rows[1..], idx, direction), if p(x) then [x] else [], p);
    }
  }

  /** The sort is stable: the rows sharing any one cell value keep their
      relative order. */
  lemma {:induction false} SortRowsStable(rows: seq<Row>, idx: nat, direction: SortDirection, key: string)
    requires HasColumn(rows, idx)
    ensures KeepIf(SortRows(rows, idx, direction), HasKey(idx, key)) == KeepIf(rows, HasKey(idx, key))
  {
    if rows != [] {
      SortRowsStable(rows[1..], idx, direction, key);
      InsertStable(rows[0], SortRows(rows[1..], idx, direction), idx, direction, key);
    }
  }

  /** Sorting rows that are already in order leaves them as they are. */
  lemma {:induction false} SortedUnchanged(rows: seq<Row>, idx: nat, direction: SortDirection)
    requires HasColumn(rows, idx) && SortedOn(rows, idx, direction)
    ensures SortRows(rows, idx, direction) == rows
  {
    if rows != [] {
      var x, tail := rows[0], rows[1..];
      SortedTail(rows, idx, direction);
      SortedUnchanged(tail, idx, direction);
      if |rows| > 1 {
        assert CompareCells(rows[0][idx], rows[1][idx], direction) <= 0;
        assert tail[0] == rows[1];
      }
      InsertFront(x, tail, idx, direction);
      SortRowsCons(x, tail, idx, direction);
      assert rows == [x] + tail;
    }
  }

  /** Sorting twice on the same column and direction is sorting once. */
  lemma SortRowsIdempotent(rows: seq<Row>, idx: nat, direction: SortDirection)
    requires HasColumn(rows, idx)
    ensures SortRows(SortRows(rows, idx, direction), idx, direction) == SortRows(rows, idx, direction)
  {
    SortRowsSorted(rows, idx, direction);
    SortedUnchanged(SortRows(rows, idx, direction), idx, direction);
  }

  /** `sortedData`: the content itself when no direction is set, otherwise
      its sorted copy; a column missing from the headers makes every
      comparison 0, which leaves the stable sort's input order. */
  function SortedView(content: seq<Row>, headers: seq<string>, cfg: SortConfig): (r: seq<Row>)
    requires forall k :: 0 <= k < |content| ==> |content[k]| == |headers|
    ensures multiset(r) == multiset(content)
  {
    var idx := IndexOf(headers, cfg.column);
    assert idx >= 0 ==> HasColumn(content, idx);
    if cfg.direction == Unsorted || idx < 0 then content
    else SortRows(content, idx, cfg.direction)
  }

  /** Sorted rows stay sorted when the first is dropped. */
  lemma SortedTail(rows: seq<Row>, idx: nat, direction: SortDirection)
    requires rows != [] && HasColumn(rows, idx) && SortedOn(rows, idx, direction)
    ensures HasColumn(rows[1..], idx) && SortedOn(rows[1..], idx, direction)
  {
    forall i, j | 0 <= i < j < |rows[1..]| ensures CompareCells(rows[1..][i][idx], rows[1..][j][idx], direction) <= 0 {
      assert rows[1..][i] == rows[i + 1] && rows[1..][j] == rows[j + 1];
    }
  }

  lemma InsertFront(x: Row, rows: seq<Row>, idx: nat, direction: SortDirection)
    requires idx < |x| && HasColumn(rows, idx)
    requires rows == [] || CompareCells(x[idx], rows[0][idx], direction) <= 0
    ensures Insert(x, rows, idx, direction) == [x] + rows
  {
  }

  /** Row `x` comes after row `y` on column `idx`. */
  predicate GoesAfter(x: Row, y: Row, idx: nat, direction: SortDirection) {
    idx < |x| && idx < |y| && CompareCells(x[idx], y[idx], direction) > 0
  }

  lemma InsertSkip(x: Row, rows: seq<Row>, idx: nat, direction: SortDirection)
    requires idx < |x| && HasColumn(rows, idx)
    requires rows != [] && GoesAfter(x, rows[0], idx, direction)
    ensures HasColumn(rows[1..], idx)
    ensures Insert(x, rows, idx, direction) == [rows[0]] + Insert(x, rows[1..], idx, direction)
  {
  }

  /** An insertion lands right after the leading rows `x` comes after. */
  lemma {:induction false} InsertAt(x: Row, rows: seq<Row>, idx: nat, direction: SortDirection, m: nat)
    requires idx < |x| && HasColumn(rows, idx) && m <= |rows|
    requires forall k {:trigger GoesAfter(x, rows[k], idx, direction)} :: 0 <= k < m ==> GoesAfter(x, rows[k], idx, direction)
    requires m == |rows| || !GoesAfter(x, rows[m], idx, direction)
    ensures Insert(x, rows, idx, direction) == rows[..m] + [x] + rows[m..]
  {
    if m == 0 {
      InsertFront(x, rows, idx, direction);
      assert rows[..0] == [] && rows[0..] == rows;
    } else {
      assert GoesAfter(x, rows[0], idx, direction);
      InsertSkip(x, rows, idx, direction);
      forall k | 0 <= k < m - 1 ensures GoesAfter(x, rows[1..][k], idx, direction) {
        assert rows[1..][k] == rows[k + 1] && GoesAfter(x, rows[k + 1], idx, direction);
      }
      InsertAt(x, rows[1..], idx, direction, m - 1);
      SplitAfterHead(rows, m, x);
    }
  }

  /** Moves `x` into position `i + m` of `a`, shifting one place to the left
      the `m` leading elements after position `i` that `x` goes after. */
  method ShiftInsert<T>(a: array<T>, i: nat, x: T, after: T -> bool) returns (ghost rest: seq<T>, ghost m: nat)
    requires i < a.Length
    modifies a
    ensures rest == old(a[i + 1..]) && m <= |rest|
    ensures forall k :: 0 <= k < i ==> a[k] == old(a[k])
    ensures forall k :: 0 <= k < m ==> after(rest[k])
    ensures m == |rest| || !after(rest[m])
    ensures a[i..] == rest[..m] + [x] + rest[m..]
  {
    rest := a[i + 1..];
    var j := i;
    while j + 1 < a.Length && after(a[j + 1])
      invariant i <= j < a.Length
      invariant forall k :: 0 <= k < i ==> a[k] == old(a[k])
      invariant forall k :: i <= k < j ==> a[k] == rest[k - i]
      invariant forall k :: j < k < a.Length ==> a[k] == rest[k - i - 1]
      invariant forall k :: 0 <= k < j - i ==> after(rest[k])
    {
      a[j] := a[j + 1];
      j := j + 1;
    }
    a[j] := x;
    m := j - i;
    SplicedAt(a[..], i, j, rest, x);
  }

  /** Inserts `a[i]` into the sorted rows after it. */
  method InsertStep(a: array<Row>, i: nat, idx: nat, direction: SortDirection)
    requires i < a.Length && idx < |a[i]| && HasColumn(a[i + 1..], idx)
    modifies a
    ensures forall k :: 0 <= k < i ==> a[k] == old(a[k])
    ensures a[i..] == Insert(old(a[i]), old(a[i + 1..]), idx, direction)
  {
    var x := a[i];
    ghost var sorted, m := ShiftInsert(a, i, x, y => GoesAfter(x, y, idx, direction));
    InsertAt(x, sorted, idx, direction, m);
  }

  /** The copy-sort in place: each row, from the last to the first, is
      inserted into the sorted rows after it. */
  method InsertionSort(a: array<Row>, idx: nat, direction: SortDirection)
    requires HasColumn(a[..], idx)
    modifies a
    ensures HasColumn(old(a[..]), idx)
    ensures a[..] == SortRows(old(a[..]), idx, direction)
  {
    ghost var input := a[..];
    var i := a.Length;
    assert input[a.Length..] == [];
    while i > 0
      invariant 0 <= i <= a.Length
      invariant forall k :: 0 <= k < i ==> a[k] == input[k]
      invariant HasColumn(input[i..], idx)
      invariant a[i..] == SortRows(input[i..], idx, direction)
    {
      i := i - 1;
      assert input[i..][0] == input[i] && input[i..][1..] == input[i + 1..];
      InsertStep(a, i, idx, direction);
    }
    assert a[..] == a[0..] && input == input[0..];
  }

  /** `sortedData`, computed: the content itself, or a sorted array copy. */
  method SortedRows(content: seq<Row>, headers: seq<string>, cfg: SortConfig) returns (r: seq<Row>)
    requires forall k :: 0 <= k < |content| ==> |content[k]| == |headers|
    ensures r == SortedView(content, headers, cfg)
  {
    var idx := IndexOf(headers, cfg.column);
    if cfg.direction == Unsorted || idx < 0 {
      return content;
    }
    var a := new Row[|content|](k requires 0 <= k < |content| => content[k]);
    assert a[..] == content;
    InsertionSort(a, idx, cfg.direction);
    r := a[..];
  }

  /** Three clicks on a column other than the current sort column (or on the
      current one while it is unsorted) show the content in its original
      order again. */
  lemma ThirdClickRestores(content: seq<Row>, headers: seq<string>, cfg: SortConfig, column: string)
    requires forall k :: 0 <= k < |content| ==> |content[k]| == |headers|
    requires cfg.column != column || cfg.direction == Unsorted
    ensures SortedView(content, headers, NextSort(NextSort(NextSort(cfg, column), column), column)) == content
  {
    SortClickCycle(cfg, column);
  }

  /** Filtering keeps every row's cell at `idx`. */
  lemma KeptHasColumn(rows: seq<Row>, idx: nat, q: Row -> bool)
    requires HasColumn(rows, idx)
    ensures HasColumn(KeepIf(rows, q), idx)
  {
    var kept := KeepIf(rows, q);
    forall k | 0 <= k < |kept| ensures idx < |kept[k]| {
      assert kept[k] in rows;
    }
  }

  lemma InsertFilterFront(x: Row, rows: seq<Row>, idx: nat, direction: SortDirection, q: Row -> bool)
    requires idx < |x| && HasColumn(rows, idx) && SortedOn(rows, idx, direction)
    requires rows == [] || !GoesAfter(x, rows[0], idx, direction)
    ensures HasColumn(KeepIf(rows, q), idx)
    ensures KeepIf(Insert(x, rows, idx, direction), q)
      == if q(x) then Insert(x, KeepIf(rows, q), idx, direction) else KeepIf(rows, q)
  {
    KeptHasColumn(rows, idx, q);
    var kept := KeepIf(rows, q);
    InsertFront(x, rows, idx, direction);
    KeepIfCons(x, rows, q);
    if q(x) {
      if kept != [] {
        assert kept[0] in rows;
        var k :| 0 <= k < |rows| && rows[k] == kept[0];
        CompareCellsConsistent(x[idx], rows[0][idx], kept[0][idx], direction);
      }
      InsertFront(x, kept, idx, direction);
    }
  }

  lemma InsertFilterSkipKept(x: Row, rows: seq<Row>, idx: nat, direction: SortDirection, q: Row -> bool)
    requires idx < |x| && HasColumn(rows, idx)
    requires rows != [] && GoesAfter(x, rows[0], idx, direction)
    requires HasColumn(KeepIf(rows[1..], q), idx) && HasColumn(KeepIf(rows, q), idx)
    requires q(x) && q(rows[0])
    requires KeepIf(Insert(x, rows[1..], idx, direction), q) == Insert(x, KeepIf(rows[1..], q), idx, direction)
    ensures KeepIf(Insert(x, rows, idx, direction), q) == Insert(x, KeepIf(rows, q), idx, direction)
  {
    var kept := KeepIf(rows, q);
    var keptTail := KeepIf(rows[1..], q);
    var rest := Insert(x, rows[1..], idx, direction);
    InsertSkip(x, rows, idx, direction);
    KeepIfCons(rows[0], rest, q);
    assert kept == [rows[0]] + keptTail;
    assert kept[0] == rows[0] && kept[1..] == keptTail;
    InsertSkip(x, kept, idx, direction);
  }

  lemma InsertFilterSkipDropped(x: Row, rows: seq<Row>, idx: nat, direction: SortDirection, q: Row -> bool)
    requires idx < |x| && HasColumn(rows, idx)
    requires rows != [] && GoesAfter(x, rows[0], idx, direction)
    requires HasColumn(KeepIf(rows[1..], q), idx) && HasColumn(KeepIf(rows, q), idx)
    requires q(x) && !q(rows[0])
    requires KeepIf(Insert(x, rows[1..], idx, direction), q) == Insert(x, KeepIf(rows[1..], q), idx, direction)
    ensures KeepIf(Insert(x, rows, idx, direction), q) == Insert(x, KeepIf(rows, q), idx, direction)
  {
    var rest := Insert(x, rows[1..], idx, direction);
    InsertSkip(x, rows, idx, direction);
    KeepIfCons(rows[0], rest, q);
    assert KeepIf(rows, q) == KeepIf(rows[1..], q);
  }

  lemma InsertFilterSkipFails(x: Row, rows: seq<Row>, idx: nat, direction: SortDirection, q: Row -> bool)
    requires idx < |x| && HasColumn(rows, idx)
    requires rows != [] && GoesAfter(x, rows[0], idx, direction)
    requires !q(x)
    requires KeepIf(Insert(x, rows[1..], idx, direction), q) == KeepIf(rows[1..], q)
    ensures KeepIf(Insert(x, rows, idx, direction), q) == KeepIf(rows, q)
  {
    InsertSkip(x, rows, idx, direction);
    KeepIfPastHead(rows, Insert(x, rows[1..], idx, direction), [], q);
  }

  lemma InsertFilterSkip(x: Row, rows: seq<Row>, idx: nat, direction: SortDirection, q: Row -> bool)
    requires idx < |x| && HasColumn(rows, idx)
    requires rows != [] && GoesAfter(x, rows[0], idx, direction)
    requires HasColumn(KeepIf(rows[1..], q), idx)
    requires KeepIf(Insert(x, rows[1..], idx, direction), q)
      == if q(x) then Insert(x, KeepIf(rows[1..], q), idx, direction) else KeepIf(rows[1..], q)
    ensures HasColumn(KeepIf(rows, q), idx)
    ensures KeepIf(Insert(x, rows, idx, direction), q)
      == if q(x) then Insert(x, KeepIf(rows, q), idx, direction) else KeepIf(rows, q)
  {
    KeptHasColumn(rows, idx, q);
    if !q(x) {
      InsertFilterSkipFails(x, rows, idx, direction, q);
    } else if q(rows[0]) {
      InsertFilterSkipKept(x, rows, idx, direction, q);
    } else {
      InsertFilterSkipDropped(x, rows, idx, direction, q);
    }
  }

  /** Inserting into sorted rows and then filtering is filtering and then
      inserting, when the inserted row passes, and plain filtering otherwise. */
  lemma {:induction false} InsertFilter(x: Row, rows: seq<Row>, idx: nat, direction: SortDirection, q: Row -> bool)
    requires idx < |x| && HasColumn(rows, idx) && SortedOn(rows, idx, direction)
    ensures HasColumn(KeepIf(rows, q), idx)
    ensures KeepIf(Insert(x, rows, idx, direction), q)
      == if q(x) then Insert(x, KeepIf(rows, q), idx, direction) else KeepIf(rows, q)
  {
    if rows == [] || !GoesAfter(x, rows[0], idx, direction) {
      InsertFilterFront(x, rows, idx, direction, q);
    } else {
      SortedTail(rows, idx, direction);
      InsertFilter(x, rows[1..], idx, direction, q);
      InsertFilterSkip(x, rows, idx, direction, q);
    }
  }

  /** Sorting rows headed by `x` inserts `x` into the sorted tail. */
  lemma SortRowsCons(x: Row, rows: seq<Row>, idx: nat, direction: SortDirection)
    requires idx < |x| && HasColumn(rows, idx)
    ensures HasColumn([x] + rows, idx)
    ensures SortRows([x] + rows, idx, direction) == Insert(x, SortRows(rows, idx, direction), idx, direction)
  {
    assert ([x] + rows)[0] == x && ([x] + rows)[1..] == rows;
  }

  /** Sorting and filtering commute: the filtered view of the sorted content
      is the sorted copy of the filtered content. */
  lemma {:induction false} SortFilterCommute(rows: seq<Row>, idx: nat, direction: SortDirection, q: Row -> bool)
    requires HasColumn(rows, idx)
    ensures HasColumn(KeepIf(rows, q), idx)
    ensures KeepIf(SortRows(rows, idx, direction), q) == SortRows(KeepIf(rows, q), idx, direction)
  {
    KeptHasColumn(rows, idx, q);
    if rows != [] {
      var x, tail := rows[0], rows[1..];
      SortFilterCommute(tail, idx, direction, q);
      SortRowsSorted(tail, idx, direction);
      InsertFilter(x, SortRows(tail, idx, direction), idx, direction, q);
      KeepIfHead(rows, q);
      if q(x) {
        SortRowsCons(x, KeepIf(tail, q), idx, direction);
      }
    }
  }

  /** A column filter: the text typed and the comparison chosen. */
  datatype ColumnFilter = ColumnFilter(value: string, kind: string)

  /** `row[headers.indexOf(column)]?.toString().toLowerCase()`: undefined
      when the column is not a header or the row has no cell there. */
  function CellText(row: Row, headers: seq<string>, column: string): (v: Option<string>)
    ensures v.Some? <==> 0 <= IndexOf(headers, column) < |row|
    ensures v.Some? ==> |v.value| == |row[IndexOf(headers, column)]|
  {
    var idx := IndexOf(headers, column);
    if 0 <= idx < |row| then Some(Lower(row[idx])) else None
  }

  /** `Number(a) < Number(b)`, false when either side is not a number: the
      numeric conversion is a parameter of the model. */
  type NumLess = (string, string) -> bool

  /** One filter on one (lower-cased) cell: an empty filter text passes
      everything; otherwise the chosen comparison against the lower-cased
      filter text decides, an absent cell failing every comparison, and an
      unknown comparison passes everything. */
  predicate FilterPasses(value: Option<string>, f: ColumnFilter, numLess: NumLess)
    ensures f.value == "" ==> FilterPasses(value, f, numLess)
    ensures f.kind !in {"contains", "equals", "starts", "ends", "greater", "less"} ==> FilterPasses(value, f, numLess)
    ensures f.kind == "equals" && f.value != "" ==> (FilterPasses(value, f, numLess) <==> value == Some(Lower(f.value)))
  {
    var filterValue := Lower(f.value);
    if filterValue == "" then true
    else if f.kind == "contains" then value.Some? && Includes(value.value, filterValue)
    else if f.kind == "equals" then value == Some(filterValue)
    else if f.kind == "starts" then value.Some? && IsPrefix(filterValue, value.value)
    else if f.kind == "ends" then value.Some? && IsSuffix(filterValue, value.value)
    else if f.kind == "greater" then value.Some? && numLess(filterValue, value.value)
    else if f.kind == "less" then value.Some? && numLess(value.value, filterValue)
    else true
  }

  /** `Object.entries(columnFilters).every(...)`. */
  predicate RowPasses(row: Row, headers: seq<string>, filters: map<string, ColumnFilter>, numLess: NumLess)
    ensures filters == map[] ==> RowPasses(row, headers, filters, numLess)
    ensures (forall column :: column in filters ==> filters[column].value == "") ==> RowPasses(row, headers, filters, numLess)
  {
    forall column :: column in filters ==> FilterPasses(CellText(row, headers, column), filters[column], numLess)
  }

  function RowFilter(headers: seq<string>, filters: map<string, ColumnFilter>, numLess: NumLess): Row -> bool {
    row => RowPasses(row, headers, filters, numLess)
  }

  /** `filteredData`: the rows passing every filter, in order. */
  function FilterRows(rows: seq<Row>, headers: seq<string>, filters: map<string, ColumnFilter>, numLess: NumLess): (r: seq<Row>)
    ensures forall row :: row in r <==> row in rows && RowPasses(row, headers, filters, numLess)
    ensures IsSubsequence(r, rows)
    ensures forall row :: multiset(r)[row] == if RowPasses(row, headers, filters, numLess) then multiset(rows)[row] else 0
  {
    KeepIfSubsequence(rows, RowFilter(headers, filters, numLess));
    KeepIfMultiplicity(rows, RowFilter(headers, filters, numLess));
    KeepIf(rows, RowFilter(headers, filters, numLess))
  }

  /** Filters whose text is empty keep every row. */
  lemma EmptyFiltersKeepAll(rows: seq<Row>, headers: seq<string>, filters: map<string, ColumnFilter>, numLess: NumLess)
    requires forall column :: column in filters ==> filters[column].value == ""
    ensures FilterRows(rows, headers, filters, numLess) == rows
  {
    KeepIfAll(rows, RowFilter(headers, filters, numLess));
  }

  /** Setting the filter of one column filters the rows that pass the other
      filters once more, by that column's filter alone. */
  lemma FilterChangeRefines(rows: seq<Row>, headers: seq<string>, filters: map<string, ColumnFilter>,
                            column: string, f: ColumnFilter, numLess: NumLess)
    ensures FilterRows(rows, headers, filters[column := f], numLess)
      == FilterRows(FilterRows(rows, headers, filters - {column}, numLess), headers, map[column := f], numLess)
  {
    var others := RowFilter(headers, filters - {column}, numLess);
    var own := RowFilter(headers, map[column := f], numLess);
    var both := RowFilter(headers, filters[column := f], numLess);
    forall row ensures both(row) == (others(row) && own(row)) {
      if others(row) && own(row) {
        forall c | c in filters[column := f]
          ensures FilterPasses(CellText(row, headers, c), filters[column := f][c], numLess)
        {
          if c == column {
            assert c in map[column := f];
          } else {
            assert c in filters - {column};
          }
        }
      }
      if both(row) {
        forall c | c in filters - {column}
          ensures FilterPasses(CellText(row, headers, c), (filters - {column})[c], numLess)
        {
          assert c in filters[column := f];
        }
        assert column in filters[column := f];
      }
    }
    KeepIfCompose(rows, others, own, both);
  }

  /** `toLowerCase` is idempotent. */
  lemma LowerIdempotent(s: string)
    ensures Lower(Lower(s)) == Lower(s)
  {
  }

  /** Filtering ignores case on both sides: a filter whose text is
      lower-cased passes the same cells. */
  lemma FilterIgnoresCase(value: Option<string>, f: ColumnFilter, numLess: NumLess)
    ensures FilterPasses(value, ColumnFilter(Lower(f.value), f.kind), numLess) == FilterPasses(value, f, numLess)
  {
    LowerIdempotent(f.value);
  }

  /** An exact match also passes the "starts with", "ends with" and
      "contains" comparisons, and a prefix or suffix match passes
      "contains". */
  lemma FilterKindsImply(value: Option<string>, text: string, numLess: NumLess)
    ensures FilterPasses(value, ColumnFilter(text, "equals"), numLess) ==>
      FilterPasses(value, ColumnFilter(text, "starts"), numLess) && FilterPasses(value, ColumnFilter(text, "ends"), numLess)
    ensures FilterPasses(value, ColumnFilter(text, "starts"), numLess) ==> FilterPasses(value, ColumnFilter(text, "contains"), numLess)
    ensures FilterPasses(value, ColumnFilter(text, "ends"), numLess) ==> FilterPasses(value, ColumnFilter(text, "contains"), numLess)
  {
    var t := Lower(text);
    if t != "" && value.Some? {
      var v := value.value;
      if IsSuffix(t, v) {
        IncludesIffOccurs(v, t);
        assert IsPrefix(t, v[|v| - |t|..]);
      }
    }
  }

  /** The comparisons the filter selector offers. */
  const FilterKinds: set<string> := {"contains", "equals", "starts", "ends", "greater", "less"}

  /** A filter with empty text or an unknown comparison passes every cell,
      and these are exactly the filters that pass a cell the row does not
      have. */
  lemma TrivialFilters(f: ColumnFilter, numLess: NumLess)
    ensures f.value == "" || f.kind !in FilterKinds ==> forall v :: FilterPasses(v, f, numLess)
    ensures FilterPasses(None, f, numLess) <==> f.value == "" || f.kind !in FilterKinds
  {
    assert |Lower(f.value)| == |f.value|;
  }

  /** The cell text a filter sees is already lower-case: lower-casing the
      row first changes nothing. */
  lemma FilterIgnoresCellCase(row: Row, headers: seq<string>, column: string)
    ensures CellText(seq(|row|, k requires 0 <= k < |row| => Lower(row[k])), headers, column) == CellText(row, headers, column)
  {
    var idx := IndexOf(headers, column);
    if 0 <= idx < |row| {
      LowerIdempotent(row[idx]);
    }
  }

  /** The number of rows the table renders. */
  const RowLimit: nat := 100

  /** The rendered rows and the row count under the table. */
  datatype Page = Page(shown: seq<Row>, total: nat)

  /** `filteredData.slice(0, 100)` with "Showing min(100, n) of n rows". */
  function Window(rows: seq<Row>): (p: Page)
    ensures p.total == |rows|
    ensures |p.shown| <= RowLimit && (|rows| <= RowLimit ==> p.shown == rows)
    ensures |p.shown| == (if p.total < RowLimit then p.total else RowLimit)
    ensures p.shown == rows[..|p.shown|]
  {
    var n := if |rows| < RowLimit then |rows| else RowLimit;
    Page(rows[..n], |rows|)
  }

  /** `cell?.toString() || '-'`: an empty cell is shown as a dash. */
  function DisplayCell(cell: string): (shown: string)
    ensures shown != ""
    ensures cell != "" ==> shown == cell
  {
    if cell == "" then "-" else cell
  }

  /** The table component's state: the data it shows, the sort configuration
      and the filters by column. */
  class DataTable {
    const data: FileData
    var sortConfig: SortConfig
    var columnFilters: map<string, ColumnFilter>

    /** Initially unsorted, with no filters. */
    constructor(data: FileData)
      ensures this.data == data
      ensures sortConfig == SortConfig("", Unsorted) && columnFilters == map[]
    {
      this.data := data;
      sortConfig := SortConfig("", Unsorted);
      columnFilters := map[];
    }

    /** `handleSort`: the next configuration of the click cycle; the filters
        are untouched. */
    method HandleSort(column: string)
      modifies this
      ensures sortConfig == NextSort(old(sortConfig), column)
      ensures columnFilters == old(columnFilters)
    {
      var direction := Asc;
      if sortConfig.column == column {
        if sortConfig.direction == Asc {
          direction := Desc;
        } else if sortConfig.direction == Desc {
          direction := Unsorted;
        }
      }
      sortConfig := SortConfig(column, direction);
    }

    /** `handleFilterChange`: replaces the filter of one column and keeps
        the others and the sort configuration. */
    method HandleFilterChange(column: string, value: string, kind: string)
      modifies this
      ensures columnFilters == old(columnFilters)[column := ColumnFilter(value, kind)]
      ensures sortConfig == old(sortConfig)
      ensures forall c :: c in old(columnFilters) && c != column ==> c in columnFilters && columnFilters[c] == old(columnFilters)[c]
    {
      columnFilters := columnFilters[column := ColumnFilter(value, kind)];
    }

    /** `columnFilters[header]?.value || ''`: the text shown in a column's
        filter box. */
    function FilterText(header: string): (text: string)
      reads this
      ensures header !in columnFilters ==> text == ""
      ensures header in columnFilters ==> text == columnFilters[header].value
    {
      if header in columnFilters then columnFilters[header].value else ""
    }

    /** `columnFilters[header]?.type || 'contains'`: the comparison shown in
        a column's selector. */
    function FilterKind(header: string): (kind: string)
      reads this
      ensures kind != ""
      ensures header !in columnFilters || columnFilters[header].kind == "" ==> kind == "contains"
      ensures header in columnFilters && columnFilters[header].kind != "" ==> kind == columnFilters[header].kind
    {
      if header in columnFilters && columnFilters[header].kind != "" then columnFilters[header].kind else "contains"
    }

    /** Choosing a comparison keeps the column's filter text. */
    method SelectFilterKind(header: string, kind: string)
      modifies this
      ensures columnFilters == old(columnFilters)[header := ColumnFilter(old(FilterText(header)), kind)]
      ensures sortConfig == old(sortConfig)
    {
      HandleFilterChange(header, FilterText(header), kind);
    }

    /** Typing filter text keeps the column's comparison, "contains" when
        none was chosen. */
    method TypeFilterText(header: string, value: string)
      modifies this
      ensures columnFilters == old(columnFilters)[header := ColumnFilter(value, old(FilterKind(header)))]
      ensures columnFilters[header].kind != ""
      ensures sortConfig == old(sortConfig)
    {
      HandleFilterChange(header, value, FilterKind(header));
    }

    /** What the table body and the count line show: the first rows of the
        filtered, sorted content, and the number of rows that pass. */
    method VisibleRows(numLess: NumLess) returns (page: Page)
      requires Rectangular(data)
      ensures page == Window(FilterRows(SortedView(data.content, data.headers, sortConfig), data.headers, columnFilters, numLess))
    {
      var sorted := SortedRows(data.content, data.headers, sortConfig);
      page := Window(FilterRows(sorted, data.headers, columnFilters, numLess));
    }
  }
}
