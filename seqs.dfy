/** Sequence operations the core uses through JavaScript's array methods:
    `filter` (KeepIf) and the counting the column statistics rest on. */
module Seqs {

  /** `s.filter(q)`: the elements of `s` that satisfy `q`, in order. */
  function KeepIf<T(!new)>(s: seq<T>, q: T -> bool): (r: seq<T>)
    ensures |r| <= |s|
    ensures forall x :: x in r <==> x in s && q(x)
  {
    if s == [] then []
    else (if q(s[0]) then [s[0]] else []) + KeepIf(s[1..], q)
  }

  /** One step of the filter: the head is kept exactly when it qualifies. */
  lemma KeepIfCons<T(!new)>(x: T, s: seq<T>, q: T -> bool)
    ensures KeepIf([x] + s, q) == (if q(x) then [x] else []) + KeepIf(s, q)
  {
    assert ([x] + s)[0] == x && ([x] + s)[1..] == s;
  }

  /** The filter of a non-empty sequence, by whether its head qualifies. */
  lemma KeepIfHead<T(!new)>(s: seq<T>, q: T -> bool)
    requires s != []
    ensures KeepIf(s, q) == if q(s[0]) then [s[0]] + KeepIf(s[1..], q) else KeepIf(s[1..], q)
  {
    if !q(s[0]) {
      assert [] + KeepIf(s[1..], q) == KeepIf(s[1..], q);
    }
  }

  /** Putting the head of `s` in front of `rest` filters to what `s` filters
      to, preceded by `own`, when `rest` filters to `own` followed by the
      filtered tail of `s` and a non-empty `own` excludes the head. */
  lemma KeepIfPastHead<T(!new)>(s: seq<T>, rest: seq<T>, own: seq<T>, q: T -> bool)
    requires s != []
    requires KeepIf(rest, q) == own + KeepIf(s[1..], q)
    requires own == [] || !q(s[0])
    ensures KeepIf([s[0]] + rest, q) == own + KeepIf(s, q)
  {
    KeepIfCons(s[0], rest, q);
    if !q(s[0]) {
      assert KeepIf(s, q) == KeepIf(s[1..], q);
    } else {
      assert KeepIf(s, q) == [s[0]] + KeepIf(s[1..], q);
    }
  }

  /** Splitting a sequence at `m` after its head: the head followed by the
      tail split at `m - 1` around `x` is the sequence split at `m` around
      `x`. */
  lemma SplitAfterHead<T>(s: seq<T>, m: nat, x: T)
    requires 0 < m <= |s|
    ensures [s[0]] + (s[1..][..m - 1] + [x] + s[1..][m - 1..]) == s[..m] + [x] + s[m..]
  {
    assert s[1..][..m - 1] == s[1..m] && s[1..][m - 1..] == s[m..];
    assert s[..m] == [s[0]] + s[1..m];
  }

  /** Element-wise description of `s[i..]` as `sorted` with `x` put in
      at position `j - i`. */
  lemma SplicedAt<T>(s: seq<T>, i: nat, j: nat, sorted: seq<T>, x: T)
    requires i <= j < |s| && |sorted| == |s| - i - 1
    requires forall k :: i <= k < j ==> s[k] == sorted[k - i]
    requires s[j] == x
    requires forall k :: j < k < |s| ==> s[k] == sorted[k - i - 1]
    ensures s[i..] == sorted[..j - i] + [x] + sorted[j - i..]
  {
    var r := sorted[..j - i] + [x] + sorted[j - i..];
    assert |r| == |s[i..]|;
    forall k | 0 <= k < |r| ensures s[i..][k] == r[k] {
      if k < j - i {
      } else if k == j - i {
      } else {
        assert r[k] == sorted[k - 1];
      }
    }
  }

  /** `r` can be obtained from `s` by deleting elements, keeping the order. */
  predicate IsSubsequence<T(==)>(r: seq<T>, s: seq<T>)
    decreases |s|
  {
    r == []
    || (s != [] && ((r[0] == s[0] && IsSubsequence(r[1..], s[1..])) || IsSubsequence(r, s[1..])))
  }

  /** Number of elements of `s` that satisfy `q`. */
  function Count<T>(s: seq<T>, q: T -> bool): (n: nat)
    ensures n <= |s|
  {
    if s == [] then 0 else (if q(s[0]) then 1 else 0) + Count(s[1..], q)
  }

  /** The filter keeps the order of the elements it keeps. */
  lemma {:induction false} KeepIfSubsequence<T(!new)>(s: seq<T>, q: T -> bool)
    ensures IsSubsequence(KeepIf(s, q), s)
  {
    if s != [] {
      KeepIfSubsequence(s[1..], q);
      if q(s[0]) {
        assert KeepIf(s, q)[0] == s[0] && KeepIf(s, q)[1..] == KeepIf(s[1..], q);
      } else {
        assert KeepIf(s, q) == KeepIf(s[1..], q);
      }
    }
  }

  /** The filter drops no qualifying element: each qualifying value occurs in
      the result exactly as often as in the input, the others not at all. */
  lemma {:induction false} KeepIfMultiplicity<T(!new)>(s: seq<T>, q: T -> bool)
    ensures forall x :: multiset(KeepIf(s, q))[x] == if q(x) then multiset(s)[x] else 0
  {
    if s != [] {
      KeepIfMultiplicity(s[1..], q);
      assert s == [s[0]] + s[1..];
      assert multiset(s) == multiset([s[0]]) + multiset(s[1..]);
    }
  }

  /** Filtering distributes over concatenation. */
  lemma {:induction false} KeepIfAppend<T(!new)>(a: seq<T>, b: seq<T>, q: T -> bool)
    ensures KeepIf(a + b, q) == KeepIf(a, q) + KeepIf(b, q)
  {
    if a == [] {
      assert a + b == b;
    } else {
      var head := if q(a[0]) then [a[0]] else [];
      assert (a + b)[0] == a[0] && (a + b)[1..] == a[1..] + b;
      assert KeepIf(a + b, q) == head + KeepIf(a[1..] + b, q);
      KeepIfAppend(a[1..], b, q);
      var x, y := KeepIf(a[1..], q), KeepIf(b, q);
      assert head + (x + y) == (head + x) + y;
      assert KeepIf(a, q) == head + x;
    }
  }

  /** The filter keeps as many elements as satisfy `q`; the ones it drops
      are as many as satisfy the complement `notQ`. */
  lemma {:induction false} KeepIfCount<T(!new)>(s: seq<T>, q: T -> bool, notQ: T -> bool)
    requires forall x :: notQ(x) == !q(x)
    ensures |KeepIf(s, q)| == Count(s, q)
    ensures |s| - |KeepIf(s, q)| == Count(s, notQ)
  {
    if s != [] {
      KeepIfCount(s[1..], q, notQ);
    }
  }

  /** A filter every element passes keeps the whole sequence. */
  lemma {:induction false} KeepIfAll<T(!new)>(s: seq<T>, q: T -> bool)
    requires forall k :: 0 <= k < |s| ==> q(s[k])
    ensures KeepIf(s, q) == s
  {
    if s != [] {
      KeepIfAll(s[1..], q);
      assert s == [s[0]] + s[1..];
    }
  }

  /** Filtering by `p` and then by `q` is filtering once by their
      conjunction `pq`. */
  lemma {:induction false} KeepIfCompose<T(!new)>(s: seq<T>, p: T -> bool, q: T -> bool, pq: T -> bool)
    requires forall x :: pq(x) == (p(x) && q(x))
    ensures KeepIf(KeepIf(s, p), q) == KeepIf(s, pq)
  {
    if s != [] {
      KeepIfCompose(s[1..], p, q, pq);
      var head := if p(s[0]) then [s[0]] else [];
      KeepIfAppend(head, KeepIf(s[1..], p), q);
      if p(s[0]) {
        assert KeepIf(head, q) == if q(s[0]) then [s[0]] else [];
      } else {
        assert head + KeepIf(s[1..], p) == KeepIf(s[1..], p);
      }
    }
  }

  /** A sequence has no more distinct values than elements. */
  lemma {:induction false} DistinctAtMostLength<T>(s: seq<T>)
    ensures |set x | x in s| <= |s|
  {
    if s != [] {
      DistinctAtMostLength(s[1..]);
      assert (set x | x in s) == {s[0]} + (set x | x in s[1..]);
    }
  }
}
