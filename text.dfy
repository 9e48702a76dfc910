/** String primitives the core relies on: JavaScript's `trim`, `toLowerCase`,
    `<` on strings, `includes`/`startsWith`/`endsWith`, and `String(n)` for
    whole numbers. */
module Text {

  /** The whitespace `trim` removes in this model: a fixed subset of the
      JavaScript WhiteSpace and LineTerminator tables. */
  predicate IsSpace(c: char) {
    c == ' ' || c == '\t' || c == '\n' || c == '\r' || c == '\U{B}' || c == '\U{C}'
    || c == '\U{A0}' || c == '\U{2028}' || c == '\U{2029}' || c == '\U{FEFF}'
  }

  /** The first position at or after `i` that does not hold whitespace, or
      `|s|` when there is none. */
  function SkipSpaces(s: string, i: nat): (n: nat)
    requires i <= |s|
    ensures i <= n <= |s|
    ensures forall k :: i <= k < n ==> IsSpace(s[k])
    ensures n == |s| || !IsSpace(s[n])
    decreases |s| - i
  {
    if i < |s| && IsSpace(s[i]) then SkipSpaces(s, i + 1) else i
  }

  /** The end of `s[lo..j]` once its trailing whitespace is dropped. */
  function SkipSpacesBack(s: string, lo: nat, j: nat): (n: nat)
    requires lo <= j <= |s|
    ensures lo <= n <= j
    ensures forall k :: n <= k < j ==> IsSpace(s[k])
    ensures n == lo || !IsSpace(s[n - 1])
  {
    if lo < j && IsSpace(s[j - 1]) then SkipSpacesBack(s, lo, j - 1) else j
  }

  /** `s.trim()`: the slice between the leading and the trailing whitespace. */
  function Trim(s: string): (r: string)
    ensures |r| <= |s|
    ensures r == [] || (!IsSpace(r[0]) && !IsSpace(r[|r| - 1]))
    ensures r == [] <==> forall k :: 0 <= k < |s| ==> IsSpace(s[k])
    ensures exists i, j ::
      && 0 <= i <= j <= |s| && r == s[i..j]
      && (forall k :: 0 <= k < i ==> IsSpace(s[k]))
      && (forall k :: j <= k < |s| ==> IsSpace(s[k]))
  {
    var i := SkipSpaces(s, 0);
    var j := SkipSpacesBack(s, i, |s|);
    s[i..j]
  }

  /** A string with no whitespace at either end is its own trim. */
  lemma TrimFixed(s: string)
    requires s == [] || (!IsSpace(s[0]) && !IsSpace(s[|s| - 1]))
    ensures Trim(s) == s
  {
    if s != [] {
      assert SkipSpaces(s, 0) == 0;
      assert SkipSpacesBack(s, 0, |s|) == |s|;
      assert s[0..|s|] == s;
    }
  }

  /** `trim` is idempotent. */
  lemma TrimIdempotent(s: string)
    ensures Trim(Trim(s)) == Trim(s)
  {
    var t := Trim(s);
    assert t == [] || (!IsSpace(t[0]) && !IsSpace(t[|t| - 1]));
    TrimFixed(t);
  }

  /** `toLowerCase` on one character (ASCII letters only in this model). */
  function LowerChar(c: char): char {
    if 'A' <= c <= 'Z' then (c as int + 32) as char else c
  }

  /** `s.toLowerCase()`. */
  function Lower(s: string): (r: string)
    ensures |r| == |s|
    ensures forall k :: 0 <= k < |r| ==> !('A' <= r[k] <= 'Z')
    ensures forall k :: 0 <= k < |s| && !('A' <= s[k] <= 'Z') ==> r[k] == s[k]
    ensures forall k :: 0 <= k < |s| && 'A' <= s[k] <= 'Z' ==> r[k] as int == s[k] as int + 32
  {
    seq(|s|, i requires 0 <= i < |s| => LowerChar(s[i]))
  }

  /** JavaScript's `a < b` on strings: character by character from the left,
      a proper prefix being smaller. */
  predicate LexLess(a: string, b: string)
    ensures LexLess(a, b) ==> a != b
    ensures a != [] && b != [] && a[0] < b[0] ==> LexLess(a, b)
  {
    if a == [] then b != []
    else if b == [] then false
    else if a[0] != b[0] then a[0] < b[0]
    else LexLess(a[1..], b[1..])
  }

  /** `a` is a proper prefix of `b`. */
  predicate ProperPrefix(a: string, b: string) {
    |a| < |b| && a == b[..|a|]
  }

  /** `a` and `b` agree before position `k`, where `a` has the smaller
      character. */
  predicate FirstDifferenceAt(a: string, b: string, k: nat) {
    k < |a| && k < |b| && a[..k] == b[..k] && a[k] < b[k]
  }

  lemma {:induction false} LexLessFound(a: string, b: string)
    requires LexLess(a, b)
    ensures ProperPrefix(a, b) || exists k: nat :: FirstDifferenceAt(a, b, k)
  {
    if a == [] {
    } else if a[0] != b[0] {
      assert a[..0] == b[..0];
      assert FirstDifferenceAt(a, b, 0);
    } else {
      LexLessFound(a[1..], b[1..]);
      if ProperPrefix(a[1..], b[1..]) {
        assert b[..|a|] == [b[0]] + b[1..][..|a| - 1];
        assert a == [a[0]] + a[1..];
      } else {
        var k: nat :| FirstDifferenceAt(a[1..], b[1..], k);
        assert a[..k + 1] == [a[0]] + a[1..][..k] && b[..k + 1] == [b[0]] + b[1..][..k];
        assert FirstDifferenceAt(a, b, k + 1);
      }
    }
  }

  lemma {:induction false} PrefixLess(a: string, b: string)
    requires ProperPrefix(a, b)
    ensures LexLess(a, b)
  {
    if a != [] {
      assert a[0] == b[0];
      assert a[1..] == b[1..][..|a| - 1];
      PrefixLess(a[1..], b[1..]);
    }
  }

  lemma {:induction false} DifferenceLess(a: string, b: string, k: nat)
    requires FirstDifferenceAt(a, b, k)
    ensures LexLess(a, b)
  {
    if k > 0 {
      assert a[0] == a[..k][0] == b[..k][0] == b[0];
      assert a[1..][..k - 1] == a[1..k] == b[1..k] == b[1..][..k - 1];
      DifferenceLess(a[1..], b[1..], k - 1);
    }
  }

  /** String `<` as JavaScript defines it: `a` is a proper prefix of `b`, or
      at the first position where they differ `a` has the smaller
      character. */
  lemma LexLessFirstDifference(a: string, b: string)
    ensures LexLess(a, b) <==> ProperPrefix(a, b) || exists k: nat :: FirstDifferenceAt(a, b, k)
  {
    if LexLess(a, b) {
      LexLessFound(a, b);
    } else if ProperPrefix(a, b) {
      PrefixLess(a, b);
    } else if k: nat :| FirstDifferenceAt(a, b, k) {
      DifferenceLess(a, b, k);
    }
  }

  /** `a <= b` on strings. */
  predicate LexLeq(a: string, b: string) {
    a == b || LexLess(a, b)
  }

  lemma {:induction false} LexLessIrreflexive(a: string)
    ensures !LexLess(a, a)
  {
    if a != [] {
      LexLessIrreflexive(a[1..]);
    }
  }

  lemma {:induction false} LexLessAsymmetric(a: string, b: string)
    requires LexLess(a, b)
    ensures !LexLess(b, a)
  {
    if a != [] && b != [] && a[0] == b[0] {
      LexLessAsymmetric(a[1..], b[1..]);
    }
  }

  lemma {:induction false} LexLessTransitive(a: string, b: string, c: string)
    requires LexLess(a, b) && LexLess(b, c)
    ensures LexLess(a, c)
  {
    if a != [] && a[0] == b[0] && b[0] == c[0] {
      LexLessTransitive(a[1..], b[1..], c[1..]);
    }
  }

  lemma {:induction false} LexLessTotal(a: string, b: string)
    ensures a == b || LexLess(a, b) || LexLess(b, a)
  {
    if a != [] && b != [] && a[0] == b[0] {
      LexLessTotal(a[1..], b[1..]);
      if a[1..] == b[1..] {
        assert a == [a[0]] + a[1..] && b == [b[0]] + b[1..];
      }
    }
  }

  lemma LexLeqTransitive(a: string, b: string, c: string)
    requires LexLeq(a, b) && LexLeq(b, c)
    ensures LexLeq(a, c)
  {
    if LexLess(a, b) && LexLess(b, c) {
      LexLessTransitive(a, b, c);
    }
  }

  lemma LexLeqTotal(a: string, b: string)
    ensures LexLeq(a, b) || LexLeq(b, a)
  {
    LexLessTotal(a, b);
  }

  /** `s.startsWith(p)`. */
  predicate IsPrefix(p: string, s: string)
    ensures IsPrefix(p, s) <==> |p| <= |s| && forall k :: 0 <= k < |p| ==> s[k] == p[k]
  {
    |p| <= |s| && s[..|p|] == p
  }

  /** `s.endsWith(p)`. */
  predicate IsSuffix(p: string, s: string)
    ensures IsSuffix(p, s) <==> |p| <= |s| && forall k :: 0 <= k < |p| ==> s[|s| - |p| + k] == p[k]
  {
    |p| <= |s| && s[|s| - |p|..] == p
  }

  /** `s.includes(t)`, scanning start positions from the left. */
  predicate Includes(s: string, t: string)
    ensures IsPrefix(t, s) ==> Includes(s, t)
    ensures Includes(s, t) ==> |t| <= |s|
  {
    IsPrefix(t, s) || (s != [] && Includes(s[1..], t))
  }

  /** `includes` holds exactly when `t` starts at some position of `s`. */
  lemma {:induction false} IncludesIffOccurs(s: string, t: string)
    ensures Includes(s, t) <==> exists i :: 0 <= i <= |s| && IsPrefix(t, s[i..])
  {
    if Includes(s, t) {
      if IsPrefix(t, s) {
        assert s[0..] == s;
      } else {
        IncludesIffOccurs(s[1..], t);
        var i :| 0 <= i <= |s[1..]| && IsPrefix(t, s[1..][i..]);
        assert s[1..][i..] == s[i + 1..];
        assert IsPrefix(t, s[i + 1..]);
      }
    }
    if exists i :: 0 <= i <= |s| && IsPrefix(t, s[i..]) {
      var i :| 0 <= i <= |s| && IsPrefix(t, s[i..]);
      if i == 0 {
        assert s[0..] == s;
      } else {
        IncludesIffOccurs(s[1..], t);
        assert s[1..][i - 1..] == s[i..];
        assert Includes(s[1..], t);
      }
    }
  }

  function DigitChar(d: nat): (c: char)
    requires d < 10
    ensures '0' <= c <= '9'
    ensures c as int - '0' as int == d
  {
    "0123456789"[d]
  }

  predicate AllDigits(s: string)
  {
    forall k :: 0 <= k < |s| ==> '0' <= s[k] <= '9'
  }

  /** The number a string of decimal digits denotes, most significant first;
      the empty string denotes 0. */
  function DigitsValue(s: string): nat
    requires AllDigits(s)
  {
    if s == [] then 0 else 10 * DigitsValue(s[..|s| - 1]) + (s[|s| - 1] as int - '0' as int)
  }

  /** Decimal digits of `n`, most significant first. */
  function NatToString(n: nat): (r: string)
    ensures r != []
    ensures r == "0" <==> n == 0
    ensures AllDigits(r)
  {
    if n < 10 then [DigitChar(n)] else NatToString(n / 10) + [DigitChar(n % 10)]
  }

  /** The digits of `NatToString(n)` spell `n`, with no leading zero. */
  lemma {:induction false} NatToStringValue(n: nat)
    ensures DigitsValue(NatToString(n)) == n
    ensures |NatToString(n)| > 1 ==> NatToString(n)[0] != '0'
  {
    var r := NatToString(n);
    if n < 10 {
      assert r[..|r| - 1] == [];
    } else {
      var q := NatToString(n / 10);
      NatToStringValue(n / 10);
      assert r == q + [DigitChar(n % 10)];
      assert r[..|r| - 1] == q;
      assert r[0] == q[0];
      assert q != "0";
    }
  }

  /** `String(n)` for a whole number: never empty, never edged by whitespace,
      with a '-' exactly for negative numbers. */
  function IntToString(n: int): (r: string)
    ensures r != [] && !IsSpace(r[0]) && !IsSpace(r[|r| - 1])
    ensures r[0] == '-' || '0' <= r[0] <= '9'
    ensures r == "0" <==> n == 0
    ensures r[0] == '-' <==> n < 0
  {
    if n < 0 then
      NegativeText(-n);
      "-" + NatToString(-n)
    else
      NonNegativeText(n);
      NatToString(n)
  }

  /** After the sign, the text of `n` is the decimal digits of its magnitude
      with no leading zero. */
  lemma IntToStringValue(n: int)
    ensures var r := IntToString(n);
      && (n < 0 ==> |r| >= 2 && AllDigits(r[1..]) && DigitsValue(r[1..]) == -n && r[1] != '0')
      && (n >= 0 ==> AllDigits(r) && DigitsValue(r) == n && (|r| > 1 ==> r[0] != '0'))
  {
    var r := IntToString(n);
    if n < 0 {
      var d := NatToString(-n);
      assert r == "-" + d;
      assert r[1..] == d;
      NatToStringValue(-n);
      assert DigitsValue(r[1..]) == DigitsValue(d);
      if |d| == 1 {
        assert d == [d[0]];
      }
    } else {
      assert r == NatToString(n);
      NatToStringValue(n);
    }
  }

  lemma SignOrDigitNotSpace(c: char)
    requires c == '-' || '0' <= c <= '9'
    ensures !IsSpace(c)
  {
  }

  /** The text of a non-negative number is its digits, "0" only for 0. */
  lemma NonNegativeText(n: nat)
    ensures var r := NatToString(n);
      && r != [] && !IsSpace(r[0]) && !IsSpace(r[|r| - 1])
      && '0' <= r[0] <= '9' && (r == "0" <==> n == 0)
  {
    var r := NatToString(n);
    SignOrDigitNotSpace(r[0]);
    SignOrDigitNotSpace(r[|r| - 1]);
  }

  /** The text of a negative number: its sign, then the digits of its
      magnitude. */
  lemma NegativeText(m: nat)
    requires m > 0
    ensures var r := "-" + NatToString(m);
      && r != [] && !IsSpace(r[0]) && !IsSpace(r[|r| - 1])
      && r[0] == '-' && r != "0"
  {
    var r := "-" + NatToString(m);
    SignOrDigitNotSpace(r[0]);
    SignOrDigitNotSpace(r[|r| - 1]);
  }
}
