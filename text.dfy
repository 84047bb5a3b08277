/**
 * String helpers shared by the field normalisers and the scraper:
 * Python's `str.isspace`, `str.strip()`, `str.replace(c, '')`, and
 * conversions between natural numbers and runs of ASCII decimal digits.
 */
module Text {

  /** The characters for which Python's `str.isspace()` holds. */
  predicate IsSpace(c: char) {
    || ('\t' <= c <= '\r')
    || ('\U{1C}' <= c <= ' ')
    || c == '\U{85}' || c == '\U{A0}' || c == '\U{1680}'
    || ('\U{2000}' <= c <= '\U{200A}')
    || c == '\U{2028}' || c == '\U{2029}' || c == '\U{202F}' || c == '\U{205F}' || c == '\U{3000}'
  }

  predicate AllSpace(s: string) {
    forall k :: 0 <= k < |s| ==> IsSpace(s[k])
  }

  /** Number of whitespace characters at the start of `s`. */
  function LeadingSpaces(s: string): (n: nat)
    ensures n <= |s|
    ensures AllSpace(s[..n])
    ensures n < |s| ==> !IsSpace(s[n])
  {
    if s == [] || !IsSpace(s[0]) then 0
    else
      var n := LeadingSpaces(s[1..]);
      assert s[..1 + n] == [s[0]] + s[1..][..n];
      1 + n
  }

  /**
   * Python's `s.strip()`: leading whitespace is dropped one character at a
   * time, then trailing whitespace, until both ends are other characters.
   */
  function Strip(s: string): (r: string)
    ensures |r| <= |s|
    ensures r != [] ==> !IsSpace(r[0]) && !IsSpace(r[|r| - 1])
    decreases |s|
  {
    if s != [] && IsSpace(s[0]) then Strip(s[1..])
    else if s != [] && IsSpace(s[|s| - 1]) then Strip(s[..|s| - 1])
    else s
  }

  /** The stripped text is a slice of `s` with only whitespace before and after it. */
  lemma {:induction false} StripSlice(s: string)
    ensures exists i, j :: 0 <= i <= j <= |s| && Strip(s) == s[i..j] && AllSpace(s[..i]) && AllSpace(s[j..])
    decreases |s|
  {
    if s != [] && IsSpace(s[0]) {
      var t := s[1..];
      StripSlice(t);
      var i, j :| 0 <= i <= j <= |t| && Strip(t) == t[i..j] && AllSpace(t[..i]) && AllSpace(t[j..]);
      SliceBehindSpace(s, i, j);
      assert Strip(s) == s[i + 1..j + 1];
    } else if s != [] && IsSpace(s[|s| - 1]) {
      var t := s[..|s| - 1];
      StripSlice(t);
      var i, j :| 0 <= i <= j <= |t| && Strip(t) == t[i..j] && AllSpace(t[..i]) && AllSpace(t[j..]);
      SliceBeforeSpace(s, i, j);
      assert Strip(s) == s[i..j];
    } else {
      assert s[..0] == [] && s[|s|..] == [] && s[0..|s|] == s;
    }
  }

  lemma SliceBehindSpace(s: string, i: nat, j: nat)
    requires s != [] && IsSpace(s[0]) && i <= j <= |s| - 1
    requires AllSpace(s[1..][..i]) && AllSpace(s[1..][j..])
    ensures AllSpace(s[..i + 1])
    ensures AllSpace(s[j + 1..])
    ensures s[i + 1..j + 1] == s[1..][i..j]
  {
    var t := s[1..];
    var p := s[..i + 1];
    var u := t[..i];
    forall k | 0 <= k < |p|
      ensures IsSpace(p[k])
    {
      if k == 0 {
        assert p[k] == s[0];
      } else {
        assert p[k] == u[k - 1];
      }
    }
    assert AllSpace(p);
    assert s[j + 1..] == t[j..];
    assert s[i + 1..j + 1] == t[i..j];
  }

  lemma SliceBeforeSpace(s: string, i: nat, j: nat)
    requires s != [] && IsSpace(s[|s| - 1]) && i <= j <= |s| - 1
    requires AllSpace(s[..|s| - 1][..i]) && AllSpace(s[..|s| - 1][j..])
    ensures AllSpace(s[..i])
    ensures AllSpace(s[j..])
    ensures s[i..j] == s[..|s| - 1][i..j]
  {
    var t := s[..|s| - 1];
    var q := s[j..];
    var v := t[j..];
    forall k | 0 <= k < |q|
      ensures IsSpace(q[k])
    {
      if k == |q| - 1 {
        assert q[k] == s[|s| - 1];
      } else {
        assert q[k] == v[k];
      }
    }
    assert AllSpace(q);
    assert s[..i] == t[..i];
    assert s[i..j] == t[i..j];
  }

  /** Stripping leaves nothing exactly when `s` is all whitespace. */
  lemma {:induction false} StripEmpty(s: string)
    ensures Strip(s) == [] <==> AllSpace(s)
    decreases |s|
  {
    if s != [] && IsSpace(s[0]) {
      StripEmpty(s[1..]);
      assert forall k :: 1 <= k < |s| ==> s[k] == s[1..][k - 1];
    } else if s != [] && IsSpace(s[|s| - 1]) {
      StripEmpty(s[..|s| - 1]);
      assert forall k :: 0 <= k < |s| - 1 ==> s[k] == s[..|s| - 1][k];
    }
  }

  /** Stripping a string that neither starts nor ends with whitespace changes nothing. */
  lemma StripUnchanged(s: string)
    requires s != [] ==> !IsSpace(s[0]) && !IsSpace(s[|s| - 1])
    ensures Strip(s) == s
  {
  }

  /** Stripping removes whitespace only: every other character of `s` is kept. */
  lemma {:induction false} StripKeeps(s: string, x: char)
    requires x in s && !IsSpace(x)
    ensures x in Strip(s)
    decreases |s|
  {
    if s != [] && IsSpace(s[0]) {
      var k :| 0 <= k < |s| && s[k] == x;
      assert s[1..][k - 1] == x;
      StripKeeps(s[1..], x);
    } else if s != [] && IsSpace(s[|s| - 1]) {
      var k :| 0 <= k < |s| && s[k] == x;
      assert s[..|s| - 1][k] == x;
      StripKeeps(s[..|s| - 1], x);
    }
  }

  /** Stripping adds nothing: every character of the result comes from `s`. */
  lemma {:induction false} StripFrom(s: string, x: char)
    requires x in Strip(s)
    ensures x in s
    decreases |s|
  {
    if s != [] && IsSpace(s[0]) {
      StripFrom(s[1..], x);
    } else if s != [] && IsSpace(s[|s| - 1]) {
      StripFrom(s[..|s| - 1], x);
    }
  }

  /** The leading whitespace of `gap + p` is `gap` when `p` starts with something else. */
  lemma LeadingSpacesOf(gap: string, p: string)
    requires AllSpace(gap)
    requires p != [] && !IsSpace(p[0])
    ensures LeadingSpaces(gap + p) == |gap|
  {
    var s := gap + p;
    assert s[|gap|] == p[0];
    assert s[..|gap|] == gap;
  }

  /** Python's `s.replace(c, '')`: every occurrence of `c` removed, the rest kept in order. */
  function RemoveChar(s: string, c: char): (r: string)
    ensures |r| <= |s|
  {
    if s == [] then []
    else (if s[0] == c then [] else [s[0]]) + RemoveChar(s[1..], c)
  }

  /** A character survives the removal iff it occurs in `s` and is not `c`. */
  lemma {:induction false} RemoveCharMembers(s: string, c: char, x: char)
    ensures x in RemoveChar(s, c) <==> x in s && x != c
  {
    if s != [] {
      RemoveCharMembers(s[1..], c, x);
      assert s == [s[0]] + s[1..];
    }
  }

  /** Removal works piecewise: what is removed from one part does not depend on the other. */
  lemma {:induction false} RemoveCharAppend(a: string, b: string, c: char)
    ensures RemoveChar(a + b, c) == RemoveChar(a, c) + RemoveChar(b, c)
  {
    if a != [] {
      var h := if a[0] == c then [] else [a[0]];
      assert (a + b)[0] == a[0] && (a + b)[1..] == a[1..] + b;
      calc {
        RemoveChar(a + b, c);
        h + RemoveChar(a[1..] + b, c);
        { RemoveCharAppend(a[1..], b, c); }
        h + (RemoveChar(a[1..], c) + RemoveChar(b, c));
        (h + RemoveChar(a[1..], c)) + RemoveChar(b, c);
      }
    } else {
      assert a + b == b;
    }
  }

  /** Removing a character that does not occur changes nothing. */
  lemma {:induction false} RemoveCharAbsent(s: string, c: char)
    requires c !in s
    ensures RemoveChar(s, c) == s
  {
    if s != [] {
      assert c !in s[1..];
      RemoveCharAbsent(s[1..], c);
    }
  }

  predicate IsDigit(c: char) { '0' <= c <= '9' }

  predicate AllDigits(s: string) {
    forall k :: 0 <= k < |s| ==> IsDigit(s[k])
  }

  function DigitValue(c: char): (d: nat)
    requires IsDigit(c)
    ensures d < 10
  {
    c as int - '0' as int
  }

  function DigitChar(d: nat): (c: char)
    requires d < 10
    ensures IsDigit(c) && DigitValue(c) == d
  {
    ('0' as int + d) as char
  }

  function Pow10(n: nat): (p: nat)
    ensures p >= 1
  {
    if n == 0 then 1 else 10 * Pow10(n - 1)
  }

  /** The number a run of decimal digits denotes, most significant digit first. */
  function Value(s: string): nat
    requires AllDigits(s)
  {
    if s == [] then 0 else 10 * Value(s[..|s| - 1]) + DigitValue(s[|s| - 1])
  }

  lemma ValueOfTwo(t: string)
    requires |t| == 2 && AllDigits(t)
    ensures Value(t) == 10 * DigitValue(t[0]) + DigitValue(t[1])
  {
    var h := t[..1];
    assert Value(t) == 10 * Value(h) + DigitValue(t[1]);
    assert h[..0] == [];
    assert Value(h) == DigitValue(h[0]);
  }

  /** `n` written with exactly `w` decimal digits, zero-padded on the left (the low `w` digits when `n` is wider). */
  function Digits(n: nat, w: nat): (r: string)
    ensures |r| == w
    ensures AllDigits(r)
    ensures n < Pow10(w) ==> Value(r) == n
  {
    if w == 0 then []
    else
      var r := Digits(n / 10, w - 1) + [DigitChar(n % 10)];
      assert r[..|r| - 1] == Digits(n / 10, w - 1);
      r
  }

  /** Two digits are the tens digit and the units digit. */
  lemma TwoDigits(n: nat)
    requires n < 100
    ensures Digits(n, 2) == [DigitChar(n / 10), DigitChar(n % 10)]
  {
    assert Digits(n / 10, 1) == Digits(n / 100, 0) + [DigitChar(n / 10 % 10)];
  }

  /** Reading `w` digits back gives `Digits` as their padded rendering. */
  lemma {:induction false} DigitsOfValue(s: string)
    requires AllDigits(s)
    ensures Digits(Value(s), |s|) == s
  {
    if s != [] {
      var t := s[..|s| - 1];
      DigitsOfValue(t);
      var v := Value(s);
      assert v / 10 == Value(t) && v % 10 == DigitValue(s[|s| - 1]);
      assert DigitChar(v % 10) == s[|s| - 1];
      assert s == t + [s[|s| - 1]];
    }
  }
  /** Length of the run of decimal digits at the start of `u`. */
  function DigitRun(u: string): (n: nat)
    ensures n <= |u|
    ensures AllDigits(u[..n])
    ensures n < |u| ==> !IsDigit(u[n])
  {
    if u == [] || !IsDigit(u[0]) then 0
    else
      var n := DigitRun(u[1..]);
      assert u[..1 + n] == [u[0]] + u[1..][..n];
      1 + n
  }

  /** The digit run stops at the first character that is not a digit. */
  lemma DigitRunOf(ds: string, rest: string)
    requires AllDigits(ds)
    requires rest != [] && !IsDigit(rest[0])
    ensures DigitRun(ds + rest) == |ds|
  {
    var u := ds + rest;
    assert u[|ds|] == rest[0];
    assert forall k :: 0 <= k < |ds| ==> u[k] == ds[k];
  }

  /** Position of the first `x` in `s`, or |s| when there is none. */
  function FirstIndex(s: string, x: char): (i: nat)
    ensures i <= |s|
    ensures x !in s[..i]
    ensures i < |s| ==> s[i] == x
  {
    if s == [] then 0
    else if s[0] == x then 0
    else
      var i := FirstIndex(s[1..], x);
      assert s[..1 + i] == [s[0]] + s[1..][..i];
      1 + i
  }

  /** In `a + [x] + b`, with no `x` in `a`, the first `x` is the one after `a`. */
  lemma FirstIndexAfter(a: string, x: char, b: string)
    requires x !in a
    ensures FirstIndex(a + ([x] + b), x) == |a|
  {
    var s := a + ([x] + b);
    var i := FirstIndex(s, x);
    assert s[|a|] == x;
    assert s[..|a|] == a;
  }
}
