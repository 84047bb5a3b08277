/**
 * format_price (utils.py): remove every `$` and `,`, strip whitespace, and
 * read what is left as a decimal number; anything unreadable becomes the
 * sentinel `Invalid` (Python's `float('inf')`), which orders after every
 * finite price. Amounts are exact rationals over a restricted decimal
 * grammar: an optional sign, then digits with at most one decimal point and
 * at least one digit.
 */
module Prices {
  import opened Wrappers
  import opened Text

  datatype Price = Finite(amount: real) | Invalid

  /** Ascending price order; `Invalid` is the greatest element, as infinity is among floats. */
  predicate LessEq(a: Price, b: Price) {
    b.Invalid? || (a.Finite? && a.amount <= b.amount)
  }

  lemma LessEqIsTotalOrder(a: Price, b: Price, c: Price)
    ensures LessEq(a, a)
    ensures LessEq(a, b) || LessEq(b, a)
    ensures LessEq(a, b) && LessEq(b, a) ==> a == b
    ensures LessEq(a, b) && LessEq(b, c) ==> LessEq(a, c)
  {
  }

  /** Every finite price sorts strictly before the sentinel. */
  lemma InvalidIsGreatest(x: real)
    ensures LessEq(Finite(x), Invalid) && !LessEq(Invalid, Finite(x))
  {
  }

  /** The characters a number in the grammar may contain. */
  predicate IsNumberChar(c: char) {
    IsDigit(c) || c == '.' || c == '+' || c == '-'
  }

  /** A string holds at most one decimal point. */
  predicate AtMostOnePoint(t: string) {
    forall i, j :: 0 <= i < j < |t| && t[i] == '.' ==> t[j] != '.'
  }

  /** An unsigned decimal: `d+`, `d+.`, `d+.d+` or `.d+`, read exactly. */
  function ParseUnsigned(u: string): Option<real>
  {
    var w := DigitRun(u);
    if w == |u| then
      if w > 0 then Some(Value(u) as real) else None
    else if u[w] != '.' then None
    else
      var f := u[w + 1..];
      if !AllDigits(f) || (w == 0 && f == []) then None
      else Some(Decimal(Value(u[..w]), Value(f), |f|))
  }

  /** The exact value of `whole.fraction` where the fraction has `places` digits. */
  function Decimal(whole: nat, fraction: nat, places: nat): real
  {
    whole as real + fraction as real / Pow10(places) as real
  }

  /** The decimal grammar with an optional leading `+` or `-`. */
  function ParseDecimal(t: string): Price
  {
    if t != [] && (t[0] == '+' || t[0] == '-') then
      match ParseUnsigned(t[1..])
      case None => Invalid
      case Some(v) => Finite(if t[0] == '-' then -v else v)
    else
      match ParseUnsigned(t)
      case None => Invalid
      case Some(v) => Finite(v)
  }

  /** What ParseUnsigned accepts: digits and one point at most, with a digit somewhere, read as a non-negative value. */
  lemma ParseUnsignedSound(u: string)
    requires ParseUnsigned(u).Some?
    ensures ParseUnsigned(u).value >= 0.0
    ensures forall k :: 0 <= k < |u| ==> IsDigit(u[k]) || u[k] == '.'
    ensures AtMostOnePoint(u)
    ensures exists k :: 0 <= k < |u| && IsDigit(u[k])
  {
    var w := DigitRun(u);
    if w == |u| {
      assert u[..w] == u;
      assert IsDigit(u[0]);
    } else {
      var f := u[w + 1..];
      forall k | 0 <= k < |u| && k != w ensures IsDigit(u[k]) {
        if k < w { assert u[..w][k] == u[k]; } else { assert f[k - w - 1] == u[k]; }
      }
      if w > 0 { assert IsDigit(u[0]); } else { assert IsDigit(u[1]); }
    }
  }

  /**
   * What ParseDecimal accepts: digits, points and signs only, a sign only in
   * front, at most one point and at least one digit; the value is
   * non-negative unless the text starts with `-`.
   */
  lemma ParseDecimalSound(t: string)
    requires ParseDecimal(t).Finite?
    ensures forall k :: 0 <= k < |t| ==> IsNumberChar(t[k])
    ensures forall k :: 0 < k < |t| ==> t[k] != '+' && t[k] != '-'
    ensures AtMostOnePoint(t)
    ensures exists k :: 0 <= k < |t| && IsDigit(t[k])
    ensures t == [] || t[0] != '-' ==> ParseDecimal(t).amount >= 0.0
  {
    if t != [] && (t[0] == '+' || t[0] == '-') {
      var u := t[1..];
      ParseUnsignedSound(u);
      assert forall k :: 1 <= k < |t| ==> t[k] == u[k - 1];
      var k :| 0 <= k < |u| && IsDigit(u[k]);
      assert t[k + 1] == u[k];
    } else {
      ParseUnsignedSound(t);
    }
  }

  /** What format_price hands to `float()`: the text without `$` and `,`, stripped. */
  function Clean(s: string): (c: string)
    ensures |c| <= |s|
    ensures c != [] ==> !IsSpace(c[0]) && !IsSpace(c[|c| - 1])
  {
    Strip(RemoveChar(RemoveChar(s, '$'), ','))
  }

  /** Cleaning keeps every character except `$`, `,` and whitespace, and adds none. */
  lemma CleanMembers(s: string, x: char)
    ensures x in Clean(s) ==> x in s && x != '$' && x != ','
    ensures x in s && x != '$' && x != ',' && !IsSpace(x) ==> x in Clean(s)
  {
    var t0 := RemoveChar(s, '$');
    var t := RemoveChar(t0, ',');
    RemoveCharMembers(s, '$', x);
    RemoveCharMembers(t0, ',', x);
    if x in Clean(s) { StripFrom(t, x); }
    if x in t && !IsSpace(x) { StripKeeps(t, x); }
  }

  /** format_price on a string: the sentinel whenever the cleaned text is not a decimal. */
  function FormatPrice(s: string): Price
  {
    ParseDecimal(Clean(s))
  }

  /**
   * A finite price means the text held a digit and nothing but digits,
   * points, signs, `$`, `,` and whitespace (so "free" is `Invalid`); with no
   * `-` anywhere it is not negative.
   */
  lemma FormatPriceSound(s: string)
    requires FormatPrice(s).Finite?
    ensures forall k :: 0 <= k < |s| && !IsSpace(s[k]) ==> IsNumberChar(s[k]) || s[k] == '$' || s[k] == ','
    ensures exists k :: 0 <= k < |s| && IsDigit(s[k])
    ensures '-' !in s ==> FormatPrice(s).amount >= 0.0
  {
    var c := Clean(s);
    ParseDecimalSound(c);
    forall k | 0 <= k < |s| && !IsSpace(s[k]) && s[k] != '$' && s[k] != ','
      ensures IsNumberChar(s[k])
    {
      CleanMembers(s, s[k]);
    }
    var k :| 0 <= k < |c| && IsDigit(c[k]);
    CleanMembers(s, c[k]);
    if c != [] { CleanMembers(s, c[0]); }
  }

  /** Thousands separators every three digits from the right. */
  function Group(ds: string): (r: string)
    ensures r == [] <==> ds == []
    ensures ds != [] ==> r[0] == ds[0] && r[|r| - 1] == ds[|ds| - 1]
    decreases |ds|
  {
    if |ds| <= 3 then ds
    else Group(ds[..|ds| - 3]) + "," + ds[|ds| - 3..]
  }

  lemma {:induction false} UngroupGroup(ds: string)
    requires ',' !in ds
    ensures RemoveChar(Group(ds), ',') == ds
    decreases |ds|
  {
    if |ds| <= 3 {
      RemoveCharAbsent(ds, ',');
    } else {
      var hi, lo := ds[..|ds| - 3], ds[|ds| - 3..];
      assert ds == hi + lo;
      UngroupGroup(hi);
      var g := Group(hi);
      RemoveCharAppend(g + ",", lo, ',');
      RemoveCharAppend(g, ",", ',');
      RemoveCharAbsent(lo, ',');
      assert RemoveChar(",", ',') == [];
      calc {
        RemoveChar(Group(ds), ',');
        RemoveChar(g + "," + lo, ',');
        RemoveChar(g + ",", ',') + RemoveChar(lo, ',');
        (RemoveChar(g, ',') + RemoveChar(",", ',')) + lo;
        { assert RemoveChar(g, ',') == hi; }
        (hi + []) + lo;
        { assert hi + [] == hi; }
        hi + lo;
      }
    }
  }

  /** How a fare is shown: `$`, dollars with thousands separators, a point and two digits of cents. */
  function RenderUsd(dollars: nat, cents: nat, width: nat): string
    requires cents < 100
  {
    "$" + (Group(Digits(dollars, width)) + ("." + Digits(cents, 2)))
  }

  /**
   * Every unsigned decimal of the grammar reads: `d+` as its integer, and
   * `d*.d*` with a digit on either side of the point as whole part plus
   * fraction, exactly.
   */
  lemma ParseUnsignedComplete(d: string, c: string)
    requires AllDigits(d) && AllDigits(c)
    ensures d != [] ==> ParseUnsigned(d) == Some(Value(d) as real)
    ensures d != [] || c != [] ==> ParseUnsigned(d + ("." + c)) == Some(Decimal(Value(d), Value(c), |c|))
  {
    if d != [] {
      assert d[..DigitRun(d)] == d;
    }
    var tail := "." + c;
    var body := d + tail;
    DigitRunOf(d, tail);
    assert body[..|d|] == d && body[|d|] == '.' && body[|d| + 1..] == c;
  }

  /** A leading `+` keeps, and a leading `-` negates, what the unsigned rest reads as. */
  lemma ParseSigned(sign: string, u: string)
    requires sign == "" || sign == "+" || sign == "-"
    requires ParseUnsigned(u).Some?
    ensures ParseDecimal(sign + u) == Finite(Signed(sign, ParseUnsigned(u).value))
  {
    ParseUnsignedSound(u);
    if sign == "" {
      assert sign + u == u;
      assert IsDigit(u[0]) || u[0] == '.';
    } else {
      assert (sign + u)[0] == sign[0] && (sign + u)[1..] == u;
    }
  }

  /** The sign applied to an unsigned amount. */
  function Signed(sign: string, v: real): real {
    if sign == "-" then -v else v
  }

  /** An optionally signed run of digits reads as the integer it spells. */
  lemma ParseSignedDigits(sign: string, d: string)
    requires sign == "" || sign == "+" || sign == "-"
    requires AllDigits(d) && d != []
    ensures ParseDecimal(sign + d) == Finite(Signed(sign, Value(d) as real))
  {
    ParseUnsignedComplete(d, "");
    ParseSigned(sign, d);
  }

  /**
   * An optionally signed `d+.d*` or `.d+` reads as whole part plus fraction,
   * exactly.
   */
  lemma ParseSignedPointed(sign: string, d: string, c: string)
    requires sign == "" || sign == "+" || sign == "-"
    requires AllDigits(d) && AllDigits(c) && (d != [] || c != [])
    ensures ParseDecimal(sign + (d + ("." + c))) == Finite(Signed(sign, Decimal(Value(d), Value(c), |c|)))
  {
    ParseUnsignedComplete(d, c);
    ParseSigned(sign, d + ("." + c));
  }

  /** `digits.digits` reads as whole part plus fraction. */
  lemma ParsePointed(d: string, c: string)
    requires AllDigits(d) && AllDigits(c) && d != []
    ensures ParseDecimal(d + ("." + c)) == Finite(Decimal(Value(d), Value(c), |c|))
  {
    ParseSignedPointed("", d, c);
    assert "" + (d + ("." + c)) == d + ("." + c);
  }

  lemma DropDollar(g: string, tail: string)
    requires '$' !in g && '$' !in tail
    ensures RemoveChar("$" + (g + tail), '$') == g + tail
  {
    RemoveCharAppend("$", g + tail, '$');
    RemoveCharAppend(g, tail, '$');
    RemoveCharAbsent(g, '$');
    RemoveCharAbsent(tail, '$');
    assert RemoveChar("$", '$') == [];
  }

  lemma DropCommas(d: string, tail: string)
    requires ',' !in d && ',' !in tail
    ensures RemoveChar(Group(d) + tail, ',') == d + tail
  {
    UngroupGroup(d);
    RemoveCharAppend(Group(d), tail, ',');
    RemoveCharAbsent(tail, ',');
  }

  /** Digits are neither `$` nor `,`. */
  lemma NoMarks(d: string)
    requires AllDigits(d)
    ensures ',' !in d && '$' !in d
  {
    assert forall k :: 0 <= k < |d| ==> IsDigit(d[k]);
  }

  /** Grouping digits adds only commas. */
  lemma GroupHasNoDollar(d: string)
    requires AllDigits(d)
    ensures '$' !in Group(d)
  {
    NoMarks(d);
    UngroupGroup(d);
    RemoveCharMembers(Group(d), ',', '$');
  }

  /** A point followed by digits holds no `$` and no `,`. */
  lemma PointedHasNoMarks(c: string)
    requires AllDigits(c)
    ensures ',' !in "." + c && '$' !in "." + c
  {
    NoMarks(c);
    assert "." + c == ['.'] + c;
  }

  /** Removing `$` and then `,` from `$`, grouped digits and a tail leaves the digits and the tail. */
  lemma Unmarked(d: string, tail: string)
    requires AllDigits(d) && ',' !in tail && '$' !in tail
    ensures RemoveChar(RemoveChar("$" + (Group(d) + tail), '$'), ',') == d + tail
  {
    NoMarks(d);
    GroupHasNoDollar(d);
    DropDollar(Group(d), tail);
    DropCommas(d, tail);
  }

  /** Cleaning `$`, digits grouped by `,`, a point and more digits leaves the digits and the point. */
  lemma CleanFare(d: string, c: string)
    requires AllDigits(d) && AllDigits(c) && d != [] && c != []
    ensures Clean("$" + (Group(d) + ("." + c))) == d + ("." + c)
  {
    var tail := "." + c;
    PointedHasNoMarks(c);
    Unmarked(d, tail);
    var body := d + tail;
    assert body[0] == d[0] && body[|body| - 1] == c[|c| - 1];
    assert IsDigit(body[0]) && IsDigit(body[|body| - 1]);
    StripUnchanged(body);
  }

  /** A fare written `$`, grouped digits, a point and a fraction reads as exactly that decimal. */
  lemma FareValue(d: string, c: string)
    requires AllDigits(d) && AllDigits(c) && d != [] && c != []
    ensures FormatPrice("$" + (Group(d) + ("." + c))) == Finite(Decimal(Value(d), Value(c), |c|))
  {
    CleanFare(d, c);
    ParsePointed(d, c);
  }

  /** Removing `$` and then `,` from a signed fare keeps the sign in front. */
  lemma SignUnmarked(sign: string, d: string, tail: string)
    requires sign == "" || sign == "+" || sign == "-"
    requires AllDigits(d) && ',' !in tail && '$' !in tail
    ensures RemoveChar(RemoveChar(sign + ("$" + (Group(d) + tail)), '$'), ',') == sign + (d + tail)
  {
    var x := "$" + (Group(d) + tail);
    Unmarked(d, tail);
    RemoveCharAbsent(sign, '$');
    RemoveCharAbsent(sign, ',');
    RemoveCharAppend(sign, x, '$');
    RemoveCharAppend(sign, RemoveChar(x, '$'), ',');
  }

  /** Cleaning a signed fare keeps the sign in front of the digits and the point. */
  lemma CleanSignedFare(sign: string, d: string, c: string)
    requires sign == "" || sign == "+" || sign == "-"
    requires AllDigits(d) && AllDigits(c) && d != [] && c != []
    ensures Clean(sign + ("$" + (Group(d) + ("." + c)))) == sign + (d + ("." + c))
  {
    PointedHasNoMarks(c);
    SignUnmarked(sign, d, "." + c);
    SignedFareStripped(sign, d, c);
  }

  /** A signed fare without marks has no whitespace to strip. */
  lemma SignedFareStripped(sign: string, d: string, c: string)
    requires sign == "" || sign == "+" || sign == "-"
    requires AllDigits(d) && AllDigits(c) && d != [] && c != []
    ensures Strip(sign + (d + ("." + c))) == sign + (d + ("." + c))
  {
    var body := sign + (d + ("." + c));
    assert body[0] == (if sign == "" then d[0] else sign[0]);
    assert body[|body| - 1] == c[|c| - 1];
    assert IsDigit(c[|c| - 1]);
    StripUnchanged(body);
  }

  /**
   * A fare written with an optional sign, `$`, grouped digits, a point and a
   * fraction reads as exactly that signed decimal.
   */
  lemma SignedFareValue(sign: string, d: string, c: string)
    requires sign == "" || sign == "+" || sign == "-"
    requires AllDigits(d) && AllDigits(c) && d != [] && c != []
    ensures FormatPrice(sign + ("$" + (Group(d) + ("." + c))))
         == Finite(Signed(sign, Decimal(Value(d), Value(c), |c|)))
  {
    CleanSignedFare(sign, d, c);
    ParseSignedPointed(sign, d, c);
  }

  /** Reading a rendered fare gives back its exact amount. */
  lemma RenderUsdRoundTrip(dollars: nat, cents: nat, width: nat)
    requires cents < 100
    requires 0 < width && dollars < Pow10(width)
    ensures FormatPrice(RenderUsd(dollars, cents, width)) == Finite(dollars as real + cents as real / 100.0)
  {
    var d, c := Digits(dollars, width), Digits(cents, 2);
    FareValue(d, c);
    assert Value(d) == dollars && Value(c) == cents && |c| == 2;
    CentsPlaces(dollars, cents);
  }

  lemma CentsPlaces(whole: nat, cents: nat)
    ensures Decimal(whole, cents, 2) == whole as real + cents as real / 100.0
  {
    assert Pow10(2) == 100;
    assert Pow10(2) as real == 100.0;
  }

  /** The digits of the example fares. */
  lemma ExampleDigits()
    ensures Group("1234") == "1,234"
    ensures Value("1234") == 1234 && Value("50") == 50
  {
    assert "1234"[..1] == "1" && "1234"[1..] == "234";
    assert "1234"[..3] == "123" && "123"[..2] == "12" && "12"[..1] == "1";
    assert "50"[..1] == "5";
  }

  /** A fare with a thousands separator and cents: "$1,234.50" reads as 1234.5. */
  lemma FormatPriceExample()
    ensures FormatPrice("$1,234.50") == Finite(1234.5)
  {
    ExampleDigits();
    assert "$" + (Group("1234") + ("." + "50")) == "$1,234.50";
    FareValue("1234", "50");
    CentsPlaces(1234, 50);
  }

  /** A refund written "-$1,234.50" reads as -1234.5. */
  lemma NegativeFareExample()
    ensures FormatPrice("-$1,234.50") == Finite(-1234.5)
  {
    ExampleDigits();
    assert "-" + ("$" + (Group("1234") + ("." + "50"))) == "-$1,234.50";
    SignedFareValue("-", "1234", "50");
    CentsPlaces(1234, 50);
  }

  /** A character other than digits, points, signs, `$`, `,` and whitespace makes the price `Invalid`. */
  lemma StrayCharIsInvalid(s: string, k: nat)
    requires k < |s| && !IsSpace(s[k]) && !IsNumberChar(s[k]) && s[k] != '$' && s[k] != ','
    ensures FormatPrice(s) == Invalid
  {
    if FormatPrice(s).Finite? {
      FormatPriceSound(s);
    }
  }

  /** Text with a letter in it, such as "free", is not a price. */
  lemma FreeIsInvalid()
    ensures FormatPrice("free") == Invalid
  {
    StrayCharIsInvalid("free", 0);
  }
}
