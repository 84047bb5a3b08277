/**
 * format_time (utils.py): parse a 12-hour clock reading the way
 * `datetime.strptime(s, '%I:%M %p')` does and print it as `%H:%M`; text
 * that does not parse is returned as it is. The accepted shape is an hour
 * `1[0-2]|0[1-9]|[1-9]`, a colon, a minute `[0-5][0-9]|[0-9]`, one or more
 * whitespace characters and `AM` or `PM` in any letter case, with nothing
 * after it.
 */
module Clock {
  import opened Wrappers
  import opened Text

  /** A 12-hour clock reading: hour 1..12, minute 0..59, and the meridiem. */
  datatype Clock12 = Clock12(hour: nat, minute: nat, pm: bool)

  predicate ValidClock12(c: Clock12) {
    1 <= c.hour <= 12 && c.minute < 60
  }

  /** `%I`: `1[0-2]`, `0[1-9]` or a single `[1-9]`. */
  function HourToken(t: string): (r: Option<nat>)
    ensures r.Some? ==> 1 <= r.value <= 12
    ensures r.Some? ==> 1 <= |t| <= 2 && AllDigits(t) && r.value == Value(t)
  {
    if |t| == 1 && '1' <= t[0] <= '9' then
      assert t[..0] == [];
      Some(DigitValue(t[0]))
    else if |t| == 2 && ((t[0] == '1' && '0' <= t[1] <= '2') || (t[0] == '0' && '1' <= t[1] <= '9')) then
      ValueOfTwo(t);
      Some(Value(t))
    else None
  }

  /** `%M`: `[0-5][0-9]` or a single digit. */
  function MinuteToken(t: string): (r: Option<nat>)
    ensures r.Some? ==> r.value < 60
    ensures r.Some? ==> 1 <= |t| <= 2 && AllDigits(t) && r.value == Value(t)
  {
    if |t| == 1 && IsDigit(t[0]) then
      assert t[..0] == [];
      Some(DigitValue(t[0]))
    else if |t| == 2 && '0' <= t[0] <= '5' && IsDigit(t[1]) then
      ValueOfTwo(t);
      Some(Value(t))
    else None
  }

  /** `%p`: `am` or `pm` in any letter case; true for PM. */
  function Meridiem(t: string): (r: Option<bool>)
    ensures r.Some? ==> |t| == 2
  {
    if |t| == 2 && (t[1] == 'm' || t[1] == 'M') then
      if t[0] == 'a' || t[0] == 'A' then Some(false)
      else if t[0] == 'p' || t[0] == 'P' then Some(true)
      else None
    else None
  }

  /** `\s+%p`: a non-empty run of whitespace, then the meridiem. */
  function SpacedMeridiem(t: string): (r: Option<bool>)
    ensures r.Some? ==> |t| >= 3
  {
    var w := LeadingSpaces(t);
    if w > 0 then Meridiem(t[w..]) else None
  }

  /**
   * What follows the colon: the minute is the run of digits that starts
   * there (a longer run cannot be a minute and a shorter one leaves a digit
   * where whitespace must follow), then whitespace and the meridiem.
   */
  function MinuteAndMeridiem(t: string): (r: Option<(nat, bool)>)
    ensures r.Some? ==> r.value.0 < 60 && |t| >= 4
  {
    var m := DigitRun(t);
    var minute := MinuteToken(t[..m]);
    var meridiem := SpacedMeridiem(t[m..]);
    if minute.Some? && meridiem.Some? then Some((minute.value, meridiem.value)) else None
  }

  /**
   * The match of the whole string against hour, `:`, minute, whitespace,
   * meridiem. No hour token contains a colon, so the colon is the first one.
   */
  function ParseClock12(s: string): (r: Option<Clock12>)
    ensures r.Some? ==> ValidClock12(r.value)
  {
    var i := FirstIndex(s, ':');
    if i == |s| then None
    else
      var hour := HourToken(s[..i]);
      var tail := MinuteAndMeridiem(s[i + 1..]);
      if hour.Some? && tail.Some? then Some(Clock12(hour.value, tail.value.0, tail.value.1)) else None
  }

  /** Anything that parses has at least six characters: `h:m` + space + `AM`. */
  lemma ParsedLength(s: string)
    requires ParseClock12(s).Some?
    ensures |s| >= 6
  {
    var i := FirstIndex(s, ':');
    assert HourToken(s[..i]).Some? && MinuteAndMeridiem(s[i + 1..]).Some?;
  }

  /** The hour of the 24-hour clock: 12 AM is 0, 12 PM is 12, other PM hours gain 12. */
  function To24(c: Clock12): (h: nat)
    requires ValidClock12(c)
    ensures h < 24
    ensures c.pm <==> h >= 12
  {
    if c.pm then (if c.hour == 12 then 12 else c.hour + 12)
    else (if c.hour == 12 then 0 else c.hour)
  }

  /** The 12-hour reading of a 24-hour hour and minute. */
  function From24(h: nat, minute: nat): (c: Clock12)
    requires h < 24 && minute < 60
    ensures ValidClock12(c)
  {
    if h == 0 then Clock12(12, minute, false)
    else if h < 12 then Clock12(h, minute, false)
    else if h == 12 then Clock12(12, minute, true)
    else Clock12(h - 12, minute, true)
  }

  /** The conversion is a bijection between 12-hour readings and hours 0..23. */
  lemma To24Bijective(c: Clock12, h: nat)
    requires ValidClock12(c) && h < 24
    ensures From24(To24(c), c.minute) == c
    ensures To24(From24(h, c.minute)) == h
  {
  }

  /** `%H:%M` */
  function Show24(h: nat, minute: nat): (s: string)
    requires h < 24 && minute < 60
    ensures |s| == 5 && s[2] == ':'
    ensures AllDigits(s[..2]) && AllDigits(s[3..])
    ensures Value(s[..2]) == h && Value(s[3..]) == minute
  {
    var s := Digits(h, 2) + ":" + Digits(minute, 2);
    assert s[..2] == Digits(h, 2) && s[3..] == Digits(minute, 2);
    assert Pow10(2) == 100;
    s
  }

  /** format_time: the 24-hour rendering of a reading that parses, the input itself otherwise. */
  function FormatTime(s: string): (r: string)
  {
    match ParseClock12(s)
    case Some(c) => Show24(To24(c), c.minute)
    case None => s
  }

  /**
   * A reading that parses becomes five characters `HH:MM` holding its
   * 24-hour hour and its minute; anything else is returned unchanged, and
   * only then is the output equal to the input.
   */
  lemma FormatTimeSpec(s: string)
    ensures ParseClock12(s).Some? ==>
      var c := ParseClock12(s).value;
      var r := FormatTime(s);
      |r| == 5 && r[2] == ':' && AllDigits(r[..2]) && AllDigits(r[3..])
      && Value(r[..2]) == To24(c) < 24 && Value(r[3..]) == c.minute
    ensures ParseClock12(s).None? ==> FormatTime(s) == s
    ensures FormatTime(s) == s <==> ParseClock12(s).None?
  {
    if ParseClock12(s).Some? {
      ParsedLength(s);
    }
  }

  /** Formatting twice is formatting once: the output never carries AM or PM. */
  lemma FormatTimeIdempotent(s: string)
    ensures FormatTime(FormatTime(s)) == FormatTime(s)
  {
    var r := FormatTime(s);
    if ParseClock12(s).Some? {
      if ParseClock12(r).Some? {
        ParsedLength(r);
      }
    }
  }

  /**
   * `%I:%M %p` when `padded`, the canonical 12-hour text of a reading;
   * otherwise hours below 10 are written with one digit, as in "1:05 PM".
   */
  function Show12(c: Clock12, padded: bool): string
    requires ValidClock12(c)
  {
    Digits(c.hour, if padded || c.hour >= 10 then 2 else 1)
    + (":" + (Digits(c.minute, 2) + (" " + (if c.pm then "PM" else "AM"))))
  }

  /**
   * Every string of the accepted shape parses: an hour token, a colon, a
   * minute token, a non-empty run of whitespace and a meridiem.
   */
  lemma ParseShape(hh: string, mm: string, gap: string, p: string)
    requires HourToken(hh).Some? && MinuteToken(mm).Some? && Meridiem(p).Some?
    requires gap != [] && AllSpace(gap)
    ensures ParseClock12(hh + ([':'] + (mm + (gap + p))))
         == Some(Clock12(HourToken(hh).value, MinuteToken(mm).value, Meridiem(p).value))
  {
    var rest := mm + (gap + p);
    var s := hh + ([':'] + rest);
    assert ':' !in hh by {
      assert forall k :: 0 <= k < |hh| ==> IsDigit(hh[k]);
    }
    FirstIndexAfter(hh, ':', rest);
    assert s[..|hh|] == hh && s[|hh| + 1..] == rest;
    MinuteShape(mm, gap, p);
  }

  /** A string with a colon at `i` is its three cuts after the colon put back together. */
  lemma CutAfterColon(s: string, i: nat, m: nat, w: nat)
    requires i < |s| && s[i] == ':'
    requires m <= |s| - i - 1 && w <= |s| - i - 1 - m
    ensures s == s[..i] + ([':'] + (s[i + 1..][..m] + (s[i + 1..][m..][..w] + s[i + 1..][m..][w..])))
  {
    var t := s[i + 1..];
    var u := t[m..];
    assert u == u[..w] + u[w..];
    assert t == t[..m] + u;
    assert s == s[..i] + ([':'] + t);
  }

  /** The four parts of a text that parses, cut where the parser cuts it. */
  lemma ParseParts(s: string) returns (hh: string, mm: string, gap: string, p: string)
    requires ParseClock12(s).Some?
    ensures HourToken(hh).Some? && MinuteToken(mm).Some? && Meridiem(p).Some?
    ensures gap != [] && AllSpace(gap)
    ensures s == hh + ([':'] + (mm + (gap + p)))
    ensures ParseClock12(s).value == Clock12(HourToken(hh).value, MinuteToken(mm).value, Meridiem(p).value)
  {
    var i := FirstIndex(s, ':');
    var t := s[i + 1..];
    hh := s[..i];
    var m := DigitRun(t);
    var u := t[m..];
    mm := t[..m];
    var w := LeadingSpaces(u);
    gap, p := u[..w], u[w..];
    CutAfterColon(s, i, m, w);
  }

  /**
   * Only strings of that shape parse: a text that parses is an hour token, a
   * colon, a minute token, a non-empty run of whitespace and a meridiem,
   * with nothing after it, and its reading is theirs.
   */
  lemma ParseSound(s: string)
    requires ParseClock12(s).Some?
    ensures exists hh, mm, gap, p ::
              HourToken(hh).Some? && MinuteToken(mm).Some? && Meridiem(p).Some?
              && gap != [] && AllSpace(gap)
              && s == hh + ([':'] + (mm + (gap + p)))
              && ParseClock12(s).value == Clock12(HourToken(hh).value, MinuteToken(mm).value, Meridiem(p).value)
  {
    var hh, mm, gap, p := ParseParts(s);
  }

  lemma MinuteShape(mm: string, gap: string, p: string)
    requires MinuteToken(mm).Some? && Meridiem(p).Some?
    requires gap != [] && AllSpace(gap)
    ensures MinuteAndMeridiem(mm + (gap + p)) == Some((MinuteToken(mm).value, Meridiem(p).value))
  {
    var after := gap + p;
    var rest := mm + after;
    assert after[0] == gap[0];
    DigitRunOf(mm, after);
    assert rest[..|mm|] == mm && rest[|mm|..] == after;
    SpacedShape(gap, p);
  }

  lemma SpacedShape(gap: string, p: string)
    requires Meridiem(p).Some?
    requires gap != [] && AllSpace(gap)
    ensures SpacedMeridiem(gap + p) == Meridiem(p)
  {
    LeadingSpacesOf(gap, p);
    assert (gap + p)[|gap|..] == p;
  }

  lemma HourTokenOfDigits(h: nat, width: nat)
    requires 1 <= h <= 12
    requires width == 2 || (width == 1 && h < 10)
    ensures HourToken(Digits(h, width)) == Some(h)
  {
    var hh := Digits(h, width);
    assert Pow10(1) == 10 && Pow10(2) == 100;
    if width == 2 {
      ValueOfTwo(hh);
    } else {
      assert hh[..0] == [];
    }
  }

  lemma MinuteTokenOfDigits(m: nat)
    requires m < 60
    ensures MinuteToken(Digits(m, 2)) == Some(m)
  {
    var mm := Digits(m, 2);
    assert Pow10(2) == 100;
    ValueOfTwo(mm);
  }

  /** Parsing either text gives the reading back. */
  lemma Show12RoundTrip(c: Clock12, padded: bool)
    requires ValidClock12(c)
    ensures ParseClock12(Show12(c, padded)) == Some(c)
  {
    var width := if padded || c.hour >= 10 then 2 else 1;
    HourTokenOfDigits(c.hour, width);
    MinuteTokenOfDigits(c.minute);
    ParseShape(Digits(c.hour, width), Digits(c.minute, 2), " ", if c.pm then "PM" else "AM");
  }

  /** format_time of either text is the 24-hour text of the same reading. */
  lemma FormatShow12(c: Clock12, padded: bool)
    requires ValidClock12(c)
    ensures FormatTime(Show12(c, padded)) == Show24(To24(c), c.minute)
  {
    Show12RoundTrip(c, padded);
  }

  lemma AfternoonParse()
    ensures ParseClock12("1:05 PM") == Some(Clock12(1, 5, true))
  {
    assert "1" + ([':'] + ("05" + (" " + "PM"))) == "1:05 PM";
    ValueOfTwo("05");
    assert HourToken("1") == Some(1);
    assert MinuteToken("05") == Some(5);
    assert Meridiem("PM") == Some(true);
    ParseShape("1", "05", " ", "PM");
  }

  lemma AfternoonText()
    ensures Show24(13, 5) == "13:05"
  {
    TwoDigits(13);
    TwoDigits(5);
    assert DigitChar(0) == '0' && DigitChar(1) == '1' && DigitChar(3) == '3' && DigitChar(5) == '5';
    assert Digits(13, 2) == "13" && Digits(5, 2) == "05";
  }

  /** "1:05 PM" is "13:05". */
  lemma AfternoonExample()
    ensures FormatTime("1:05 PM") == "13:05"
  {
    AfternoonParse();
    AfternoonText();
  }

  lemma MidnightParse()
    ensures ParseClock12("12:30 am") == Some(Clock12(12, 30, false))
  {
    assert "12" + ([':'] + ("30" + (" " + "am"))) == "12:30 am";
    ValueOfTwo("12");
    ValueOfTwo("30");
    assert HourToken("12") == Some(12);
    assert MinuteToken("30") == Some(30);
    assert Meridiem("am") == Some(false);
    ParseShape("12", "30", " ", "am");
  }

  lemma MidnightText()
    ensures Show24(0, 30) == "00:30"
  {
    TwoDigits(0);
    TwoDigits(30);
    assert DigitChar(0) == '0' && DigitChar(3) == '3';
    assert Digits(0, 2) == "00" && Digits(30, 2) == "30";
  }

  /** "12:30 am" is half past midnight, "00:30". */
  lemma MidnightExample()
    ensures FormatTime("12:30 am") == "00:30"
  {
    MidnightParse();
    MidnightText();
  }

  /** Text without a colon, such as "garbage", passes through. */
  lemma GarbageExample()
    ensures FormatTime("garbage") == "garbage"
  {
    assert ':' !in "garbage";
    assert FirstIndex("garbage", ':') == 7;
  }
}
