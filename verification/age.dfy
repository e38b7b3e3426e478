/**
 * `QueueDialog::fmt_age` and the highlight rule.
 *
 * Times are whole seconds: `now` is the clock reading and a job's
 * submission time is the local-time conversion of its parsed timestamp.
 * The age in minutes is their difference truncated toward zero, as
 * `duration_cast<minutes>` does.
 *
 * `ReadAge` reads an age text back, accepting only the form `fmt_age`
 * writes; `ReadAgeOfText` shows that every text `AgeText` writes denotes
 * the age it was written for, and `OnlyTextOfItsAge` that no other text
 * reads the same.
 */
module Age {
  import opened Wrappers
  import opened Config
  import opened Text

  /** `duration_cast<minutes>(now - at)`: whole minutes, truncated toward zero. */
  function MinutesBetween(now: int, at: int): (m: int)
    ensures now - at >= 0 ==> 0 <= m && 60 * m <= now - at < 60 * (m + 1)
    ensures now - at < 0 ==> m <= 0 && 60 * (m - 1) < now - at <= 60 * m
  {
    var d := now - at;
    if d >= 0 then d / 60 else -((-d) / 60)
  }

  /**
   * The text for an age of `m` minutes: "<1m", "{m}m", "{h}h {m}m" or
   * "{d}d {h}h".  It is "<1m" exactly for an age under a minute, and
   * otherwise starts with a digit; it is never "unknown".
   */
  function AgeText(m: int): (r: string)
    ensures r != [] && r != "unknown"
    ensures m < 1 <==> r == "<1m"
    ensures m >= 1 ==> IsDigit(r[0])
  {
    if m < 1 then "<1m"
    else
      var lead := if m < 60 then Decimal(m) else if m / 60 < 24 then Decimal(m / 60) else Decimal(m / 60 / 24);
      var r := if m < 60 then Decimal(m) + "m"
               else if m / 60 < 24 then Decimal(m / 60) + "h " + Decimal(m % 60) + "m"
               else Decimal(m / 60 / 24) + "d " + Decimal(m / 60 % 24) + "h";
      assert r[0] == lead[0];
      r
  }

  /** What `fmt_age` returns, with what it stores in `out_minutes`. */
  datatype Age = Age(text: string, minutes: int)

  /**
   * `fmt_age`.  The text is "unknown" exactly when there is no timestamp;
   * otherwise it describes the stored minutes, which are the age itself
   * whenever that is not negative.  Release: an absent timestamp stores 0
   * and a negative age counts as 0, so the minutes are never negative.
   * Dev: an absent timestamp stores -1 and a negative age is kept.
   */
  function FmtAge(at: Option<int>, now: int, ed: Edition): (a: Age)
    ensures a.text == "unknown" <==> at.None?
    ensures at.None? ==> a.minutes == (if ed == Release then 0 else -1)
    ensures at.Some? ==> a.text == AgeText(a.minutes)
    ensures at.Some? && (ed == Dev || MinutesBetween(now, at.value) >= 0) ==> a.minutes == MinutesBetween(now, at.value)
    ensures ed == Release ==> a.minutes >= 0
  {
    match at
    case None => Age("unknown", if ed == Release then 0 else -1)
    case Some(t) =>
      var m := MinutesBetween(now, t);
      var m' := if ed == Release && m < 0 then 0 else m;
      Age(AgeText(m'), m')
  }

  /**
   * The minutes `refresh` stores in the row: the dev edition clamps them at
   * 0 there, so a row's minutes are never negative in dev, and a
   * non-negative age, or any release age, is stored unchanged.
   */
  function RowMinutes(age: Age, ed: Edition): (m: int)
    ensures ed == Dev ==> m >= 0
    ensures ed == Release || age.minutes >= 0 ==> m == age.minutes
  {
    if ed == Dev && age.minutes < 0 then 0 else age.minutes
  }

  /** A row is highlighted when a threshold is set and its age reaches it; with no threshold nothing is, nor is an age under a minute. */
  predicate Highlighted(threshold: int, ageMinutes: int)
    ensures threshold <= 0 ==> !Highlighted(threshold, ageMinutes)
    ensures Highlighted(threshold, ageMinutes) ==> ageMinutes >= 1
  {
    threshold > 0 && ageMinutes >= threshold
  }

  /**
   * The editions differ only in the raw minutes: the texts agree, and the
   * minutes each stores in the row agree and are never negative.
   */
  lemma EditionsShowTheSameAge(at: Option<int>, now: int)
    ensures FmtAge(at, now, Release).text == FmtAge(at, now, Dev).text
    ensures RowMinutes(FmtAge(at, now, Release), Release) == RowMinutes(FmtAge(at, now, Dev), Dev) >= 0
  {
  }

  /** The dev sentinel -1 is also the age of a job stamped a minute ahead of the clock. */
  lemma DevSentinelIsAmbiguous(now: int)
    ensures FmtAge(None, now, Dev).minutes == FmtAge(Some(now + 60), now, Dev).minutes == -1
  {
  }

  /** No threshold (0 or less) highlights nothing; with one, older rows stay highlighted. */
  lemma HighlightRule(threshold: int, age: int, older: int)
    ensures threshold <= 0 ==> !Highlighted(threshold, age)
    ensures Highlighted(threshold, age) && older >= age ==> Highlighted(threshold, older)
    ensures threshold > 0 ==> (Highlighted(threshold, age) <==> age >= threshold)
  {
  }

  // ---------------------------------------------------------------
  // Reading an age text back
  // ---------------------------------------------------------------

  /** What an age text says about the age: below a minute, exactly m, or between lo and hi. */
  datatype AgeReading = Under1 | Exactly(m: nat) | Within(lo: nat, hi: nat)

  predicate Denotes(r: AgeReading, m: int) {
    match r
    case Under1 => m < 1
    case Exactly(n) => m == n
    case Within(lo, hi) => lo <= m <= hi
  }

  /** How many decimal digits `s` starts with. */
  function SpanDigits(s: string): (n: nat)
    ensures n <= |s| && AllDigits(s[..n]) && (n == |s| || !IsDigit(s[n]))
  {
    if s == [] || !IsDigit(s[0]) then 0
    else
      var n := 1 + SpanDigits(s[1..]);
      assert s[..n] == [s[0]] + s[1..][..n - 1];
      n
  }

  /** A number as `std::to_string` writes one: digits, with no leading zero unless it is "0". */
  predicate NormalNumber(x: string) {
    x != [] && AllDigits(x) && (|x| > 1 ==> x[0] != '0')
  }

  /** A number in normal form, then the rest: None unless the text starts with one. */
  function ReadNumber(s: string): Option<(nat, string)> {
    var n := SpanDigits(s);
    if n == 0 || (n > 1 && s[0] == '0') then None else Some((DigitsValue(s[..n]), s[n..]))
  }

  /** The age an age text denotes, if it is one in the form `fmt_age` writes. */
  function ReadAge(text: string): Option<AgeReading> {
    if text == "<1m" then Some(Under1)
    else match ReadNumber(text)
      case None => None
      case Some(p) => ReadUnits(p.0, p.1)
  }

  /** After the first number: "m" for 1 to 59 minutes, or a two-character separator and a second number. */
  function ReadUnits(a: nat, rest: string): Option<AgeReading> {
    if rest == "m" then (if 1 <= a < 60 then Some(Exactly(a)) else None)
    else if |rest| < 2 then None
    else match ReadNumber(rest[2..])
      case None => None
      case Some(q) => ReadSecond(a, rest[..2], q.0, q.1)
  }

  /**
   * "{a}h {b}m", with 1 to 23 hours and under 60 minutes, is exactly 60a + b
   * minutes; "{a}d {b}h", with at least a day and under 24 hours, is within
   * hour 24a + b.
   */
  function ReadSecond(a: nat, sep: string, b: nat, tail: string): Option<AgeReading> {
    if sep == "h " && tail == "m" && 1 <= a < 24 && b < 60 then Some(Exactly(60 * a + b))
    else if sep == "d " && tail == "h" && a >= 1 && b < 24 then Some(Within(1440 * a + 60 * b, 1440 * a + 60 * b + 59))
    else None
  }

  /** The least age a reading allows. */
  function Least(r: AgeReading): nat {
    match r
    case Under1 => 0
    case Exactly(n) => n
    case Within(lo, _) => lo
  }

  lemma {:induction false} SpanDigitsOfDecimal(d: string, rest: string)
    requires AllDigits(d)
    requires rest == [] || !IsDigit(rest[0])
    ensures SpanDigits(d + rest) == |d|
    decreases |d|
  {
    if d == [] {
      assert d + rest == rest;
    } else {
      assert (d + rest)[0] == d[0] && (d + rest)[1..] == d[1..] + rest;
      SpanDigitsOfDecimal(d[1..], rest);
    }
  }

  /** A number in normal form followed by a non-digit reads back as its value. */
  lemma ReadNumberOfDigits(x: string, rest: string)
    requires NormalNumber(x)
    requires rest == [] || !IsDigit(rest[0])
    ensures ReadNumber(x + rest) == Some((DigitsValue(x), rest))
  {
    SpanDigitsOfDecimal(x, rest);
    assert (x + rest)[..|x|] == x && (x + rest)[|x|..] == rest;
  }

  /** Digits that do not start with '0' have a value of at least 1. */
  lemma {:induction false} LeadingDigitCounts(x: string)
    requires x != [] && AllDigits(x) && x[0] != '0'
    ensures DigitsValue(x) >= 1
    decreases |x|
  {
    var p := x[..|x| - 1];
    if |x| == 1 {
      assert p == [];
    } else {
      assert p[0] == x[0];
      LeadingDigitCounts(p);
    }
  }

  /** A number in normal form is the decimal text of its value: `std::to_string` is the only writer of it. */
  lemma {:induction false} DecimalOfDigits(x: string)
    requires NormalNumber(x)
    ensures Decimal(DigitsValue(x)) == x
    decreases |x|
  {
    var p, c := x[..|x| - 1], x[|x| - 1];
    var d := c as int - '0' as int;
    assert x == p + [c];
    assert DigitChar(d) == c;
    if |x| == 1 {
      assert p == [];
    } else {
      assert p[0] == x[0];
      assert NormalNumber(p);
      LeadingDigitCounts(p);
      DecimalOfDigits(p);
      DecimalStep(DigitsValue(p), d);
    }
  }

  /** Appending digit `d` to the decimal text of a positive `v` gives the decimal text of `10 * v + d`. */
  lemma DecimalStep(v: nat, d: nat)
    requires v >= 1 && d < 10
    ensures Decimal(10 * v + d) == Decimal(v) + [DigitChar(d)]
  {
    var n := 10 * v + d;
    assert n / 10 == v && n % 10 == d;
    assert n >= 10;
  }

  /**
   * Every age text reads back as what it was written for: "<1m" below one
   * minute, the exact age below a day, and the hour it falls in from a day on.
   */
  lemma ReadAgeOfText(m: int)
    ensures ReadAge(AgeText(m)).Some?
    ensures Denotes(ReadAge(AgeText(m)).value, m)
    ensures m < 1 ==> ReadAge(AgeText(m)) == Some(Under1)
    ensures 1 <= m < 1440 ==> ReadAge(AgeText(m)) == Some(Exactly(m))
    ensures m >= 1440 ==> ReadAge(AgeText(m)) == Some(Within(m - m % 60, m - m % 60 + 59))
  {
    if m < 1 {
    } else if m < 60 {
      ReadMinutes(m);
    } else if m / 60 < 24 {
      ReadHoursMinutes(m);
    } else {
      ReadDaysHours(m);
    }
  }

  /**
   * Every text the reader accepts is the text `AgeText` writes for the
   * least age its reading allows: the reader accepts the normal form only.
   */
  lemma ReadAgeOnlyOfText(t: string)
    requires ReadAge(t).Some?
    ensures t == AgeText(Least(ReadAge(t).value))
  {
    if t != "<1m" {
      var p := ReadNumber(t).value;
      ReadNumberWritten(t);
      ReadUnitsWritten(p.0, p.1);
    }
  }

  /** What `ReadUnits` accepts after the number `a` completes the text `AgeText` writes. */
  lemma ReadUnitsWritten(a: nat, rest: string)
    requires ReadUnits(a, rest).Some?
    ensures Decimal(a) + rest == AgeText(Least(ReadUnits(a, rest).value))
  {
    if rest == "m" {
      MinutesText(a);
    } else {
      var u := rest[2..];
      var q := ReadNumber(u).value;
      ReadNumberWritten(u);
      var sep, b, tail := rest[..2], q.0, q.1;
      ReadSecondWritten(a, sep, b, tail);
      assert rest == sep + (Decimal(b) + tail);
      assert Decimal(a) + rest == Decimal(a) + sep + Decimal(b) + tail;
    }
  }

  /** What `ReadNumber` accepts is the decimal text of the number it reads, then the rest. */
  lemma ReadNumberWritten(s: string)
    requires ReadNumber(s).Some?
    ensures s == Decimal(ReadNumber(s).value.0) + ReadNumber(s).value.1
  {
    var n := SpanDigits(s);
    assert s == s[..n] + s[n..];
    DecimalOfDigits(s[..n]);
  }

  /** The two-field forms `ReadSecond` accepts are the texts `AgeText` writes. */
  lemma ReadSecondWritten(a: nat, sep: string, b: nat, tail: string)
    requires ReadSecond(a, sep, b, tail).Some?
    ensures Decimal(a) + sep + Decimal(b) + tail == AgeText(Least(ReadSecond(a, sep, b, tail).value))
  {
    if sep == "h " && tail == "m" && 1 <= a < 24 && b < 60 {
      HoursWritten(a, b);
    } else {
      DaysWritten(a, b);
    }
  }

  lemma HoursWritten(a: nat, b: nat)
    requires 1 <= a < 24 && b < 60
    ensures Decimal(a) + "h " + Decimal(b) + "m" == AgeText(60 * a + b)
  {
    SplitHour(a, b);
    HoursText(60 * a + b);
  }

  lemma DaysWritten(a: nat, b: nat)
    requires a >= 1 && b < 24
    ensures Decimal(a) + "d " + Decimal(b) + "h" == AgeText(1440 * a + 60 * b)
  {
    var m := 1440 * a + 60 * b;
    SplitHour(24 * a + b, 0);
    SplitDay(a, b);
    assert m / 60 == 24 * a + b;
    DaysText(m);
  }

  /** Division by 60 undoes `60 * q + r` for a remainder below 60. */
  lemma SplitHour(q: nat, r: nat)
    requires r < 60
    ensures (60 * q + r) / 60 == q && (60 * q + r) % 60 == r
  {
  }

  /** Division by 24 undoes `24 * q + r` for a remainder below 24. */
  lemma SplitDay(q: nat, r: nat)
    requires r < 24
    ensures (24 * q + r) / 24 == q && (24 * q + r) % 24 == r
  {
  }

  /**
   * The reading pins the text: a text that reads as the age text of `m`
   * does is that age text, so "05m" or "1h 75m" are not age texts.
   */
  lemma OnlyTextOfItsAge(t: string, m: int)
    requires ReadAge(t) == ReadAge(AgeText(m))
    ensures t == AgeText(m)
  {
    ReadAgeOfText(m);
    ReadAgeOnlyOfText(t);
    ReadAgeOnlyOfText(AgeText(m));
  }

  lemma MinutesText(m: int)
    requires 1 <= m < 60
    ensures AgeText(m) == Decimal(m) + "m"
  {
  }

  lemma HoursText(m: int)
    requires 60 <= m && m / 60 < 24
    ensures AgeText(m) == Decimal(m / 60) + "h " + Decimal(m % 60) + "m"
  {
    assert !(m < 1) && !(m < 60) && m / 60 < 24;
  }

  lemma DaysText(m: int)
    requires m / 60 >= 24
    ensures AgeText(m) == Decimal(m / 60 / 24) + "d " + Decimal(m / 60 % 24) + "h"
  {
    assert m >= 60;
  }

  lemma ReadHoursMinutes(m: int)
    requires 60 <= m && m / 60 < 24
    ensures ReadAge(AgeText(m)) == Some(Exactly(m))
  {
    var h, r := m / 60, m % 60;
    HoursText(m);
    WholeMinutes(m);
    ReadHours(h, r);
  }

  lemma WholeMinutes(m: int)
    ensures 60 * (m / 60) + m % 60 == m
  {
  }

  lemma ReadHours(h: nat, r: nat)
    requires 1 <= h < 24 && r < 60
    ensures ReadAge(Decimal(h) + "h " + Decimal(r) + "m") == Some(Exactly(60 * h + r))
  {
    var x, y := Decimal(h), Decimal(r);
    ReadCompound(x, "h ", y, "m");
    assert DigitsValue(x) == h && DigitsValue(y) == r;
  }

  lemma ReadDaysHours(m: int)
    requires m / 60 >= 24
    ensures ReadAge(AgeText(m)) == Some(Within(m - m % 60, m - m % 60 + 59))
  {
    var d, r := m / 60 / 24, m / 60 % 24;
    DaysText(m);
    ReadDays(d, r);
    WholeHours(m);
  }

  lemma ReadDays(d: nat, r: nat)
    requires d >= 1 && r < 24
    ensures ReadAge(Decimal(d) + "d " + Decimal(r) + "h") == Some(Within(1440 * d + 60 * r, 1440 * d + 60 * r + 59))
  {
    var x, y := Decimal(d), Decimal(r);
    ReadCompound(x, "d ", y, "h");
    assert DigitsValue(x) == d && DigitsValue(y) == r;
    assert "d "[0] != "h "[0];
  }

  lemma WholeHours(m: int)
    ensures 1440 * (m / 60 / 24) + 60 * (m / 60 % 24) == m - m % 60
  {
    var h := m / 60;
    assert 60 * h == m - m % 60;
    assert 24 * (h / 24) + h % 24 == h;
  }

  /** "{m}m" reads back as m minutes, for 1 to 59 minutes. */
  lemma ReadMinutes(m: nat)
    requires 1 <= m < 60
    ensures ReadAge(Decimal(m) + "m") == Some(Exactly(m))
  {
    var x := Decimal(m);
    ReadNumberOfDigits(x, "m");
    assert (x + "m")[0] == x[0];
  }

  /** "{a}h {b}m" and "{a}d {b}h" read back as their numbers. */
  lemma ReadCompound(x: string, sep: string, y: string, unit: string)
    requires NormalNumber(x) && NormalNumber(y)
    requires |sep| == 2 && !IsDigit(sep[0])
    requires |unit| == 1 && !IsDigit(unit[0])
    ensures ReadAge(x + sep + y + unit) == ReadSecond(DigitsValue(x), sep, DigitsValue(y), unit)
  {
    var rest := sep + y + unit;
    assert x + sep + y + unit == x + rest;
    ReadFirstNumber(x, rest);
    ReadAfterSeparator(DigitsValue(x), sep, y, unit);
  }

  /** A text that starts with a number (and is not "<1m") reads on after it. */
  lemma ReadFirstNumber(x: string, rest: string)
    requires NormalNumber(x)
    requires rest == [] || !IsDigit(rest[0])
    ensures ReadAge(x + rest) == ReadUnits(DigitsValue(x), rest)
  {
    ReadNumberOfDigits(x, rest);
    assert (x + rest)[0] == x[0];
  }

  lemma ReadAfterSeparator(a: nat, sep: string, y: string, unit: string)
    requires |sep| == 2 && NormalNumber(y)
    requires |unit| == 1 && !IsDigit(unit[0])
    ensures ReadUnits(a, sep + y + unit) == ReadSecond(a, sep, DigitsValue(y), unit)
  {
    var rest := sep + y + unit;
    assert |rest| >= 3;
    assert rest[..2] == sep && rest[2..] == y + unit;
    ReadNumberOfDigits(y, unit);
  }
}
