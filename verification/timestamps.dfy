/**
 * `parse_datetime_from_line`: finds a "day Mon year time [AM|PM]" window in
 * the status text of an `lpstat -o -l` header line and reads it as a
 * broken-down local date and time.  Conversion to a point in time (`mktime`)
 * is not part of this module: the result is the broken-down tuple.
 *
 * `std::get_time` is modelled on the shapes the tool meets: a day of one or
 * two digits (1..31), an English three-letter month, a four-digit year and a
 * time of two-digit fields "HH:MM:SS" (hour 0..23, minute 0..59, second
 * 0..60) or "HH:MM"; characters after the last field read are ignored, as
 * `get_time` leaves unread input alone.
 */
module Timestamps {
  import opened Wrappers
  import opened Config
  import opened Text
  import Seqs

  datatype DateTime = DateTime(year: nat, month: nat, day: nat, hour: nat, minute: nat, second: nat)

  const MonthNames: seq<string> := ["Jan", "Feb", "Mar", "Apr", "May", "Jun",
                                    "Jul", "Aug", "Sep", "Oct", "Nov", "Dec"]

  predicate IsMonth(t: string) {
    t in MonthNames
  }

  /** The month number (1..12) of an abbreviation. */
  function MonthNumber(t: string): (m: nat)
    requires IsMonth(t)
    ensures 1 <= m <= 12 && MonthNames[m - 1] == t
  {
    assert MonthNames[0..] == MonthNames;
    PositionFrom(MonthNames, t, 0)
  }

  /** One more than the position of the first `t` in `names` from `i` on. */
  function PositionFrom(names: seq<string>, t: string, i: nat): (m: nat)
    requires i <= |names| && t in names[i..]
    ensures i < m <= |names| && names[m - 1] == t
    decreases |names| - i
  {
    if names[i] == t then i + 1
    else
      Seqs.InLater(names, i, t);
      PositionFrom(names, t, i + 1)
  }

  /** A `%d`-style field: one or two digits naming a day 1..31. */
  function DayField(t: string): Option<nat> {
    if 1 <= |t| <= 2 && AllDigits(t) && 1 <= DigitsValue(t) <= 31 then Some(DigitsValue(t)) else None
  }

  /** A `%Y`-style field: four digits. */
  function YearField(t: string): Option<nat> {
    if |t| == 4 && AllDigits(t) then Some(DigitsValue(t)) else None
  }

  /** A two-digit field at position `at` of `t`, at most `max`. */
  function TwoDigits(t: string, at: nat, max: nat): Option<nat> {
    if at + 2 <= |t| && AllDigits(t[at..at + 2]) && DigitsValue(t[at..at + 2]) <= max
    then Some(DigitsValue(t[at..at + 2])) else None
  }

  /** A field of decimal digits whose value is at most `max`. */
  predicate Field(f: string, max: nat) {
    AllDigits(f) && DigitsValue(f) <= max
  }

  /**
   * The clock fields `get_time` reads from the front of `t`: "HH:MM", and
   * with seconds "HH:MM:SS", each field two digits within its range.
   */
  predicate ClockShape(t: string, withSeconds: bool) {
    5 <= |t| && t[2] == ':' && Field(t[..2], 23) && Field(t[3..5], 59)
    && (withSeconds ==> 8 <= |t| && t[5] == ':' && Field(t[6..8], 60))
  }

  /**
   * `std::get_time(&tm, "%d %b %Y %H:%M:%S")` (with `withSeconds`) or
   * `"%d %b %Y %H:%M"` (without) on "day mon year time": it succeeds
   * exactly when every field has its shape, and the fields of the result
   * are the values the digits spell.
   */
  function GetTime(day: string, mon: string, year: string, time: string, withSeconds: bool): (r: Option<DateTime>)
    requires IsMonth(mon)
    ensures r.Some? <==> DayField(day).Some? && YearField(year).Some? && ClockShape(time, withSeconds)
    ensures r.Some? ==> r.value.month == MonthNumber(mon) && DayField(day) == Some(r.value.day)
                        && YearField(year) == Some(r.value.year)
    ensures r.Some? ==> r.value.hour == DigitsValue(time[..2]) && r.value.minute == DigitsValue(time[3..5])
                        && r.value.second == (if withSeconds then DigitsValue(time[6..8]) else 0)
    ensures r.Some? ==> r.value.hour <= 23 && r.value.minute <= 59 && r.value.second <= 60
  {
    var d := DayField(day);
    var y := YearField(year);
    var h := TwoDigits(time, 0, 23);
    var m := TwoDigits(time, 3, 59);
    var s := if withSeconds then TwoDigits(time, 6, 60) else Some(0);
    if d.Some? && y.Some? && h.Some? && 3 <= |time| && time[2] == ':' && m.Some?
       && (withSeconds ==> 6 <= |time| && time[5] == ':') && s.Some?
    then Some(DateTime(y.value, MonthNumber(mon), d.value, h.value, m.value, s.value))
    else None
  }

  /** The 12-hour correction: "AM" maps hour 12 to 0, "PM" adds 12 to any hour but 12. */
  function HalfDay(dt: DateTime, marker: string): (r: DateTime)
    ensures r.(hour := dt.hour) == dt
    ensures marker == "AM" ==> r.hour == if dt.hour == 12 then 0 else dt.hour
    ensures marker == "PM" ==> r.hour == if dt.hour == 12 then 12 else dt.hour + 12
    ensures marker != "AM" && marker != "PM" ==> r == dt
  {
    if marker == "AM" then (if dt.hour == 12 then dt.(hour := 0) else dt)
    else if marker == "PM" then (if dt.hour != 12 then dt.(hour := dt.hour + 12) else dt)
    else dt
  }

  /** The dev edition drops one trailing ',' from the day and year tokens, and changes nothing else. */
  function DropComma(t: string): (r: string)
    ensures t != [] && t[|t| - 1] == ',' ==> r == t[..|t| - 1] && t == r + [',']
    ensures (t == [] || t[|t| - 1] != ',') ==> r == t
  {
    if t != [] && t[|t| - 1] == ',' then t[..|t| - 1] else t
  }

  function DayToken(tokens: seq<string>, i: nat, ed: Edition): string
    requires 1 <= i < |tokens|
  {
    if ed == Dev then DropComma(tokens[i - 1]) else tokens[i - 1]
  }

  function YearToken(tokens: seq<string>, i: nat, ed: Edition): string
    requires i + 1 < |tokens|
  {
    if ed == Dev then DropComma(tokens[i + 1]) else tokens[i + 1]
  }

  /**
   * What one iteration of the scan makes of a month candidate at position
   * `i`: nothing unless `tokens[i]` is a month with a token before it and
   * two after it, the second of which holds a ':'; otherwise the full
   * format, then the format without seconds, followed by the AM/PM
   * correction from the token after the time.
   */
  function DateTimeAt(tokens: seq<string>, i: nat, ed: Edition): (r: Option<DateTime>)
    requires i < |tokens|
    ensures r.Some? ==> IsMonth(tokens[i]) && 1 <= i && i + 2 < |tokens| && ':' in tokens[i + 2]
    ensures r.Some? ==> r.value.month == MonthNumber(tokens[i])
                        && DayField(DayToken(tokens, i, ed)) == Some(r.value.day)
                        && YearField(YearToken(tokens, i, ed)) == Some(r.value.year)
  {
    if !IsMonth(tokens[i]) || i == 0 || i + 2 >= |tokens| then None
    else
      var day := DayToken(tokens, i, ed);
      var year := YearToken(tokens, i, ed);
      var time := tokens[i + 2];
      if ':' !in time then None
      else
        var parsed := match GetTime(day, tokens[i], year, time, true)
                      case Some(dt) => Some(dt)
                      case None => GetTime(day, tokens[i], year, time, false);
        match parsed
        case None => None
        case Some(dt) => Some(HalfDay(dt, if i + 3 < |tokens| then tokens[i + 3] else ""))
  }

  /** The window at `i` read as `parsed` (with seconds, or else without) gives `parsed` after the AM/PM correction. */
  lemma DateTimeAtParsed(tokens: seq<string>, i: nat, ed: Edition, parsed: DateTime)
    requires 1 <= i && i + 2 < |tokens| && IsMonth(tokens[i]) && ':' in tokens[i + 2]
    requires var day := DayToken(tokens, i, ed); var year := YearToken(tokens, i, ed);
      match GetTime(day, tokens[i], year, tokens[i + 2], true)
      case Some(dt) => dt == parsed
      case None => GetTime(day, tokens[i], year, tokens[i + 2], false) == Some(parsed)
    ensures DateTimeAt(tokens, i, ed) == Some(HalfDay(parsed, if i + 3 < |tokens| then tokens[i + 3] else ""))
  {
  }

  /** The scan from position `i` on: the first position that yields a date wins. */
  function SearchFrom(tokens: seq<string>, i: nat, ed: Edition): Option<DateTime>
    decreases |tokens| - i
  {
    if i >= |tokens| then None
    else match DateTimeAt(tokens, i, ed)
      case Some(dt) => Some(dt)
      case None => SearchFrom(tokens, i + 1, ed)
  }

  /**
   * The scan's answer is the reading of the first window `k` (from `i` on)
   * that yields a date; `k` is `|tokens|`, and the scan finds nothing,
   * exactly when no window does.
   */
  lemma {:induction false} FirstWindowWins(tokens: seq<string>, i: nat, ed: Edition) returns (k: nat)
    requires i <= |tokens|
    ensures i <= k <= |tokens|
    ensures forall j :: i <= j < k ==> DateTimeAt(tokens, j, ed).None?
    ensures k < |tokens| ==> DateTimeAt(tokens, k, ed).Some? && SearchFrom(tokens, i, ed) == DateTimeAt(tokens, k, ed)
    ensures k == |tokens| <==> SearchFrom(tokens, i, ed).None?
    decreases |tokens| - i
  {
    k := i;
    if i < |tokens| {
      var here := DateTimeAt(tokens, i, ed);
      if here.None? {
        k := FirstWindowWins(tokens, i + 1, ed);
        SkipWindow(tokens, i, ed);
        forall j | i <= j < k ensures DateTimeAt(tokens, j, ed).None? {
          if j == i { assert DateTimeAt(tokens, j, ed) == here; }
        }
      }
    }
  }

  /** A window that yields nothing passes the scan on to the next one. */
  lemma SkipWindow(tokens: seq<string>, i: nat, ed: Edition)
    requires i < |tokens| && DateTimeAt(tokens, i, ed).None?
    ensures SearchFrom(tokens, i, ed) == SearchFrom(tokens, i + 1, ed)
  {
  }

  /** The timestamp the scan finds in a status text, if any. */
  function FirstDateTime(rest: string, ed: Edition): Option<DateTime> {
    SearchFrom(Tokens(rest), 0, ed)
  }

  /** `parse_datetime_from_line`, as written: a token loop that tries each position in turn. */
  method ParseDateTimeFromLine(rest: string, ed: Edition) returns (r: Option<DateTime>)
    ensures r == FirstDateTime(rest, ed)
  {
    var tokens := Tokens(rest);
    for i := 0 to |tokens|
      invariant SearchFrom(tokens, i, ed) == SearchFrom(tokens, 0, ed)
    {
      var found := TryWindow(tokens, i, ed);
      if found.Some? { return found; }
    }
    return None;
  }

  /**
   * The body of the scan loop at position `i`; each early `return None`
   * stands for a `continue` of the source's loop.
   */
  method TryWindow(tokens: seq<string>, i: nat, ed: Edition) returns (r: Option<DateTime>)
    requires i < |tokens|
    ensures r == DateTimeAt(tokens, i, ed)
  {
    if !IsMonth(tokens[i]) { return None; }
    if i == 0 || i + 2 >= |tokens| { return None; }

    var day := tokens[i - 1];
    var mon := tokens[i];
    var year := tokens[i + 1];
    var time := tokens[i + 2];
    if ed == Dev {
      if day != [] && day[|day| - 1] == ',' { day := day[..|day| - 1]; }
      if year != [] && year[|year| - 1] == ',' { year := year[..|year| - 1]; }
    }
    assert day == DayToken(tokens, i, ed) && year == YearToken(tokens, i, ed);

    if ':' !in time { return None; }

    var tm := GetTime(day, mon, year, time, true);
    if tm.None? {
      var tm2 := GetTime(day, mon, year, time, false);
      if tm2.None? { return None; }
      tm := tm2;
    }

    var dt := tm.value;
    ghost var parsed := dt;
    if i + 3 < |tokens| {
      var ampm := tokens[i + 3];
      if ampm == "AM" || ampm == "PM" {
        var hour := dt.hour;
        if ampm == "AM" {
          if hour == 12 { hour := 0; }
        } else {
          if hour != 12 { hour := hour + 12; }
        }
        dt := dt.(hour := hour);
      }
    }
    assert dt == HalfDay(parsed, if i + 3 < |tokens| then tokens[i + 3] else "");
    DateTimeAtParsed(tokens, i, ed, parsed);
    return Some(dt);
  }

  // ---------------------------------------------------------------
  // Properties
  // ---------------------------------------------------------------

  /** A following "PM" turns a parsed hour h other than 12 into h + 12; "AM" turns 12 into 0. */
  lemma {:induction false} HalfDayCorrection(tokens: seq<string>, i: nat, ed: Edition, dt: DateTime)
    requires 1 <= i && i + 3 < |tokens| && IsMonth(tokens[i]) && ':' in tokens[i + 2]
    requires GetTime(DayToken(tokens, i, ed), tokens[i], YearToken(tokens, i, ed), tokens[i + 2], true) == Some(dt)
    ensures tokens[i + 3] == "PM" && dt.hour != 12 ==> DateTimeAt(tokens, i, ed) == Some(dt.(hour := dt.hour + 12))
    ensures tokens[i + 3] == "AM" && dt.hour == 12 ==> DateTimeAt(tokens, i, ed) == Some(dt.(hour := 0))
    ensures tokens[i + 3] != "AM" && tokens[i + 3] != "PM" ==> DateTimeAt(tokens, i, ed) == Some(dt)
  {
  }

  /** A time without seconds is still accepted, with second 0. */
  lemma {:induction false} MinutesOnlyFallback(tokens: seq<string>, i: nat, ed: Edition)
    requires 1 <= i && i + 2 < |tokens| && IsMonth(tokens[i]) && |tokens[i + 2]| == 5
    requires i + 3 < |tokens| ==> tokens[i + 3] != "AM" && tokens[i + 3] != "PM"
    requires var d := DayToken(tokens, i, ed); var y := YearToken(tokens, i, ed); var t := tokens[i + 2];
      DayField(d).Some? && YearField(y).Some? && t[2] == ':'
      && TwoDigits(t, 0, 23).Some? && TwoDigits(t, 3, 59).Some?
    ensures DateTimeAt(tokens, i, ed).Some? && DateTimeAt(tokens, i, ed).value.second == 0
  {
    var t := tokens[i + 2];
    assert t[2] in t;
    assert GetTime(DayToken(tokens, i, ed), tokens[i], YearToken(tokens, i, ed), t, true).None?;
  }

  /** The two editions read every window the same way unless its day or year token ends in ','. */
  lemma {:induction false} EditionsAgreeWithoutCommas(tokens: seq<string>, i: nat)
    requires i < |tokens|
    requires 1 <= i ==> tokens[i - 1] == [] || tokens[i - 1][|tokens[i - 1]| - 1] != ','
    requires i + 1 < |tokens| ==> tokens[i + 1] == [] || tokens[i + 1][|tokens[i + 1]| - 1] != ','
    ensures DateTimeAt(tokens, i, Release) == DateTimeAt(tokens, i, Dev)
  {
    if 1 <= i && i + 1 < |tokens| {
      assert DayToken(tokens, i, Release) == DayToken(tokens, i, Dev);
      assert YearToken(tokens, i, Release) == YearToken(tokens, i, Dev);
    }
  }

  /** A day written "5," is rejected by the release edition and read as 5 by the dev edition. */
  lemma {:induction false} TrailingCommaOnDay(tokens: seq<string>, i: nat)
    requires 1 <= i < |tokens|
    requires |tokens[i - 1]| >= 1 && tokens[i - 1][|tokens[i - 1]| - 1] == ','
    ensures DateTimeAt(tokens, i, Release).None?
    ensures DayToken(tokens, i, Dev) == tokens[i - 1][..|tokens[i - 1]| - 1]
  {
    assert !IsDigit(tokens[i - 1][|tokens[i - 1]| - 1]);
    assert DayField(DayToken(tokens, i, Release)).None?;
  }

  /** A year written "2024," is rejected by the release edition; the dev edition drops the comma. */
  lemma {:induction false} TrailingCommaOnYear(tokens: seq<string>, i: nat)
    requires i + 1 < |tokens|
    requires |tokens[i + 1]| >= 1 && tokens[i + 1][|tokens[i + 1]| - 1] == ','
    ensures DateTimeAt(tokens, i, Release).None?
    ensures YearToken(tokens, i, Dev) == tokens[i + 1][..|tokens[i + 1]| - 1]
  {
    assert !IsDigit(tokens[i + 1][|tokens[i + 1]| - 1]);
    assert YearField(YearToken(tokens, i, Release)).None?;
  }

  // ---------------------------------------------------------------
  // Reading a written timestamp back
  // ---------------------------------------------------------------

  /**
   * A status text that starts "day Mon year time", with any whitespace-free
   * words after it, is read back as the date and the clock it spells in
   * either edition: hour, minute and (when written) second are the digits
   * of the time, and a following "AM" or "PM" corrects the hour.
   */
  lemma {:induction false} StampReadBack(day: string, mon: string, year: string, time: string,
                                         tail: seq<string>, withSeconds: bool, ed: Edition)
    requires DayField(day).Some? && IsMonth(mon) && YearField(year).Some?
    requires |time| == (if withSeconds then 8 else 5) && ClockShape(time, withSeconds)
    requires forall k :: 0 <= k < |tail| ==> tail[k] != [] && NoSpace(tail[k])
    ensures FirstDateTime(Unwords([day, mon, year, time] + tail), ed)
      == Some(HalfDay(DateTime(DigitsValue(year), MonthNumber(mon), DigitsValue(day),
                               DigitsValue(time[..2]), DigitsValue(time[3..5]),
                               if withSeconds then DigitsValue(time[6..8]) else 0),
                      if tail == [] then "" else tail[0]))
  {
    var tokens := [day, mon, year, time] + tail;
    WordsOfStamp(day, mon, year, time, tail, withSeconds);
    TokensOfUnwords(tokens);
    StampWindow(day, mon, year, time, tail, withSeconds, ed);
    assert DateTimeAt(tokens, 0, ed).None?;
    assert SearchFrom(tokens, 0, ed) == SearchFrom(tokens, 1, ed);
  }

  /** The window at the month of a written timestamp reads the timestamp. */
  lemma StampWindow(day: string, mon: string, year: string, time: string,
                    tail: seq<string>, withSeconds: bool, ed: Edition)
    requires DayField(day).Some? && IsMonth(mon) && YearField(year).Some?
    requires |time| == (if withSeconds then 8 else 5) && ClockShape(time, withSeconds)
    ensures DateTimeAt([day, mon, year, time] + tail, 1, ed)
      == Some(HalfDay(DateTime(DigitsValue(year), MonthNumber(mon), DigitsValue(day),
                               DigitsValue(time[..2]), DigitsValue(time[3..5]),
                               if withSeconds then DigitsValue(time[6..8]) else 0),
                      if tail == [] then "" else tail[0]))
  {
    var tokens := [day, mon, year, time] + tail;
    assert tokens[0] == day && tokens[1] == mon && tokens[2] == year && tokens[3] == time;
    assert DayToken(tokens, 1, ed) == day && YearToken(tokens, 1, ed) == year by {
      assert day[|day| - 1] != ',' && year[|year| - 1] != ',';
    }
    assert ':' in time by { assert time[2] == ':'; }
    var parsed := DateTime(DigitsValue(year), MonthNumber(mon), DigitsValue(day),
                           DigitsValue(time[..2]), DigitsValue(time[3..5]),
                           if withSeconds then DigitsValue(time[6..8]) else 0);
    if withSeconds {
      assert GetTime(day, mon, year, time, true) == Some(parsed);
    } else {
      assert GetTime(day, mon, year, time, true).None?;
      assert GetTime(day, mon, year, time, false) == Some(parsed);
    }
    DateTimeAtParsed(tokens, 1, ed, parsed);
    if tail != [] { assert tokens[4] == tail[0]; }
  }

  /** The words of a timestamp are non-empty and free of whitespace. */
  lemma WordsOfStamp(day: string, mon: string, year: string, time: string, tail: seq<string>, withSeconds: bool)
    requires DayField(day).Some? && IsMonth(mon) && YearField(year).Some?
    requires |time| == (if withSeconds then 8 else 5) && ClockShape(time, withSeconds)
    requires forall k :: 0 <= k < |tail| ==> tail[k] != [] && NoSpace(tail[k])
    ensures var ws := [day, mon, year, time] + tail;
      forall k :: 0 <= k < |ws| ==> ws[k] != [] && NoSpace(ws[k])
  {
    DigitsHaveNoSpace(day);
    DigitsHaveNoSpace(year);
    MonthHasNoSpace(mon);
    ClockHasNoSpace(time, withSeconds);
    PrependWords(day, mon, year, time, tail);
  }

  lemma DigitsHaveNoSpace(s: string)
    requires AllDigits(s)
    ensures NoSpace(s)
  {
  }

  lemma MonthHasNoSpace(mon: string)
    requires IsMonth(mon)
    ensures mon != [] && NoSpace(mon)
  {
    var m := MonthNumber(mon);
    if m <= 6 { FirstHalfHasNoSpace(m, mon); } else { SecondHalfHasNoSpace(m, mon); }
  }

  lemma FirstHalfHasNoSpace(m: nat, mon: string)
    requires 1 <= m <= 6 && MonthNames[m - 1] == mon
    ensures mon != [] && NoSpace(mon)
  {
    if m == 1 { assert mon == "Jan"; }
    else if m == 2 { assert mon == "Feb"; }
    else if m == 3 { assert mon == "Mar"; }
    else if m == 4 { assert mon == "Apr"; }
    else if m == 5 { assert mon == "May"; }
    else { assert mon == "Jun"; }
  }

  lemma SecondHalfHasNoSpace(m: nat, mon: string)
    requires 7 <= m <= 12 && MonthNames[m - 1] == mon
    ensures mon != [] && NoSpace(mon)
  {
    if m == 7 { assert mon == "Jul"; }
    else if m == 8 { assert mon == "Aug"; }
    else if m == 9 { assert mon == "Sep"; }
    else if m == 10 { assert mon == "Oct"; }
    else if m == 11 { assert mon == "Nov"; }
    else { assert mon == "Dec"; }
  }

  lemma ClockHasNoSpace(time: string, withSeconds: bool)
    requires |time| == (if withSeconds then 8 else 5) && ClockShape(time, withSeconds)
    ensures NoSpace(time)
  {
    forall k | 0 <= k < |time| ensures !IsSpace(time[k]) {
      if k < 2 { assert time[k] == time[..2][k]; }
      else if 3 <= k < 5 { assert time[k] == time[3..5][k - 3]; }
      else if 6 <= k { assert time[k] == time[6..8][k - 6]; }
    }
  }

  lemma PrependWords(a: string, b: string, c: string, d: string, tail: seq<string>)
    requires a != [] && NoSpace(a) && b != [] && NoSpace(b) && c != [] && NoSpace(c) && d != [] && NoSpace(d)
    requires forall k :: 0 <= k < |tail| ==> tail[k] != [] && NoSpace(tail[k])
    ensures var ws := [a, b, c, d] + tail;
      forall k :: 0 <= k < |ws| ==> ws[k] != [] && NoSpace(ws[k])
  {
    var ws := [a, b, c, d] + tail;
    forall k | 0 <= k < |ws| ensures ws[k] != [] && NoSpace(ws[k]) {
      if k >= 4 { assert ws[k] == tail[k - 4]; }
    }
  }

  /** The words "5 Jan 2024 10:00:00 PM" are read as ten o'clock in the evening of 5 January 2024. */
  lemma EveningStamp(ed: Edition)
    ensures FirstDateTime(Unwords(["5", "Jan", "2024", "10:00:00", "PM"]), ed) == Some(DateTime(2024, 1, 5, 22, 0, 0))
  {
    EveningDate();
    EveningClock();
    StampReadBack("5", "Jan", "2024", "10:00:00", ["PM"], true, ed);
    assert ["5", "Jan", "2024", "10:00:00"] + ["PM"] == ["5", "Jan", "2024", "10:00:00", "PM"];
  }

  lemma EveningDate()
    ensures IsMonth("Jan") && MonthNumber("Jan") == 1
    ensures DayField("5") == Some(5) && DigitsValue("5") == 5
    ensures YearField("2024") == Some(2024) && DigitsValue("2024") == 2024
  {
    assert DigitsValue("5") == 5 by { assert "5"[..0] == []; }
    assert DigitsValue("2024") == 2024 by {
      assert "2024"[..3] == "202" && "202"[..2] == "20" && "20"[..1] == "2" && "2"[..0] == [];
    }
  }

  lemma EveningClock()
    ensures var time := "10:00:00";
      ClockShape(time, true) && |time| == 8
      && DigitsValue(time[..2]) == 10 && DigitsValue(time[3..5]) == 0 && DigitsValue(time[6..8]) == 0
    ensures forall k :: 0 <= k < |["PM"]| ==> ["PM"][k] != [] && NoSpace(["PM"][k])
    ensures HalfDay(DateTime(2024, 1, 5, 10, 0, 0), "PM") == DateTime(2024, 1, 5, 22, 0, 0)
  {
    var time := "10:00:00";
    assert time[..2] == "10" && time[3..5] == "00" && time[6..8] == "00";
    assert DigitsValue("10") == 10 by { assert "10"[..1] == "1" && "1"[..0] == []; }
    assert DigitsValue("00") == 0 by { assert "00"[..1] == "0" && "0"[..0] == []; }
  }
}
