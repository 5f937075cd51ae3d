/** The C strftime conversions used by the appointment template, `%B %d, %Y at %I:%M %p`
    in the C locale, and a reader that recovers the date and the time of day from the
    rendered text. */
module Strftime {
  import opened Wrappers
  import opened Timestamps

  /** `%B`: full month names, January first. */
  const MonthNames: seq<string> := ["January", "February", "March", "April", "May", "June",
    "July", "August", "September", "October", "November", "December"]

  predicate IsDigit(c: char)
  {
    '0' <= c <= '9'
  }

  predicate AllDigits(s: string)
  {
    forall i :: 0 <= i < |s| ==> IsDigit(s[i])
  }

  function Digit(d: nat): (c: char)
    requires d < 10
    ensures IsDigit(c) && c as int == 48 + d
  {
    (48 + d) as char
  }

  function DigitValue(c: char): (d: nat)
    requires IsDigit(c)
    ensures d < 10 && Digit(d) == c
  {
    c as int - 48
  }

  /** The number a string of decimal digits denotes (0 for the empty string). */
  function ValueOf(s: string): nat
    requires AllDigits(s)
  {
    if s == [] then 0 else 10 * ValueOf(s[..|s| - 1]) + DigitValue(s[|s| - 1])
  }

  /** `%d`, `%I`, `%M`: a number below 100 as exactly two digits, zero-padded. */
  function TwoDigits(n: nat): (s: string)
    requires n < 100
    ensures |s| == 2 && AllDigits(s) && ValueOf(s) == n
  {
    var s := [Digit(n / 10), Digit(n % 10)];
    assert s[..1] == [Digit(n / 10)] && [Digit(n / 10)][..0] == [];
    assert ValueOf(s[..1]) == n / 10;
    assert ValueOf(s) == 10 * (n / 10) + n % 10;
    s
  }

  /** `%Y`: the year in decimal, without padding (the C library's rendering). */
  function Decimal(n: nat): (s: string)
    ensures |s| >= 1 && AllDigits(s) && ValueOf(s) == n
    decreases n
  {
    if n < 10 then
      assert [Digit(n)][..0] == [];
      [Digit(n)]
    else
      var s := Decimal(n / 10) + [Digit(n % 10)];
      assert s[..|s| - 1] == Decimal(n / 10);
      s
  }

  /** Years 1000 to 9999 are rendered with exactly four digits. */
  lemma DecimalWidth(n: nat)
    requires 1000 <= n <= 9999
    ensures |Decimal(n)| == 4
  {
    assert Decimal(n / 1000) == [Digit(n / 1000)];
    assert |Decimal(n / 100)| == 2;
    assert |Decimal(n / 10)| == 3;
  }

  /** `%I`: the hour on the 12-hour clock; midnight and noon are 12. */
  function Hour12(h: nat): (r: nat)
    requires h < 24
    ensures 1 <= r <= 12
    ensures r % 12 == h % 12
  {
    if h % 12 == 0 then 12 else h % 12
  }

  /** `%p` in the C locale: AM for hours 0 to 11, PM for hours 12 to 23. */
  function Meridiem(h: nat): (s: string)
    requires h < 24
    ensures s == "AM" || s == "PM"
    ensures s == "AM" <==> h < 12
  {
    if h < 12 then "AM" else "PM"
  }

  /** The date half of the pattern, `%B %d, %Y`: the month's full name, a space, the day as
      two digits, a comma and a space, and the year's digits. */
  function FormatDate(d: Date): (s: string)
    requires ValidDate(d)
    ensures var name := MonthNames[d.month - 1];
      && |s| > |name| + 5
      && s[..|name|] == name && s[|name|] == ' '
      && AllDigits(s[|name| + 1..|name| + 3]) && ValueOf(s[|name| + 1..|name| + 3]) == d.day
      && s[|name| + 3..|name| + 5] == ", "
      && AllDigits(s[|name| + 5..]) && ValueOf(s[|name| + 5..]) == d.year
  {
    var name := MonthNames[d.month - 1];
    var day := TwoDigits(d.day);
    var year := Decimal(d.year);
    var s := name + " " + day + ", " + year;
    assert s[..|name|] == name;
    assert s[|name| + 1..|name| + 3] == day;
    assert s[|name| + 3..|name| + 5] == ", ";
    assert s[|name| + 5..] == year;
    s
  }

  /** The clock half of the pattern, ` at %I:%M %p`: always twelve characters, with the
      12-hour clock hour and the minute as two digits each. */
  function FormatClock(h: nat, m: nat): (s: string)
    requires h < 24 && m < 60
    ensures |s| == 12 && s[..4] == " at " && s[6] == ':' && s[9] == ' '
    ensures AllDigits(s[4..6]) && ValueOf(s[4..6]) == Hour12(h)
    ensures AllDigits(s[7..9]) && ValueOf(s[7..9]) == m
    ensures s[10..] == Meridiem(h)
  {
    var hour := TwoDigits(Hour12(h));
    var minute := TwoDigits(m);
    var s := " at " + hour + ":" + minute + " " + Meridiem(h);
    assert s[4..6] == hour && s[7..9] == minute && s[10..] == Meridiem(h);
    s
  }

  /** `t.strftime('%B %d, %Y at %I:%M %p')`. */
  function FormatAppointmentTime(t: Instant): string
  {
    FormatDate(DateOf(DayOf(t))) + FormatClock(HourOf(t), MinuteOf(t))
  }

  /** A rendered instant is the date of its day followed by the clock part for its hour and
      minute, which is always the last twelve characters. */
  lemma AppointmentTimeLayout(t: Instant)
    ensures var s := FormatAppointmentTime(t);
      && |s| > 12
      && s[..|s| - 12] == FormatDate(DateOf(DayOf(t)))
      && s[|s| - 12..] == FormatClock(HourOf(t), MinuteOf(t))
  {
    var date := FormatDate(DateOf(DayOf(t)));
    var clock := FormatClock(HourOf(t), MinuteOf(t));
    assert (date + clock)[..|date|] == date && (date + clock)[|date|..] == clock;
  }

  // ----- Reading a rendered time back -----

  /** The position of a full month name in the calendar, if `name` is one. */
  function MonthNumber(name: string): (r: Option<int>)
    ensures r.Some? ==> 1 <= r.value <= 12 && MonthNames[r.value - 1] == name
  {
    if name == "January" then Some(1)
    else if name == "February" then Some(2)
    else if name == "March" then Some(3)
    else if name == "April" then Some(4)
    else if name == "May" then Some(5)
    else if name == "June" then Some(6)
    else if name == "July" then Some(7)
    else if name == "August" then Some(8)
    else if name == "September" then Some(9)
    else if name == "October" then Some(10)
    else if name == "November" then Some(11)
    else if name == "December" then Some(12)
    else None
  }

  /** Month names are pairwise distinct, so a rendered name determines its month. */
  lemma MonthNumberOf(m: int)
    requires 1 <= m <= 12
    ensures MonthNumber(MonthNames[m - 1]) == Some(m)
  {
  }

  /** The number of decimal digits at the end of `s`. */
  function TrailingDigits(s: string): (k: nat)
    ensures k <= |s| && AllDigits(s[|s| - k..])
  {
    if s == [] || !IsDigit(s[|s| - 1]) then 0
    else
      var k := 1 + TrailingDigits(s[..|s| - 1]);
      assert s[|s| - k..] == s[..|s| - 1][|s| - k..] + [s[|s| - 1]];
      k
  }

  lemma {:induction false} TrailingDigitsAfter(p: string, d: string)
    requires AllDigits(d)
    requires p != [] && !IsDigit(p[|p| - 1])
    ensures TrailingDigits(p + d) == |d|
    decreases |d|
  {
    if d == [] {
      assert p + d == p;
    } else {
      assert (p + d)[..|p + d| - 1] == p + d[..|d| - 1];
      TrailingDigitsAfter(p, d[..|d| - 1]);
    }
  }

  /** Reads `%B %d, %Y` back into a date. */
  function ReadDate(s: string): Option<Date>
  {
    var k := TrailingDigits(s);
    var rest := s[..|s| - k];
    if k == 0 || |rest| < 5 || rest[|rest| - 5] != ' ' || rest[|rest| - 2..] != ", "
       || !AllDigits(rest[|rest| - 4..|rest| - 2])
    then None
    else
      var year := s[|s| - k..];
      var month := MonthNumber(rest[..|rest| - 5]);
      if month.None? then None
      else Some(Date(ValueOf(year), month.value, ValueOf(rest[|rest| - 4..|rest| - 2])))
  }

  /** Reads ` at %I:%M %p` back into a 24-hour hour and a minute. */
  function ReadClock(s: string): Option<(nat, nat)>
  {
    if |s| != 12 || s[..4] != " at " || s[6] != ':' || s[9] != ' '
       || !AllDigits(s[4..6]) || !AllDigits(s[7..9]) || (s[10..] != "AM" && s[10..] != "PM")
    then None
    else
      var h12 := ValueOf(s[4..6]);
      var minute := ValueOf(s[7..9]);
      Some((h12 % 12 + (if s[10..] == "PM" then 12 else 0), minute))
  }

  /** Reads a whole rendered appointment time back. */
  function ReadAppointmentTime(s: string): Option<(Date, nat, nat)>
  {
    if |s| < 12 then None
    else
      var date := ReadDate(s[..|s| - 12]);
      var clock := ReadClock(s[|s| - 12..]);
      if date.None? || clock.None? then None
      else Some((date.value, clock.value.0, clock.value.1))
  }

  lemma ReadDateRoundTrip(d: Date)
    requires ValidDate(d)
    ensures ReadDate(FormatDate(d)) == Some(d)
  {
    var name := MonthNames[d.month - 1];
    var dd := TwoDigits(d.day);
    var p := name + " " + dd + ", ";
    var y := Decimal(d.year);
    var s := p + y;
    assert FormatDate(d) == s;
    assert p[|p| - 1] == ' ';
    TrailingDigitsAfter(p, y);
    var rest := s[..|s| - |y|];
    assert rest == p;
    assert s[|s| - |y|..] == y;
    assert p[|p| - 5] == ' ';
    assert p[|p| - 2..] == ", ";
    assert p[|p| - 4..|p| - 2] == dd;
    assert p[..|p| - 5] == name;
    MonthNumberOf(d.month);
  }

  lemma ReadClockRoundTrip(h: nat, m: nat)
    requires h < 24 && m < 60
    ensures ReadClock(FormatClock(h, m)) == Some((h, m))
  {
    var s := FormatClock(h, m);
    assert s[4..6] == TwoDigits(Hour12(h));
    assert s[7..9] == TwoDigits(m);
    assert s[10..] == Meridiem(h);
  }

  /** The rendered text determines the appointment's calendar date, hour and minute: reading
      it back gives them, with the 12-hour clock and AM/PM turned back into a 24-hour hour. */
  lemma ReadAppointmentTimeRoundTrip(t: Instant)
    ensures ReadAppointmentTime(FormatAppointmentTime(t)) == Some((DateOf(DayOf(t)), HourOf(t), MinuteOf(t)))
  {
    var a := FormatDate(DateOf(DayOf(t)));
    var b := FormatClock(HourOf(t), MinuteOf(t));
    assert (a + b)[..|a + b| - 12] == a;
    assert (a + b)[|a + b| - 12..] == b;
    ReadDateRoundTrip(DateOf(DayOf(t)));
    ReadClockRoundTrip(HourOf(t), MinuteOf(t));
  }

  /** Two instants that render the same text fall in the same minute. */
  lemma FormatAppointmentTimeSameMinute(t1: Instant, t2: Instant)
    requires FormatAppointmentTime(t1) == FormatAppointmentTime(t2)
    ensures t1 / MicrosPerMinute == t2 / MicrosPerMinute
  {
    ReadAppointmentTimeRoundTrip(t1);
    ReadAppointmentTimeRoundTrip(t2);
    assert DayOf(t1) == DayNumber(DateOf(DayOf(t1)));
    ClockOfDay(t1);
    ClockOfDay(t2);
    assert t1 == DayOf(t1) * MicrosPerDay + t1 % MicrosPerDay;
    assert t2 == DayOf(t2) * MicrosPerDay + t2 % MicrosPerDay;
    var k1 := (DayOf(t1) * 24 + HourOf(t1)) * 60 + MinuteOf(t1);
    var k2 := (DayOf(t2) * 24 + HourOf(t2)) * 60 + MinuteOf(t2);
    assert t1 == k1 * MicrosPerMinute + t1 % MicrosPerMinute;
    assert t2 == k2 * MicrosPerMinute + t2 % MicrosPerMinute;
    assert k1 == k2;
  }
}
