/** Timestamps as integers, the calendar behind them, and the one piece of text
    preprocessing applied to ISO-8601 strings before they are parsed. */
module Timestamps {
  import opened Wrappers

  /** A naive wall-clock reading in microseconds since 0001-01-01T00:00:00.000000, the
      first instant of Python's proleptic Gregorian calendar. A UTC offset that was parsed
      along with the reading is not applied to it: the stored value is the wall clock as
      written. */
  type Instant = nat

  /** A library parser (`datetime.fromisoformat`, `datetime.strptime`): a partial function
      whose internals are not modelled. `None` stands for the `ValueError` it raises. */
  type Parser = string -> Option<Instant>

  const MicrosPerMinute: nat := 60_000_000
  const MicrosPerHour: nat := 3_600_000_000
  const MicrosPerDay: nat := 86_400_000_000

  /** The day number of an instant: whole days since 0001-01-01. */
  function DayOf(t: Instant): nat
  {
    t / MicrosPerDay
  }

  /** `t.replace(hour=0, minute=0, second=0, microsecond=0)`: the first microsecond of
      the day of `t`. */
  function StartOfDay(t: Instant): (s: Instant)
    ensures s <= t < s + MicrosPerDay
    ensures s % MicrosPerDay == 0
  {
    DayOf(t) * MicrosPerDay
  }

  /** `t.replace(hour=23, minute=59, second=59, microsecond=999999)`: the last microsecond
      of the day of `t`. */
  function EndOfDay(t: Instant): (e: Instant)
    ensures t <= e
    ensures e - StartOfDay(t) == MicrosPerDay - 1
  {
    StartOfDay(t) + MicrosPerDay - 1
  }

  /** The inclusive range from the start to the end of the day of `d` holds exactly the
      instants of that calendar day, both ends included. */
  lemma WithinDayIff(d: Instant, t: Instant)
    ensures StartOfDay(d) <= t <= EndOfDay(d) <==> DayOf(t) == DayOf(d)
  {
    var k := DayOf(d);
    assert StartOfDay(d) == k * MicrosPerDay;
    if DayOf(t) == k {
      assert StartOfDay(t) == StartOfDay(d);
    } else if DayOf(t) < k {
      assert StartOfDay(t) + MicrosPerDay <= StartOfDay(d);
    } else {
      assert StartOfDay(d) + MicrosPerDay <= StartOfDay(t);
    }
  }

  /** `%H`: the hour of the day, 0 to 23. */
  function HourOf(t: Instant): (h: nat)
    ensures h < 24
  {
    (t % MicrosPerDay) / MicrosPerHour
  }

  /** `%M`: the minute of the hour, 0 to 59. */
  function MinuteOf(t: Instant): (m: nat)
    ensures m < 60
  {
    (t % MicrosPerHour) / MicrosPerMinute
  }

  /** The remainder by an hour of whole hours plus a part-hour is the part-hour. */
  lemma WholeHours(k: int, e: int)
    requires k >= 0 && 0 <= e < MicrosPerHour
    ensures (k * MicrosPerHour + e) % MicrosPerHour == e
  {
    var n := k * MicrosPerHour + e;
    var q := n / MicrosPerHour;
    assert (q - k) * MicrosPerHour == e - n % MicrosPerHour;
  }

  /** The time of day splits into whole hours and the rest of the hour. */
  lemma HourSplit(t: Instant)
    ensures t % MicrosPerDay == HourOf(t) * MicrosPerHour + t % MicrosPerHour
  {
    var d := t % MicrosPerDay;
    var e := d % MicrosPerHour;
    assert d == HourOf(t) * MicrosPerHour + e;
    assert t == (DayOf(t) * 24 + HourOf(t)) * MicrosPerHour + e;
    WholeHours(DayOf(t) * 24 + HourOf(t), e);
  }

  /** The rest of the hour splits into whole minutes and the rest of the minute. */
  lemma MinuteSplit(t: Instant)
    ensures t % MicrosPerHour == MinuteOf(t) * MicrosPerMinute + t % MicrosPerMinute
  {
    var e := t % MicrosPerHour;
    var f := e % MicrosPerMinute;
    assert e == MinuteOf(t) * MicrosPerMinute + f;
    assert t == ((t / MicrosPerHour) * 60 + MinuteOf(t)) * MicrosPerMinute + f;
  }

  /** Hour and minute together are the time of day, up to the seconds within the minute. */
  lemma ClockOfDay(t: Instant)
    ensures t % MicrosPerDay == HourOf(t) * MicrosPerHour + MinuteOf(t) * MicrosPerMinute + t % MicrosPerMinute
  {
    HourSplit(t);
    MinuteSplit(t);
  }

  // ----- The proleptic Gregorian calendar -----

  predicate IsLeapYear(y: int)
  {
    y % 4 == 0 && (y % 100 != 0 || y % 400 == 0)
  }

  function DaysInYear(y: int): nat
  {
    if IsLeapYear(y) then 366 else 365
  }

  function DaysInMonth(y: int, m: int): nat
    requires 1 <= m <= 12
  {
    if m == 2 then (if IsLeapYear(y) then 29 else 28)
    else if m == 4 || m == 6 || m == 9 || m == 11 then 30
    else 31
  }

  /** Days of year `y` before the first of month `m` (`m == 13` gives the whole year). */
  function DaysBeforeMonth(y: int, m: int): nat
    requires 1 <= m <= 13
  {
    if m == 1 then 0 else DaysBeforeMonth(y, m - 1) + DaysInMonth(y, m - 1)
  }

  /** Days from 0001-01-01 to the first of January of year `y`. */
  function DaysBeforeYear(y: int): nat
    requires y >= 1
  {
    if y == 1 then 0 else DaysBeforeYear(y - 1) + DaysInYear(y - 1)
  }

  /** The twelve months fill the year exactly. */
  lemma MonthsFillYear(y: int)
    ensures DaysBeforeMonth(y, 13) == DaysInYear(y)
  {
    var feb := DaysInMonth(y, 2);
    assert DaysBeforeMonth(y, 2) == 31;
    assert DaysBeforeMonth(y, 3) == 31 + feb;
    assert DaysBeforeMonth(y, 4) == 62 + feb;
    assert DaysBeforeMonth(y, 5) == 92 + feb;
    assert DaysBeforeMonth(y, 6) == 123 + feb;
    assert DaysBeforeMonth(y, 7) == 153 + feb;
    assert DaysBeforeMonth(y, 8) == 184 + feb;
    assert DaysBeforeMonth(y, 9) == 215 + feb;
    assert DaysBeforeMonth(y, 10) == 245 + feb;
    assert DaysBeforeMonth(y, 11) == 276 + feb;
    assert DaysBeforeMonth(y, 12) == 306 + feb;
  }

  datatype Date = Date(year: int, month: int, day: int)

  predicate ValidDate(d: Date)
  {
    d.year >= 1 && 1 <= d.month <= 12 && 1 <= d.day <= DaysInMonth(d.year, d.month)
  }

  /** The day number (days since 0001-01-01) of a calendar date. */
  function DayNumber(d: Date): nat
    requires ValidDate(d)
  {
    DaysBeforeYear(d.year) + DaysBeforeMonth(d.year, d.month) + d.day - 1
  }

  /** The year that holds the day `n` days after the first of January of year `y`, and the
      day's offset within that year. */
  function YearOf(n: nat, y: int): (r: (int, nat))
    requires y >= 1
    ensures r.0 >= y && r.1 < DaysInYear(r.0)
    ensures DaysBeforeYear(r.0) + r.1 == DaysBeforeYear(y) + n
    decreases n
  {
    if n < DaysInYear(y) then (y, n) else YearOf(n - DaysInYear(y), y + 1)
  }

  /** The month of year `y` that holds the day `n` days after the first of month `m`, and
      the day's offset within that month. */
  function MonthOf(y: int, n: nat, m: int): (r: (int, nat))
    requires 1 <= m <= 12 && DaysBeforeMonth(y, m) + n < DaysInYear(y)
    ensures m <= r.0 <= 12 && r.1 < DaysInMonth(y, r.0)
    ensures DaysBeforeMonth(y, r.0) + r.1 == DaysBeforeMonth(y, m) + n
    decreases 12 - m
  {
    MonthsFillYear(y);
    if n < DaysInMonth(y, m) || m == 12 then (m, n)
    else MonthOf(y, n - DaysInMonth(y, m), m + 1)
  }

  /** The calendar date of a day number. */
  function DateOf(n: nat): (d: Date)
    ensures ValidDate(d)
    ensures DayNumber(d) == n
  {
    var (y, dayOfYear) := YearOf(n, 1);
    var (m, dayOfMonth) := MonthOf(y, dayOfYear, 1);
    Date(y, m, dayOfMonth + 1)
  }

  lemma {:induction false} YearsIncrease(y1: int, y2: int)
    requires 1 <= y1 < y2
    ensures DaysBeforeYear(y1) + DaysInYear(y1) <= DaysBeforeYear(y2)
    decreases y2
  {
    if y1 + 1 < y2 {
      YearsIncrease(y1, y2 - 1);
    }
  }

  lemma {:induction false} MonthsIncrease(y: int, m1: int, m2: int)
    requires 1 <= m1 < m2 <= 13
    ensures DaysBeforeMonth(y, m1) + DaysInMonth(y, m1) <= DaysBeforeMonth(y, m2)
    decreases m2
  {
    if m1 + 1 < m2 {
      MonthsIncrease(y, m1, m2 - 1);
    }
  }

  /** A valid date's offset within its year is less than the year's length. */
  lemma DayOfYearBound(d: Date)
    requires ValidDate(d)
    ensures DaysBeforeMonth(d.year, d.month) + d.day - 1 < DaysInYear(d.year)
  {
    MonthsFillYear(d.year);
    if d.month < 12 {
      MonthsIncrease(d.year, d.month, 13);
    }
  }

  /** Distinct valid dates have distinct day numbers. */
  lemma DayNumberInjective(d1: Date, d2: Date)
    requires ValidDate(d1) && ValidDate(d2)
    requires DayNumber(d1) == DayNumber(d2)
    ensures d1 == d2
  {
    DayOfYearBound(d1);
    DayOfYearBound(d2);
    if d1.year < d2.year {
      YearsIncrease(d1.year, d2.year);
    } else if d2.year < d1.year {
      YearsIncrease(d2.year, d1.year);
    } else if d1.month < d2.month {
      MonthsIncrease(d1.year, d1.month, d2.month);
    } else if d2.month < d1.month {
      MonthsIncrease(d2.year, d2.month, d1.month);
    }
  }

  /** Day numbers and calendar dates are in one-to-one correspondence: `DateOf` inverts
      `DayNumber` (and, by its contract, `DayNumber` inverts `DateOf`). */
  lemma DateOfDayNumber(d: Date)
    requires ValidDate(d)
    ensures DateOf(DayNumber(d)) == d
  {
    DayNumberInjective(DateOf(DayNumber(d)), d);
  }

  // ----- Preprocessing of ISO-8601 text -----

  /** What one character becomes under the replacement. */
  function ZuluChunk(c: char): string
  {
    if c == 'Z' then "+00:00" else [c]
  }

  /** `s.replace('Z', '+00:00')`: every `Z` becomes the UTC offset `+00:00`. */
  function ReplaceZulu(s: string): (r: string)
    ensures 'Z' !in r
    ensures 'Z' !in s ==> r == s
  {
    if s == [] then [] else ZuluChunk(s[0]) + ReplaceZulu(s[1..])
  }

  /** The replacement works character by character, so it distributes over concatenation. */
  lemma {:induction false} ReplaceZuluAppend(a: string, b: string)
    ensures ReplaceZulu(a + b) == ReplaceZulu(a) + ReplaceZulu(b)
  {
    if a == [] {
      assert a + b == b;
    } else {
      var ab := a + b;
      assert ab[0] == a[0] && ab[1..] == a[1..] + b;
      ReplaceZuluAppend(a[1..], b);
      calc {
        ReplaceZulu(ab);
        ZuluChunk(a[0]) + ReplaceZulu(a[1..] + b);
        ZuluChunk(a[0]) + (ReplaceZulu(a[1..]) + ReplaceZulu(b));
        (ZuluChunk(a[0]) + ReplaceZulu(a[1..])) + ReplaceZulu(b);
      }
    }
  }

  /** A trailing `Z` (UTC designator) turns into the explicit offset `+00:00`. */
  lemma ZuluSuffix(s: string)
    ensures ReplaceZulu(s + "Z") == ReplaceZulu(s) + "+00:00"
  {
    ReplaceZuluAppend(s, "Z");
  }
}
