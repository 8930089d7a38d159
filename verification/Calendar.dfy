/** Civil time: to_datetime of user/lib/time.h and rtc_unix_timestamp of kernel/io/rtc.c. */
module Calendar {
  import Division

  datatype Datetime = Datetime(year: nat, month: nat, day: nat, hour: nat, min: nat, sec: nat)

  predicate IsLeap(y: nat) { (y % 4 == 0 && y % 100 != 0) || y % 400 == 0 }

  function DaysInYear(y: nat): nat { if IsLeap(y) then 366 else 365 }

  function DaysInMonth(y: nat, m: nat): nat
    requires 1 <= m <= 12
  {
    if m == 2 then (if IsLeap(y) then 29 else 28)
    else if m in {4, 6, 9, 11} then 30
    else 31
  }

  predicate ValidTime(d: Datetime) { d.hour < 24 && d.min < 60 && d.sec < 60 }

  predicate Valid(d: Datetime) {
    && 1 <= d.month <= 12
    && 1 <= d.day <= DaysInMonth(d.year, d.month)
    && ValidTime(d)
  }

  // ---- from a date to a day number -----------------------------------------------------------

  function DaysBefore(y: nat): nat {
    if y <= 1970 then 0 else DaysBefore(y - 1) + DaysInYear(y - 1)
  }

  function MonthStart(y: nat, m: nat): nat
    requires m <= 13
  {
    if m <= 1 then 0 else MonthStart(y, m - 1) + DaysInMonth(y, m - 1)
  }

  function DayNumber(d: Datetime): int
    requires d.month <= 13
  {
    DaysBefore(d.year) + MonthStart(d.year, d.month) + d.day - 1
  }

  function Timestamp(d: Datetime): int
    requires d.month <= 13
  {
    DayNumber(d) * 86400 + d.hour * 3600 + d.min * 60 + d.sec
  }

  /** From March on the months follow one straight line: 31 and 30 days in turn, with two exceptions that fall into place. */
  lemma {:induction false} MonthStartClosed(y: nat, m: nat)
    requires 3 <= m <= 13
    ensures MonthStart(y, m) == 59 + (if IsLeap(y) then 1 else 0) + (153 * (m - 3) + 2) / 5
    ensures MonthStart(y, 1) == 0 && MonthStart(y, 2) == 31
  {
    hide IsLeap;
    if m > 3 { MonthStartClosed(y, m - 1); }
    assert MonthStart(y, 2) == MonthStart(y, 1) + 31;
  }

  /** The same count in closed form: 365 days a year and the leap days of the Gregorian rule. */
  lemma {:induction false} DaysBeforeClosed(y: nat)
    requires y >= 1970
    ensures DaysBefore(y) == 365 * (y - 1970) + LeapsThrough(y - 1) - LeapsThrough(1969)
  {
    if y > 1970 {
      DaysBeforeClosed(y - 1);
      LeapCount(y - 1);
      hide IsLeap, LeapsThrough;
    }
  }

  function LeapsThrough(y: nat): int { y / 4 - y / 100 + y / 400 }

  lemma LeapCount(y: nat)
    requires y > 0
    ensures LeapsThrough(y) == LeapsThrough(y - 1) + if IsLeap(y) then 1 else 0
  {
    QuotientStep(y, 4);
    QuotientStep(y, 100);
    QuotientStep(y, 400);
    if y % 400 == 0 { Division.Unique(y, 100, y / 400 * 4, 0); }
    if y % 100 == 0 { Division.Unique(y, 4, y / 100 * 25, 0); }
  }

  lemma QuotientStep(y: nat, n: nat)
    requires y > 0 && n > 1
    ensures y / n == (y - 1) / n + if y % n == 0 then 1 else 0
  {
    var q, r := (y - 1) / n, (y - 1) % n;
    assert y == q * n + (r + 1);
    if r + 1 < n {
      Division.Unique(y, n, q, r + 1);
    } else {
      assert y == (q + 1) * n + 0;
      Division.Unique(y, n, q + 1, 0);
    }
  }

  // ---- from a day number to a date --------------------------------------------------------------

  /** to_datetime's first loop; the year is a 32-bit counter. */
  function YearFrom(y: nat, days: nat): (nat, nat)
    decreases days
  {
    if days < DaysInYear(y) then (y, days) else YearFrom(NextYear(y), days - DaysInYear(y))
  }

  function NextYear(y: nat): nat { if y == 0xFFFF_FFFF then 0 else y + 1 }

  function MonthFrom(y: nat, m: nat, days: nat): (nat, nat)
    requires 1 <= m <= 13
    decreases 13 - m
  {
    if m == 13 || days < DaysInMonth(y, m) then (m, days) else MonthFrom(y, m + 1, days - DaysInMonth(y, m))
  }

  /** Year, month and day of a day number. */
  function DateOf(days: nat): (nat, nat, nat) {
    var (year, rest) := YearFrom(1970, days);
    var (month, left) := MonthFrom(year, 1, rest);
    (year, month, left + 1)
  }

  function FromTimestamp(ts: nat): Datetime {
    var (year, month, day) := DateOf(ts / 60 / 60 / 24);
    Datetime(year, month, day, ts / 60 / 60 % 24, ts / 60 % 60, ts % 60)
  }

  lemma {:induction false} YearFromInRange(y: nat, days: nat)
    requires y <= 0xFFFF_FFFF
    ensures var (year, rest) := YearFrom(y, days);
      year <= 0xFFFF_FFFF && rest < DaysInYear(year)
    decreases days
  {
    if days >= DaysInYear(y) { YearFromInRange(NextYear(y), days - DaysInYear(y)); }
  }

  /** Until the counter would wrap, the days are only regrouped. */
  lemma {:induction false} YearFromExact(y: nat, days: nat)
    requires 1970 <= y <= 0xFFFF_FFFF && DaysBefore(y) + days < DaysBefore(0x1_0000_0000)
    ensures var (year, rest) := YearFrom(y, days);
      y <= year && DaysBefore(y) + days == DaysBefore(year) + rest
    decreases days
  {
    if days >= DaysInYear(y) {
      assert DaysBefore(y + 1) == DaysBefore(y) + DaysInYear(y);
      YearFromExact(y + 1, days - DaysInYear(y));
    }
  }

  lemma {:induction false} MonthFromExact(y: nat, m: nat, days: nat)
    requires 1 <= m <= 12 && MonthStart(y, m) + days < DaysInYear(y)
    ensures var (month, left) := MonthFrom(y, m, days);
      && 1 <= month <= 12 && left < DaysInMonth(y, month)
      && MonthStart(y, m) + days == MonthStart(y, month) + left
    decreases 13 - m
  {
    YearIsMonths(y);
    if days >= DaysInMonth(y, m) {
      MonthFromExact(y, m + 1, days - DaysInMonth(y, m));
    }
  }

  lemma YearIsMonths(y: nat)
    ensures MonthStart(y, 13) == DaysInYear(y)
  {
    assert MonthStart(y, 2) == 31;
    assert MonthStart(y, 3) == 31 + DaysInMonth(y, 2);
    assert MonthStart(y, 5) == MonthStart(y, 3) + 61;
    assert MonthStart(y, 7) == MonthStart(y, 5) + 61;
    assert MonthStart(y, 9) == MonthStart(y, 7) + 62;
    assert MonthStart(y, 11) == MonthStart(y, 9) + 61;
  }

  // ---- mutual inverses ----------------------------------------------------------------------------

  lemma {:induction false} DaysBeforeMonotone(y: nat, z: nat)
    requires y <= z
    ensures DaysBefore(y) <= DaysBefore(z)
    ensures 1970 <= y < z ==> DaysBefore(y) + DaysInYear(y) <= DaysBefore(z)
  {
    if y < z { DaysBeforeMonotone(y, z - 1); }
  }

  lemma {:induction false} MonthStartMonotone(y: nat, m: nat, n: nat)
    requires 1 <= m < n <= 13
    ensures MonthStart(y, m) + DaysInMonth(y, m) <= MonthStart(y, n)
  {
    if m < n - 1 { MonthStartMonotone(y, m, n - 1); }
  }

  /** A day of a year lies before the next one, also where the year is before 1970. */
  lemma DayInYear(d: Datetime)
    requires Valid(d)
    ensures DaysBefore(d.year) <= DayNumber(d) < DaysBefore(d.year) + DaysInYear(d.year)
  {
    MonthStartMonotone(d.year, d.month, 13);
    YearIsMonths(d.year);
  }

  lemma SplitSeconds(ts: nat)
    ensures ts == ts / 60 / 60 / 24 * 86400 + ts / 60 / 60 % 24 * 3600 + ts / 60 % 60 * 60 + ts % 60
  {
  }

  lemma DateOfValid(days: nat)
    ensures var (year, month, day) := DateOf(days);
      year <= 0xFFFF_FFFF && 1 <= month <= 12 && 1 <= day <= DaysInMonth(year, month)
  {
    hide IsLeap, DaysInMonth, DaysInYear;
    YearFromInRange(1970, days);
    var (year, rest) := YearFrom(1970, days);
    MonthFromExact(year, 1, rest);
  }

  lemma FromTimestampValid(ts: nat)
    ensures Valid(FromTimestamp(ts)) && FromTimestamp(ts).year <= 0xFFFF_FFFF
  {
    hide DateOf, DaysInMonth;
    DateOfValid(ts / 60 / 60 / 24);
  }

  /** The first second whose year does not fit the counter. */
  function YearLimit(): int { DaysBefore(0x1_0000_0000) * 86400 }

  /** The kernel's arithmetic undoes to_datetime for exactly the timestamps before that second. */
  lemma TimestampInverse(ts: nat)
    ensures FromTimestamp(ts).month <= 13
    ensures Timestamp(FromTimestamp(ts)) == ts <==> ts < YearLimit()
  {
    var days, d := ts / 60 / 60 / 24, FromTimestamp(ts);
    FromTimestampValid(ts);
    SplitSeconds(ts);
    if days < DaysBefore(0x1_0000_0000) {
      YearFromInRange(1970, days);
      YearFromExact(1970, days);
      var (year, rest) := YearFrom(1970, days);
      MonthFromExact(year, 1, rest);
    } else {
      DayInYear(d);
      BeforeLimit(d);
    }
  }

  lemma BeforeLimit(d: Datetime)
    requires Valid(d) && d.year <= 0xFFFF_FFFF
    ensures Timestamp(d) < YearLimit()
  {
    DayInYear(d);
    if d.year < 1970 {
      DaysBeforeMonotone(1970, 0x1_0000_0000);
    } else {
      DaysBeforeMonotone(d.year, 0x1_0000_0000);
    }
  }

  predicate Earlier(a: Datetime, b: Datetime) {
    a.year < b.year || (a.year == b.year && (
      a.month < b.month || (a.month == b.month && (
        a.day < b.day || (a.day == b.day && (
          a.hour < b.hour || (a.hour == b.hour && (
            a.min < b.min || (a.min == b.min && a.sec < b.sec)))))))))
  }

  /** From 1970 on, calendar order is the order of timestamps. */
  lemma TimestampOrder(a: Datetime, b: Datetime)
    requires Valid(a) && Valid(b) && a.year >= 1970 && b.year >= 1970
    ensures Earlier(a, b) <==> Timestamp(a) < Timestamp(b)
  {
    if Earlier(a, b) { EarlierIsLess(a, b); }
    if Earlier(b, a) { EarlierIsLess(b, a); }
  }

  lemma EarlierIsLess(a: Datetime, b: Datetime)
    requires Valid(a) && Valid(b) && 1970 <= a.year && Earlier(a, b)
    ensures Timestamp(a) < Timestamp(b)
  {
    DayInYear(a);
    DayInYear(b);
    if a.year < b.year {
      DaysBeforeMonotone(a.year, b.year);
    } else if a.month < b.month {
      MonthStartMonotone(a.year, a.month, b.month);
    }
    hide DaysBefore, MonthStart;
    assert DayNumber(a) <= DayNumber(b);
  }

  /** to_datetime undoes the kernel's arithmetic on every valid date from 1970 on with a 32-bit year. */
  lemma DateInverse(d: Datetime)
    requires Valid(d) && 1970 <= d.year <= 0xFFFF_FFFF
    ensures Timestamp(d) >= 0 && FromTimestamp(Timestamp(d)) == d
  {
    var ts := Timestamp(d);
    DayInYear(d);
    BeforeLimit(d);
    TimestampInverse(ts);
    FromTimestampValid(ts);
    var e := FromTimestamp(ts);
    YearFromExact(1970, ts / 60 / 60 / 24);
    TimestampOrder(d, e);
    TimestampOrder(e, d);
  }

  // ---- the loops -----------------------------------------------------------------------------------------

  method ToDatetime(timestamp: nat) returns (d: Datetime)
    ensures d == FromTimestamp(timestamp)
  {
    var ts := timestamp;
    var sec := ts % 60;
    ts := ts / 60;
    var min := ts % 60;
    ts := ts / 60;
    var hour := ts % 24;
    ts := ts / 24;
    ghost var days := ts;
    var y := 1970;
    while true
      invariant YearFrom(y, ts) == YearFrom(1970, days)
      decreases ts
    {
      var length := if IsLeap(y) then 366 else 365;
      if ts < length {
        break;
      }
      ts := ts - length;
      y := NextYear(y);
    }
    var m := 1;
    while m <= 12
      invariant 1 <= m <= 13
      invariant YearFrom(1970, days).0 == y && MonthFrom(y, m, ts) == MonthFrom(y, 1, YearFrom(1970, days).1)
    {
      var length := DaysInMonth(y, m);
      if ts < length {
        break;
      }
      ts := ts - length;
      m := m + 1;
    }
    d := Datetime(y, m, ts + 1, hour, min, sec);
  }

  /** The seconds since 1970 of a clock reading, as a 64-bit number. */
  method UnixTimestamp(t: Datetime) returns (r: nat)
    requires t.month <= 13
    ensures r == Timestamp(t) % 0x1_0000_0000_0000_0000
  {
    hide IsLeap;
    var days: int := 0;
    var y := 1970;
    while y < t.year
      invariant y <= t.year || y == 1970
      invariant days == DaysBefore(y)
    {
      days := days + if IsLeap(y) then 366 else 365;
      y := y + 1;
    }
    assert days == DaysBefore(t.year);
    var m := 1;
    while m < t.month
      invariant 1 <= m && (m <= t.month || m == 1)
      invariant days == DaysBefore(t.year) + MonthStart(t.year, m)
    {
      days := days + MonthLength(m);
      if m == 2 && IsLeap(t.year) {
        days := days + 1;
      }
      m := m + 1;
    }
    days := days + t.day - 1;
    r := (days * 86400 + t.hour * 3600 + t.min * 60 + t.sec) % 0x1_0000_0000_0000_0000;
  }

  /** The table of a common year. */
  function MonthLength(m: nat): nat
    requires 1 <= m <= 12
  {
    [31, 28, 31, 30, 31, 30, 31, 31, 30, 31, 30, 31][m - 1]
  }
}
