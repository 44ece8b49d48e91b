/**
 * The proleptic Gregorian calendar in UTC, as `Instant.atZone(ZoneId.of("UTC"))`
 * sees it: an epoch-second count becomes a civil date and a time of day.
 *
 * The reference is `EpochSecondOf`, which counts the days and seconds from
 * 1970-01-01T00:00:00Z to a date and time by the calendar's rules.
 * `UtcDateTime` computes the date and time of an epoch second by the usual
 * 400-year-cycle arithmetic; it is proved to be the inverse of the reference.
 */
module Calendar {

  datatype Date = Date(year: int, month: int, day: int)

  datatype DateTime = DateTime(date: Date, hour: int, minute: int, second: int)

  predicate IsLeapYear(y: int) {
    y % 4 == 0 && (y % 100 != 0 || y % 400 == 0)
  }

  function DaysInYear(y: int): int {
    if IsLeapYear(y) then 366 else 365
  }

  function DaysInMonth(y: int, m: int): (n: int)
    requires 1 <= m <= 12
    ensures 28 <= n <= 31
  {
    if m == 2 then (if IsLeapYear(y) then 29 else 28)
    else if m == 4 || m == 6 || m == 9 || m == 11 then 30
    else 31
  }

  predicate ValidDate(d: Date) {
    1 <= d.month <= 12 && 1 <= d.day <= DaysInMonth(d.year, d.month)
  }

  predicate ValidDateTime(t: DateTime) {
    ValidDate(t.date) && 0 <= t.hour < 24 && 0 <= t.minute < 60 && 0 <= t.second < 60
  }

  /** Days of year `y` before the first of month `m`; `m == 13` gives the whole year. */
  function DaysBeforeMonth(y: int, m: int): int
    requires 1 <= m <= 13
  {
    [0, 31, 59, 90, 120, 151, 181, 212, 243, 273, 304, 334, 365][m - 1]
      + (if m > 2 && IsLeapYear(y) then 1 else 0)
  }

  /** The month table agrees with the month lengths and with the year length. */
  lemma MonthsAddUp(y: int, m: int)
    requires 1 <= m <= 12
    ensures DaysBeforeMonth(y, 1) == 0 && DaysBeforeMonth(y, 13) == DaysInYear(y)
    ensures DaysBeforeMonth(y, m + 1) == DaysBeforeMonth(y, m) + DaysInMonth(y, m)
  {
  }

  /** Leap years in [1, y) for positive `y`; for other `y` the same count shifted, so differences stay exact. */
  function LeapYearsBefore(y: int): int {
    (y - 1) / 4 - (y - 1) / 100 + (y - 1) / 400
  }

  /** Days from 1970-01-01 to the first of January of year `y` (negative before 1970). */
  function DaysBeforeYear(y: int): int {
    365 * (y - 1970) + LeapYearsBefore(y) - LeapYearsBefore(1970)
  }

  /** The year count agrees with the year lengths: it starts at 1970 and grows by each year's length. */
  lemma YearsAddUp(y: int)
    ensures DaysBeforeYear(1970) == 0
    ensures DaysBeforeYear(y + 1) == DaysBeforeYear(y) + DaysInYear(y)
  {
    EpochYear();
    Step4(y);
    Step100(y);
    Step400(y);
  }

  lemma EpochYear()
    ensures LeapYearsBefore(1970) == 477 && DaysBeforeYear(1970) == 0
  {
  }

  lemma Step4(y: int)
    ensures y / 4 - (y - 1) / 4 == (if y % 4 == 0 then 1 else 0)
  {
  }

  lemma Step100(y: int)
    ensures y / 100 - (y - 1) / 100 == (if y % 100 == 0 then 1 else 0)
  {
  }

  lemma Step400(y: int)
    ensures y / 400 - (y - 1) / 400 == (if y % 400 == 0 then 1 else 0)
  {
  }

  /** The number of days from 1970-01-01 to `d`. */
  function EpochDay(d: Date): int
    requires ValidDate(d)
  {
    DaysBeforeYear(d.year) + DaysBeforeMonth(d.year, d.month) + d.day - 1
  }

  /** The number of seconds from 1970-01-01T00:00:00Z to `t`, leap seconds ignored as in java.time. */
  function EpochSecondOf(t: DateTime): int
    requires ValidDateTime(t)
  {
    EpochDay(t.date) * 86400 + t.hour * 3600 + t.minute * 60 + t.second
  }

  // ---------------------------------------------------------------------------
  // From a day count to a date
  // ---------------------------------------------------------------------------

  /** Days of a March-based year before the first of its month `mp` (0 = March, 11 = February). */
  function MarchMonthStart(mp: int): int {
    (153 * mp + 2) / 5
  }

  /** The March-based month table, read off against the January-based one. */
  lemma MarchMonthStarts(y: int, mp: int)
    requires 0 <= mp < 12
    ensures mp < 10 ==> DaysBeforeMonth(y, mp + 3) == 59 + (if IsLeapYear(y) then 1 else 0) + MarchMonthStart(mp)
    ensures mp >= 10 ==> DaysBeforeMonth(y, mp - 9) == MarchMonthStart(mp) - 306
    ensures mp < 11 ==> MarchMonthStart(mp + 1) - MarchMonthStart(mp) == DaysInMonth(y, if mp < 10 then mp + 3 else mp - 9)
    ensures mp == 11 ==> MarchMonthStart(mp) == 337
  {
    if mp == 0 {} else if mp == 1 {} else if mp == 2 {} else if mp == 3 {}
    else if mp == 4 {} else if mp == 5 {} else if mp == 6 {} else if mp == 7 {}
    else if mp == 8 {} else if mp == 9 {} else if mp == 10 {} else {}
  }

  /** The month of day `doy` of a March-based year, and the bounds that place the day in it. */
  lemma MarchMonthOf(doy: int)
    requires 0 <= doy <= 365
    ensures var mp := (5 * doy + 2) / 153;
      0 <= mp < 12 && MarchMonthStart(mp) <= doy && (mp < 11 ==> doy < MarchMonthStart(mp + 1))
  {
  }

  /** The day count of the first day of a March-based year, split along the 400-, 100-, 4- and 1-year cycles. */
  lemma MarchYearStart(era: int, c: int, q4: int, y1: int)
    requires 0 <= c < 4 && 0 <= q4 < 25 && 0 <= y1 < 4
    ensures var y := 400 * era + 100 * c + 4 * q4 + y1;
      365 * y + LeapYearsBefore(y + 1) == 146097 * era + 36524 * c + 1461 * q4 + 365 * y1
  {
    var y := 400 * era + 100 * c + 4 * q4 + y1;
    assert y == 4 * (100 * era + 25 * c + q4) + y1;
    assert y / 4 == 100 * era + 25 * c + q4;
    assert y == 100 * (4 * era + c) + (4 * q4 + y1);
    assert y / 100 == 4 * era + c;
    assert y == 400 * era + (100 * c + 4 * q4 + y1);
    assert y / 400 == era;
  }

  /** The 366th day of a March-based year exists only when the following February has 29 days. */
  lemma LastMarchDayIsLeap(era: int, c: int, q4: int)
    requires 0 <= c < 4 && 0 <= q4 < 25
    requires q4 == 24 ==> c == 3
    ensures IsLeapYear(400 * era + 100 * c + 4 * q4 + 3 + 1)
  {
    var y := 400 * era + 100 * c + 4 * q4 + 4;
    if q4 == 24 {
      assert y == 400 * (era + 1);
      MultipleOf400(era + 1);
    } else {
      assert y == 4 * (100 * era + 25 * c + q4 + 1);
      MultipleOf4(100 * era + 25 * c + q4 + 1);
      assert y == 100 * (4 * era + c) + 4 * (q4 + 1);
      CenturyRemainder(4 * era + c, 4 * (q4 + 1));
    }
  }

  lemma MultipleOf4(k: int)
    ensures (4 * k) % 4 == 0
  {
  }

  lemma MultipleOf400(k: int)
    ensures (400 * k) % 4 == 0 && (400 * k) % 100 == 0 && (400 * k) % 400 == 0
  {
  }

  lemma CenturyRemainder(h: int, r: int)
    requires 0 <= r < 100
    ensures (100 * h + r) % 100 == r
  {
  }

  /**
   * Splits a day count from 0000-03-01 into a March-based year and a day of
   * that year, along 400-year eras, centuries, 4-year cycles and years. The
   * year's last day, its 366th, exists only when the following February has 29.
   */
  function SplitMarchYear(n: int): (r: (int, int))
    ensures 0 <= r.1 <= 365 && (r.1 == 365 ==> IsLeapYear(r.0 + 1))
    ensures 365 * r.0 + LeapYearsBefore(r.0 + 1) + r.1 == n
  {
    var era := n / 146097;
    var r400 := n % 146097;
    var c := if r400 / 36524 < 3 then r400 / 36524 else 3;
    var r100 := r400 - 36524 * c;
    var q4 := r100 / 1461;
    var r4 := r100 % 1461;
    var y1 := if r4 / 365 < 3 then r4 / 365 else 3;
    var doy := r4 - 365 * y1;
    var marchYear := 400 * era + 100 * c + 4 * q4 + y1;
    assert 0 <= q4 < 25 && 0 <= doy <= 365;
    MarchYearStart(era, c, q4, y1);
    assert doy == 365 ==> IsLeapYear(marchYear + 1) by {
      if doy == 365 {
        assert y1 == 3 && r4 == 1460;
        assert q4 == 24 ==> c == 3;
        LastMarchDayIsLeap(era, c, q4);
      }
    }
    (marchYear, doy)
  }

  /**
   * The date `z` days after 1970-01-01. The count is shifted to start on
   * 0000-03-01, so that a leap day falls at the end of its year.
   */
  function CivilFromDays(z: int): (d: Date)
    ensures ValidDate(d) && EpochDay(d) == z
  {
    var (marchYear, doy) := SplitMarchYear(z + 719468);
    var mp := (5 * doy + 2) / 153;
    var day := doy - MarchMonthStart(mp) + 1;
    var d := if mp < 10 then Date(marchYear, mp + 3, day) else Date(marchYear + 1, mp - 9, day);
    assert ValidDate(d) && EpochDay(d) == z by {
      MarchMonthOf(doy);
      MarchMonthStarts(d.year, mp);
      YearsAddUp(marchYear);
    }
    d
  }

  lemma SplitSecondOfDay(secondOfDay: int)
    requires 0 <= secondOfDay < 86400
    ensures 0 <= secondOfDay / 3600 < 24 && 0 <= secondOfDay % 3600 / 60 < 60 && 0 <= secondOfDay % 60 < 60
    ensures secondOfDay == secondOfDay / 3600 * 3600 + secondOfDay % 3600 / 60 * 60 + secondOfDay % 60
  {
    var h, r := secondOfDay / 3600, secondOfDay % 3600;
    assert secondOfDay == h * 3600 + r;
    assert r == r / 60 * 60 + r % 60;
    assert secondOfDay % 60 == r % 60;
  }

  /** The date and time of day, in UTC, of `epochSecond` seconds after 1970-01-01T00:00:00Z. */
  function UtcDateTime(epochSecond: int): (t: DateTime)
    ensures ValidDateTime(t) && EpochSecondOf(t) == epochSecond
  {
    var days := epochSecond / 86400;
    var secondOfDay := epochSecond % 86400;
    var date := CivilFromDays(days);
    var t := DateTime(date, secondOfDay / 3600, secondOfDay % 3600 / 60, secondOfDay % 60);
    assert ValidDateTime(t) && EpochSecondOf(t) == epochSecond by {
      SplitSecondOfDay(secondOfDay);
      assert epochSecond == days * 86400 + secondOfDay;
    }
    t
  }

  // ---------------------------------------------------------------------------
  // The reference is one-to-one, so the computed date is the only answer
  // ---------------------------------------------------------------------------

  lemma {:induction false} YearStartsIncrease(a: int, b: int)
    requires a < b
    ensures DaysBeforeYear(a + 1) <= DaysBeforeYear(b)
    decreases b - a
  {
    if a + 1 < b {
      YearStartsIncrease(a, b - 1);
      YearsAddUp(b - 1);
    }
  }

  lemma DayWithinYear(d: Date)
    requires ValidDate(d)
    ensures DaysBeforeYear(d.year) <= EpochDay(d) < DaysBeforeYear(d.year + 1)
  {
    MonthsAddUp(d.year, d.month);
    YearsAddUp(d.year);
  }

  lemma {:induction false} MonthStartsIncrease(y: int, m1: int, m2: int)
    requires 1 <= m1 < m2 <= 13
    ensures DaysBeforeMonth(y, m1 + 1) <= DaysBeforeMonth(y, m2)
    decreases m2 - m1
  {
    if m1 + 1 < m2 {
      MonthStartsIncrease(y, m1, m2 - 1);
      MonthsAddUp(y, m2 - 1);
    }
  }

  /** Two valid dates of the same year with the same day of the year are the same date. */
  lemma DayOfYearInjective(a: Date, b: Date)
    requires ValidDate(a) && ValidDate(b) && a.year == b.year
    requires DaysBeforeMonth(a.year, a.month) + a.day == DaysBeforeMonth(b.year, b.month) + b.day
    ensures a == b
  {
    MonthsAddUp(a.year, a.month);
    MonthsAddUp(b.year, b.month);
    if a.month < b.month {
      MonthStartsIncrease(a.year, a.month, b.month);
    } else if b.month < a.month {
      MonthStartsIncrease(a.year, b.month, a.month);
    }
  }

  /** Two valid dates with the same day count are the same date. */
  lemma EpochDayInjective(a: Date, b: Date)
    requires ValidDate(a) && ValidDate(b) && EpochDay(a) == EpochDay(b)
    ensures a == b
  {
    DayWithinYear(a);
    DayWithinYear(b);
    if a.year < b.year {
      YearStartsIncrease(a.year, b.year);
    } else if b.year < a.year {
      YearStartsIncrease(b.year, a.year);
    }
    DayOfYearInjective(a, b);
  }

  /** Every valid date is reached from its own day count. */
  lemma CivilFromEpochDay(d: Date)
    requires ValidDate(d)
    ensures CivilFromDays(EpochDay(d)) == d
  {
    EpochDayInjective(CivilFromDays(EpochDay(d)), d);
  }

  lemma ClockRange(h: int, m: int, sec: int)
    requires 0 <= h < 24 && 0 <= m < 60 && 0 <= sec < 60
    ensures 0 <= h * 3600 + m * 60 + sec < 86400
  {
  }

  /** Division by a positive `k` has one quotient and one remainder. */
  lemma QuotientUnique(q1: int, r1: int, q2: int, r2: int, k: int)
    requires k > 0 && 0 <= r1 < k && 0 <= r2 < k
    requires q1 * k + r1 == q2 * k + r2
    ensures q1 == q2 && r1 == r2
  {
    var d := q2 - q1;
    assert d * k == q2 * k - q1 * k;
    MultipleBounds(d, k);
  }

  lemma MultipleBounds(d: int, k: int)
    requires k > 0
    ensures d == 0 || d * k >= k || d * k <= -k
  {
    if d >= 1 {
      assert d * k == (d - 1) * k + k;
    } else if d <= -1 {
      assert d * k == (d + 1) * k - k;
    }
  }

  lemma ClockUnique(h1: int, m1: int, s1: int, h2: int, m2: int, s2: int)
    requires 0 <= m1 < 60 && 0 <= s1 < 60 && 0 <= m2 < 60 && 0 <= s2 < 60
    requires h1 * 3600 + m1 * 60 + s1 == h2 * 3600 + m2 * 60 + s2
    ensures h1 == h2 && m1 == m2 && s1 == s2
  {
    QuotientUnique(h1, m1 * 60 + s1, h2, m2 * 60 + s2, 3600);
    QuotientUnique(m1, s1, m2, s2, 60);
  }

  /** Every valid date and time is reached from its own epoch second. */
  lemma UtcDateTimeOfEpochSecond(t: DateTime)
    requires ValidDateTime(t)
    ensures UtcDateTime(EpochSecondOf(t)) == t
  {
    var u := UtcDateTime(EpochSecondOf(t));
    var sa := t.hour * 3600 + t.minute * 60 + t.second;
    var sb := u.hour * 3600 + u.minute * 60 + u.second;
    ClockRange(t.hour, t.minute, t.second);
    ClockRange(u.hour, u.minute, u.second);
    QuotientUnique(EpochDay(u.date), sb, EpochDay(t.date), sa, 86400);
    ClockUnique(u.hour, u.minute, u.second, t.hour, t.minute, t.second);
    EpochDayInjective(u.date, t.date);
  }
}
