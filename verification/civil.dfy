/**
 * Proleptic Gregorian civil date-times and their relation to Unix seconds.
 *
 * A `DateTime` is the model of a `PrimitiveDateTime` (time crate) or a
 * `NaiveDateTime` (chrono) without its sub-second part. Day numbers count
 * days since 0000-01-01; Unix day 0 is 1970-01-01, i.e. day number 719528.
 */
module Civil {
  import opened Wrappers

  datatype DateTime = DateTime(year: int, month: int, day: int, hour: int, minute: int, second: int)

  predicate IsLeapYear(y: int) {
    y % 4 == 0 && (y % 100 != 0 || y % 400 == 0)
  }

  function YearLength(y: int): int {
    if IsLeapYear(y) then 366 else 365
  }

  function DaysInMonth(y: int, m: int): int
    requires 1 <= m <= 12
  {
    if m == 2 then (if IsLeapYear(y) then 29 else 28)
    else if m == 4 || m == 6 || m == 9 || m == 11 then 30
    else 31
  }

  predicate ValidDate(y: int, m: int, d: int) {
    1 <= m <= 12 && 1 <= d <= DaysInMonth(y, m)
  }

  predicate ValidTime(h: int, mi: int, s: int) {
    0 <= h < 24 && 0 <= mi < 60 && 0 <= s < 60
  }

  predicate Valid(dt: DateTime) {
    ValidDate(dt.year, dt.month, dt.day) && ValidTime(dt.hour, dt.minute, dt.second)
  }

  /** Days from 0000-01-01 to y-01-01; `/` floors, so this holds for every year. */
  function DaysBeforeYear(y: int): int {
    365 * y + (y + 3) / 4 - (y + 99) / 100 + (y + 399) / 400
  }

  /** Days from y-01-01 to the first day of month m. */
  function DaysBeforeMonth(y: int, m: int): int
    requires 1 <= m <= 12
  {
    var common := [0, 31, 59, 90, 120, 151, 181, 212, 243, 273, 304, 334][m - 1];
    if m > 2 && IsLeapYear(y) then common + 1 else common
  }

  /** Days from 0000-01-01 to y-m-d. */
  function DayNumber(y: int, m: int, d: int): int
    requires 1 <= m <= 12
  {
    DaysBeforeYear(y) + DaysBeforeMonth(y, m) + d - 1
  }

  const UNIX_EPOCH_DAY: int := 719528
  const SECONDS_PER_DAY: int := 86400
  const DAYS_PER_CYCLE: int := 146097

  // ---------------------------------------------------------------------
  // Facts about the year and month tables

  /** One more year passes a multiple of n exactly when y itself is one. */
  lemma StepBy4(y: int)
    ensures (y + 4) / 4 == (y + 3) / 4 + (if y % 4 == 0 then 1 else 0)
  {
  }

  lemma StepBy100(y: int)
    ensures (y + 100) / 100 == (y + 99) / 100 + (if y % 100 == 0 then 1 else 0)
  {
  }

  lemma StepBy400(y: int)
    ensures (y + 400) / 400 == (y + 399) / 400 + (if y % 400 == 0 then 1 else 0)
  {
  }

  lemma YearStep(y: int)
    ensures DaysBeforeYear(y + 1) == DaysBeforeYear(y) + YearLength(y)
  {
    StepBy4(y);
    StepBy100(y);
    StepBy400(y);
    DivisorsNest(y);
  }

  /** Every multiple of 400 is one of 100, and every multiple of 100 one of 4. */
  lemma DivisorsNest(y: int)
    ensures y % 400 == 0 ==> y % 100 == 0
    ensures y % 100 == 0 ==> y % 4 == 0
  {
  }

  /** Adding whole multiples of the divisor shifts the quotient and keeps the remainder. */
  lemma ShiftBy4(a: int, k: int)
    ensures (a + 4 * k) / 4 == a / 4 + k && (a + 4 * k) % 4 == a % 4
  {
  }

  lemma ShiftBy100(a: int, k: int)
    ensures (a + 100 * k) / 100 == a / 100 + k && (a + 100 * k) % 100 == a % 100
  {
  }

  lemma ShiftBy400(a: int, k: int)
    ensures (a + 400 * k) / 400 == a / 400 + k && (a + 400 * k) % 400 == a % 400
  {
  }

  lemma CycleShift(y: int, q: int)
    ensures DaysBeforeYear(y + 400 * q) == DaysBeforeYear(y) + DAYS_PER_CYCLE * q
    ensures YearLength(y + 400 * q) == YearLength(y)
  {
    ShiftBy4(y + 3, 100 * q);
    ShiftBy4(y, 100 * q);
    ShiftBy100(y + 99, 4 * q);
    ShiftBy100(y, 4 * q);
    ShiftBy400(y + 399, q);
    ShiftBy400(y, q);
  }

  lemma {:induction false} YearsMonotone(a: int, b: int)
    requires a <= b
    ensures DaysBeforeYear(a) <= DaysBeforeYear(b)
    ensures a < b ==> DaysBeforeYear(a + 1) <= DaysBeforeYear(b)
    decreases b - a
  {
    if a < b {
      YearsMonotone(a, b - 1);
      YearStep(b - 1);
      YearStep(a);
    }
  }

  lemma MonthStep(y: int, m: int)
    requires 1 <= m <= 12
    ensures m < 12 ==> DaysBeforeMonth(y, m + 1) == DaysBeforeMonth(y, m) + DaysInMonth(y, m)
    ensures m == 12 ==> DaysBeforeMonth(y, m) + DaysInMonth(y, m) == YearLength(y)
  {
  }

  lemma {:induction false} MonthsMonotone(y: int, a: int, b: int)
    requires 1 <= a < b <= 12
    ensures DaysBeforeMonth(y, a) + DaysInMonth(y, a) <= DaysBeforeMonth(y, b)
    decreases b - a
  {
    MonthStep(y, a);
    if a + 1 < b {
      MonthsMonotone(y, a + 1, b);
      MonthStep(y, a + 1);
    }
  }

  // ---------------------------------------------------------------------
  // From a day number back to a calendar date

  /** The year j of a 400-year cycle whose days contain day r of the cycle. */
  function YearInCycle(r: int, j: int): (y: int)
    requires 0 <= r < DAYS_PER_CYCLE && 0 <= j < 400 && DaysBeforeYear(j) <= r
    ensures j <= y < 400
    ensures DaysBeforeYear(y) <= r < DaysBeforeYear(y + 1)
    decreases 400 - j
  {
    if r < DaysBeforeYear(j + 1) then j else YearInCycle(r, j + 1)
  }

  /** The month of year y that contains the zero-based day of year `doy`. */
  function MonthOfDay(y: int, doy: int, m: int): (month: int)
    requires 1 <= m <= 12 && DaysBeforeMonth(y, m) <= doy < YearLength(y)
    ensures m <= month <= 12
    ensures DaysBeforeMonth(y, month) <= doy < DaysBeforeMonth(y, month) + DaysInMonth(y, month)
    decreases 12 - m
  {
    MonthStep(y, m);
    if m == 12 || doy < DaysBeforeMonth(y, m + 1) then m else MonthOfDay(y, doy, m + 1)
  }

  datatype Date = Date(year: int, month: int, day: int)

  /** The calendar date of day number n (days since 0000-01-01). */
  function DateOfDay(n: int): (d: Date)
    ensures ValidDate(d.year, d.month, d.day)
    ensures DayNumber(d.year, d.month, d.day) == n
  {
    var q := n / DAYS_PER_CYCLE;
    var r := n % DAYS_PER_CYCLE;
    var j := YearInCycle(r, 0);
    var y := 400 * q + j;
    DayOfCycleYear(q, r, j);
    var doy := r - DaysBeforeYear(j);
    var m := MonthOfDay(y, doy, 1);
    Date(y, m, doy - DaysBeforeMonth(y, m) + 1)
  }

  lemma DayOfCycleYear(q: int, r: int, j: int)
    requires 0 <= j < 400 && DaysBeforeYear(j) <= r < DaysBeforeYear(j + 1)
    ensures DaysBeforeYear(400 * q + j) + (r - DaysBeforeYear(j)) == DAYS_PER_CYCLE * q + r
    ensures 0 <= r - DaysBeforeYear(j) < YearLength(400 * q + j)
  {
    CycleShift(j, q);
    YearStep(j);
  }

  /** Distinct valid dates have distinct day numbers, so DateOfDay inverts DayNumber. */
  lemma DateOfDayNumber(y: int, m: int, d: int)
    requires ValidDate(y, m, d)
    ensures DateOfDay(DayNumber(y, m, d)) == Date(y, m, d)
  {
    var n := DayNumber(y, m, d);
    var e := DateOfDay(n);
    DayNumberInYear(y, m, d);
    DayNumberInYear(e.year, e.month, e.day);
    if e.year < y {
      YearsMonotone(e.year, y);
    } else if y < e.year {
      YearsMonotone(y, e.year);
    }
    assert e.year == y;
    if e.month < m {
      MonthsMonotone(y, e.month, m);
    } else if m < e.month {
      MonthsMonotone(y, m, e.month);
    }
  }

  /** A valid date's day number lies inside its year. */
  lemma DayNumberInYear(y: int, m: int, d: int)
    requires ValidDate(y, m, d)
    ensures DaysBeforeYear(y) <= DayNumber(y, m, d) < DaysBeforeYear(y + 1)
  {
    YearStep(y);
    MonthStep(y, m);
    if m < 12 {
      MonthsMonotone(y, m, 12);
      MonthStep(y, 12);
    }
  }

  // ---------------------------------------------------------------------
  // Unix seconds

  /**
   * Seconds since 1970-01-01T00:00:00 of `dt` read as UTC
   * (`assume_utc().unix_timestamp()`): the epoch is 0, and for a valid time of
   * day the floor quotient by the day length counts the days since the epoch
   * and the remainder is the second of the day.
   */
  function ToUnix(dt: DateTime): (secs: int)
    requires 1 <= dt.month <= 12
    ensures dt == DateTime(1970, 1, 1, 0, 0, 0) ==> secs == 0
    ensures ValidTime(dt.hour, dt.minute, dt.second) ==>
      secs / SECONDS_PER_DAY == DayNumber(dt.year, dt.month, dt.day) - UNIX_EPOCH_DAY
      && secs % SECONDS_PER_DAY == dt.hour * 3600 + dt.minute * 60 + dt.second
  {
    (DayNumber(dt.year, dt.month, dt.day) - UNIX_EPOCH_DAY) * SECONDS_PER_DAY
      + dt.hour * 3600 + dt.minute * 60 + dt.second
  }

  /** The UTC civil date-time of a Unix second count, for every integer. */
  function FromUnix(secs: int): (dt: DateTime)
    ensures Valid(dt)
    ensures ToUnix(dt) == secs
  {
    var days := secs / SECONDS_PER_DAY;
    var sod := secs % SECONDS_PER_DAY;
    DaysAndSeconds(secs);
    SecondOfDay(sod);
    var date := DateOfDay(days + UNIX_EPOCH_DAY);
    DateTime(date.year, date.month, date.day, sod / 3600, sod % 3600 / 60, sod % 60)
  }

  /** Floor division by the day length leaves a second of the day. */
  lemma DaysAndSeconds(secs: int)
    ensures secs / 86400 * 86400 + secs % 86400 == secs && 0 <= secs % 86400 < 86400
  {
  }

  /** A second of the day splits into hour, minute and second. */
  lemma SecondOfDay(sod: int)
    requires 0 <= sod < 86400
    ensures sod / 3600 * 3600 + sod % 3600 / 60 * 60 + sod % 60 == sod
    ensures 0 <= sod / 3600 < 24 && 0 <= sod % 3600 / 60 < 60 && 0 <= sod % 60 < 60
  {
  }

  /** Converting a valid date-time to seconds and back gives it back. */
  lemma FromUnixToUnix(dt: DateTime)
    requires Valid(dt)
    ensures FromUnix(ToUnix(dt)) == dt
  {
    var secs := ToUnix(dt);
    var sod := dt.hour * 3600 + dt.minute * 60 + dt.second;
    assert 0 <= sod < SECONDS_PER_DAY;
    var days := DayNumber(dt.year, dt.month, dt.day) - UNIX_EPOCH_DAY;
    assert secs == days * SECONDS_PER_DAY + sod;
    assert secs / SECONDS_PER_DAY == days;
    assert secs % SECONDS_PER_DAY == sod;
    DateOfDayNumber(dt.year, dt.month, dt.day);
  }

  /** ToUnix is one-to-one on valid date-times. */
  lemma ToUnixInjective(a: DateTime, b: DateTime)
    requires Valid(a) && Valid(b)
    ensures ToUnix(a) == ToUnix(b) ==> a == b
  {
    FromUnixToUnix(a);
    FromUnixToUnix(b);
  }

  /**
   * The expression of POSIX.1-2017, Base Definitions section 4.16 (Seconds
   * Since the Epoch), with `tm_year` = year - 1900, `tm_yday` the zero-based
   * day of the year and C's truncating division.
   */
  function PosixSeconds(tmSec: int, tmMin: int, tmHour: int, tmYday: int, tmYear: int): int {
    tmSec + tmMin * 60 + tmHour * 3600 + tmYday * 86400
      + (tmYear - 70) * 31536000 + CDiv(tmYear - 69, 4) * 86400
      - CDiv(tmYear - 1, 100) * 86400 + CDiv(tmYear + 299, 400) * 86400
  }

  /** C integer division, which truncates toward zero. */
  function CDiv(a: int, b: int): int
    requires b > 0
  {
    if a >= 0 then a / b else -((-a) / b)
  }

  /** From 1970 on, ToUnix agrees with the POSIX expression. */
  lemma ToUnixIsPosix(dt: DateTime)
    requires Valid(dt) && dt.year >= 1970
    ensures ToUnix(dt) == PosixSeconds(dt.second, dt.minute, dt.hour,
                                       DaysBeforeMonth(dt.year, dt.month) + dt.day - 1, dt.year - 1900)
  {
    var t := dt.year - 1900;
    assert (dt.year + 3) / 4 == (t - 69) / 4 + 493;
    assert (dt.year + 99) / 100 == (t - 1) / 100 + 20;
    assert (dt.year + 399) / 400 == (t + 299) / 400 + 5;
  }

  // ---------------------------------------------------------------------
  // Representable ranges of the two date-time libraries

  /** `time` without large dates: years -9999 through 9999. */
  const TIME_MIN_YEAR: int := -9999
  const TIME_MAX_YEAR: int := 9999
  /** Unix seconds of -9999-01-01T00:00:00 and 9999-12-31T23:59:59. */
  const TIME_MIN_UNIX: int := -377705116800
  const TIME_MAX_UNIX: int := 253402300799

  /** chrono 0.4: years `i32::MIN >> 13` through `i32::MAX >> 13`. */
  const CHRONO_MIN_YEAR: int := -262144
  const CHRONO_MAX_YEAR: int := 262143

  predicate InTimeRange(dt: DateTime) {
    TIME_MIN_YEAR <= dt.year <= TIME_MAX_YEAR
  }

  lemma TimeRangeBounds()
    ensures ToUnix(DateTime(TIME_MIN_YEAR, 1, 1, 0, 0, 0)) == TIME_MIN_UNIX
    ensures ToUnix(DateTime(TIME_MAX_YEAR, 12, 31, 23, 59, 59)) == TIME_MAX_UNIX
  {
  }

  /** A valid date-time's year is in the time crate's range iff its Unix seconds are. */
  lemma TimeRangeIsUnixRange(dt: DateTime)
    requires Valid(dt)
    ensures InTimeRange(dt) <==> TIME_MIN_UNIX <= ToUnix(dt) <= TIME_MAX_UNIX
  {
    DayNumberInYear(dt.year, dt.month, dt.day);
    var y := dt.year;
    if y >= TIME_MIN_YEAR {
      YearsMonotone(TIME_MIN_YEAR, y);
    } else {
      YearsMonotone(y + 1, TIME_MIN_YEAR);
    }
    if y <= TIME_MAX_YEAR {
      YearsMonotone(y + 1, TIME_MAX_YEAR + 1);
    } else {
      YearsMonotone(TIME_MAX_YEAR + 1, y);
    }
    assert DaysBeforeYear(TIME_MIN_YEAR) == -3652059;
    assert DaysBeforeYear(TIME_MAX_YEAR + 1) == 3652425;
  }

  /**
   * `OffsetDateTime::from_unix_timestamp` followed by dropping the offset:
   * fails outside the representable range.
   */
  function TimeFromUnix(secs: int): (r: Option<DateTime>)
    ensures r.Some? <==> TIME_MIN_UNIX <= secs <= TIME_MAX_UNIX
    ensures r.Some? ==> Valid(r.value) && InTimeRange(r.value) && ToUnix(r.value) == secs
  {
    TimeRangeIsUnixRange(FromUnix(secs));
    if TIME_MIN_UNIX <= secs <= TIME_MAX_UNIX then Some(FromUnix(secs)) else None
  }

  /** chrono's `NaiveDateTime::from_timestamp_opt(secs, 0)`: `None` outside chrono's year range. */
  function ChronoFromUnix(secs: int): (r: Option<DateTime>)
    ensures r.Some? ==> Valid(r.value) && ToUnix(r.value) == secs
    ensures r.Some? <==> CHRONO_MIN_YEAR <= FromUnix(secs).year <= CHRONO_MAX_YEAR
  {
    var dt := FromUnix(secs);
    if CHRONO_MIN_YEAR <= dt.year <= CHRONO_MAX_YEAR then Some(dt) else None
  }

  /** Every instant the time crate can represent, chrono can too. */
  lemma ChronoCoversTimeRange(secs: int)
    requires TIME_MIN_UNIX <= secs <= TIME_MAX_UNIX
    ensures ChronoFromUnix(secs) == TimeFromUnix(secs)
  {
  }

  // ---------------------------------------------------------------------
  // Building a date-time from parsed numeric components

  /**
   * What the time crate accepts after parsing the numeric components of
   * `[year]..[second]`: a real calendar date, 24-hour time, seconds up to 59.
   */
  function TimeCrateDateTime(y: int, mo: int, d: int, h: int, mi: int, s: int): (r: Option<DateTime>)
    ensures r.Some? <==> Valid(DateTime(y, mo, d, h, mi, s)) && TIME_MIN_YEAR <= y <= TIME_MAX_YEAR
    ensures r.Some? ==> r.value == DateTime(y, mo, d, h, mi, s)
  {
    var dt := DateTime(y, mo, d, h, mi, s);
    if Valid(dt) && InTimeRange(dt) then Some(dt) else None
  }

  /**
   * What chrono accepts: as above, except that a second of 60 is taken as a
   * leap second, stored as second 59 plus one extra second of nanoseconds;
   * the model keeps no nanoseconds, so it becomes second 59.
   */
  function ChronoDateTime(y: int, mo: int, d: int, h: int, mi: int, s: int): (r: Option<DateTime>)
    ensures r.Some? <==> Valid(DateTime(y, mo, d, h, mi, if s == 60 then 59 else s))
                          && CHRONO_MIN_YEAR <= y <= CHRONO_MAX_YEAR
    ensures r.Some? ==> r.value == DateTime(y, mo, d, h, mi, if s == 60 then 59 else s)
    ensures 0 <= s < 60 && r.Some? ==> r.value.second == s
  {
    var dt := DateTime(y, mo, d, h, mi, if s == 60 then 59 else s);
    if Valid(dt) && CHRONO_MIN_YEAR <= y <= CHRONO_MAX_YEAR then Some(dt) else None
  }
}
