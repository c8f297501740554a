/** Calendar readings and the instants they denote.

    `time.Parse` with a layout that names no zone yields a UTC time; the
    model keeps such a time as its calendar fields (`DateTime`) and maps it
    to an `Instant`, a count of nanoseconds since 0001-01-01 00:00 UTC (the
    instant Go's zero `time.Time` stands for), in the proleptic Gregorian
    calendar Go uses. */
module Calendar {

  /** Nanoseconds since 0001-01-01 00:00:00 UTC. */
  type Instant = int

  const NanosPerSecond: int := 1_000_000_000
  const NanosPerMinute: int := 60 * NanosPerSecond

  /** The instant of Go's zero `time.Time`. */
  const ZeroInstant: Instant := 0

  datatype DateTime = DateTime(year: nat, month: nat, day: nat, hour: nat, minute: nat)

  predicate IsLeap(y: nat) {
    y % 4 == 0 && (y % 100 != 0 || y % 400 == 0)
  }

  function DaysInYear(y: nat): nat {
    if IsLeap(y) then 366 else 365
  }

  /** Go's `daysIn`: the number of days of month `m` in year `y`. */
  function DaysIn(m: nat, y: nat): nat
    requires 1 <= m <= 12
  {
    if m == 2 then (if IsLeap(y) then 29 else 28)
    else if m == 4 || m == 6 || m == 9 || m == 11 then 30
    else 31
  }

  /** A reading that names an existing minute of the calendar. */
  predicate Valid(dt: DateTime) {
    1 <= dt.month <= 12 && 1 <= dt.day <= DaysIn(dt.month, dt.year)
    && dt.hour < 24 && dt.minute < 60
  }

  /** What a Go `time.Time` read in UTC always is: a valid reading. */
  type Time = dt: DateTime | Valid(dt) witness DateTime(1, 1, 1, 0, 0)

  /** Strict calendar order: earlier year, then month, day, hour, minute. */
  predicate Before(a: DateTime, b: DateTime) {
    a.year < b.year
    || (a.year == b.year && a.month < b.month)
    || (a.year == b.year && a.month == b.month && a.day < b.day)
    || (a.year == b.year && a.month == b.month && a.day == b.day && a.hour < b.hour)
    || (a.year == b.year && a.month == b.month && a.day == b.day && a.hour == b.hour && a.minute < b.minute)
  }

  /** Days from 0001-01-01 to the first day of year `y`. */
  function DaysBeforeYear(y: nat): int {
    var p := y - 1;
    365 * p + p / 4 - p / 100 + p / 400
  }

  /** Days from the first of January of `y` to the first of month `m`. */
  function DaysBeforeMonth(m: nat, y: nat): nat
    requires 1 <= m <= 12
  {
    [0, 31, 59, 90, 120, 151, 181, 212, 243, 273, 304, 334][m - 1]
    + (if m > 2 && IsLeap(y) then 1 else 0)
  }

  function DayNumber(dt: DateTime): int
    requires 1 <= dt.month <= 12
  {
    DaysBeforeYear(dt.year) + DaysBeforeMonth(dt.month, dt.year) + dt.day - 1
  }

  /** The instant a UTC calendar reading denotes. */
  function ToInstant(dt: DateTime): Instant
    requires 1 <= dt.month <= 12
  {
    (DayNumber(dt) * 1440 + dt.hour * 60 + dt.minute) * NanosPerMinute
  }

  lemma LeapCount(y: nat)
    ensures (if y % 4 == 0 then 1 else 0) - (if y % 100 == 0 then 1 else 0) + (if y % 400 == 0 then 1 else 0)
            == DaysInYear(y) - 365
  {
    if y % 400 == 0 {
      var q := y / 400;
      assert y == 100 * (4 * q) && y == 4 * (100 * q);
    } else if y % 100 == 0 {
      var q := y / 100;
      assert y == 4 * (25 * q);
    }
  }

  /** Consecutive years are as far apart as the earlier year is long. */
  lemma YearLength(y: nat)
    ensures DaysBeforeYear(y + 1) == DaysBeforeYear(y) + DaysInYear(y)
  {
    assert y / 4 - (y - 1) / 4 == if y % 4 == 0 then 1 else 0;
    assert y / 100 - (y - 1) / 100 == if y % 100 == 0 then 1 else 0;
    assert y / 400 - (y - 1) / 400 == if y % 400 == 0 then 1 else 0;
    LeapCount(y);
  }

  lemma {:induction false} YearsApart(y1: nat, y2: nat)
    requires y1 < y2
    ensures DaysBeforeYear(y1) + DaysInYear(y1) <= DaysBeforeYear(y2)
    decreases y2 - y1
  {
    YearLength(y1);
    if y1 + 1 < y2 {
      YearsApart(y1 + 1, y2);
      YearLength(y2 - 1);
    }
  }

  lemma MonthsApart(m1: nat, m2: nat, y: nat)
    requires 1 <= m1 < m2 <= 12
    ensures DaysBeforeMonth(m1, y) + DaysIn(m1, y) <= DaysBeforeMonth(m2, y)
  {
  }

  lemma LastMonth(m: nat, y: nat)
    requires 1 <= m <= 12
    ensures DaysBeforeMonth(m, y) + DaysIn(m, y) <= DaysInYear(y)
  {
  }

  /** Calendar order and instant order agree on valid readings: `ToInstant`
      is strictly increasing, so comparing instants (as the deadline checks
      and the due-task query do) compares readings. */
  lemma {:induction false} ToInstantMonotone(a: DateTime, b: DateTime)
    requires Valid(a) && Valid(b)
    ensures Before(a, b) <==> ToInstant(a) < ToInstant(b)
    ensures a == b <==> ToInstant(a) == ToInstant(b)
  {
    if Before(a, b) {
      StrictlyIncreasing(a, b);
    } else if Before(b, a) {
      StrictlyIncreasing(b, a);
    }
  }

  lemma StrictlyIncreasing(a: DateTime, b: DateTime)
    requires Valid(a) && Valid(b) && Before(a, b)
    ensures ToInstant(a) < ToInstant(b)
  {
    DayNumberOrder(a, b);
    var ma := MinutesOrder(DayNumber(a), DayNumber(b), a.hour * 60 + a.minute, b.hour * 60 + b.minute);
    ScaleOrder(ma, DayNumber(b) * 1440 + b.hour * 60 + b.minute);
  }

  /** Minutes since the epoch follow the day, then the minute of the day. */
  lemma MinutesOrder(da: int, db: int, ta: int, tb: int) returns (ma: int)
    requires 0 <= ta < 1440 && 0 <= tb < 1440
    requires da < db || (da == db && ta < tb)
    ensures ma == da * 1440 + ta && ma < db * 1440 + tb
  {
    ma := da * 1440 + ta;
    if da < db {
      assert da * 1440 + 1440 <= db * 1440;
    }
  }

  lemma ScaleOrder(x: int, y: int)
    requires x < y
    ensures x * NanosPerMinute < y * NanosPerMinute
  {
  }

  lemma DayNumberOrder(a: DateTime, b: DateTime)
    requires Valid(a) && Valid(b) && Before(a, b)
    ensures DayNumber(a) < DayNumber(b)
            || (DayNumber(a) == DayNumber(b) && a.hour * 60 + a.minute < b.hour * 60 + b.minute)
  {
    if a.year < b.year {
      LastMonth(a.month, a.year);
      YearsApart(a.year, b.year);
    } else if a.month < b.month {
      MonthsApart(a.month, b.month, a.year);
    }
  }
}
