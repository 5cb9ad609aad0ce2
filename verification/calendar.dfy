/** The proleptic Gregorian calendar of Python's `datetime`, restricted to
    UTC and to whole seconds.

    A `DateTime` is the civil reading of an instant: year 1..9999, a valid
    day of the month, 24-hour time. Instants are counted in seconds from
    1970-01-01T00:00:00 through the day ordinal that `date.toordinal()`
    uses (0001-01-01 is day 1). */
module Calendar {

  const MinYear := 1
  const MaxYear := 9999

  predicate IsLeap(y: int)
  {
    y % 4 == 0 && (y % 100 != 0 || y % 400 == 0)
  }

  function DaysInYear(y: int): int
  {
    if IsLeap(y) then 366 else 365
  }

  function DaysInMonth(y: int, m: int): int
    requires 1 <= m <= 12
  {
    if m == 2 then (if IsLeap(y) then 29 else 28)
    else if m == 4 || m == 6 || m == 9 || m == 11 then 30
    else 31
  }

  /** Days in the years before `y` (the year 1 starts at 0). */
  function DaysBeforeYear(y: int): int
    requires y >= 1
  {
    var p := y - 1;
    p * 365 + p / 4 - p / 100 + p / 400
  }

  /** Days in the months of `y` before `m`. */
  function DaysBeforeMonth(y: int, m: int): int
    requires 1 <= m <= 12
  {
    var common :=
      if m == 1 then 0 else if m == 2 then 31 else if m == 3 then 59
      else if m == 4 then 90 else if m == 5 then 120 else if m == 6 then 151
      else if m == 7 then 181 else if m == 8 then 212 else if m == 9 then 243
      else if m == 10 then 273 else if m == 11 then 304 else 334;
    common + (if m > 2 && IsLeap(y) then 1 else 0)
  }

  /** The day count after 9999-12-31. */
  const MaxOrdinal := 3652059
  /** The proleptic Gregorian ordinal of 1 January 1970, the Unix epoch:
      `date(1970, 1, 1).toordinal()`. */
  const EpochOrdinal := 719163

  predicate ValidDate(y: int, m: int, d: int)
  {
    MinYear <= y <= MaxYear && 1 <= m <= 12 && 1 <= d <= DaysInMonth(y, m)
  }

  function Ordinal(y: int, m: int, d: int): int
    requires ValidDate(y, m, d)
  {
    DaysBeforeYear(y) + DaysBeforeMonth(y, m) + d
  }

  datatype Civil = Civil(year: int, month: int, day: int, hour: int, minute: int, second: int)

  predicate ValidCivil(c: Civil)
  {
    && ValidDate(c.year, c.month, c.day)
    && 0 <= c.hour < 24 && 0 <= c.minute < 60 && 0 <= c.second < 60
  }

  /** A timezone-aware UTC `datetime.datetime` with whole seconds. */
  type DateTime = c: Civil | ValidCivil(c) witness Civil(1970, 1, 1, 0, 0, 0)

  // ---------------------------------------------------------------------
  // Year and month arithmetic

  lemma DaysBeforeYearStep(y: int)
    requires y >= 1
    ensures DaysBeforeYear(y + 1) == DaysBeforeYear(y) + DaysInYear(y)
  {
    DivStep4(y);
    DivStep100(y);
    DivStep400(y);
  }

  /** One more year adds one to the count of multiples of 4, 100 and 400
      exactly when the year is such a multiple. */
  lemma DivStep4(y: int)
    ensures y / 4 == (y - 1) / 4 + (if y % 4 == 0 then 1 else 0)
  {
  }

  lemma DivStep100(y: int)
    ensures y / 100 == (y - 1) / 100 + (if y % 100 == 0 then 1 else 0)
  {
  }

  lemma DivStep400(y: int)
    ensures y / 400 == (y - 1) / 400 + (if y % 400 == 0 then 1 else 0)
  {
  }

  lemma {:induction false} DaysBeforeYearMonotone(a: int, b: int)
    requires 1 <= a <= b
    ensures DaysBeforeYear(a) + (b - a) * 365 <= DaysBeforeYear(b)
    decreases b - a
  {
    if a < b {
      DaysBeforeYearMonotone(a, b - 1);
      DaysBeforeYearStep(b - 1);
    }
  }

  lemma DaysBeforeMonthStep(y: int, m: int)
    requires 1 <= m < 12
    ensures DaysBeforeMonth(y, m + 1) == DaysBeforeMonth(y, m) + DaysInMonth(y, m)
  {
  }

  lemma DaysBeforeMonthLast(y: int)
    ensures DaysBeforeMonth(y, 12) + DaysInMonth(y, 12) == DaysInYear(y)
  {
  }

  lemma {:induction false} DaysBeforeMonthMonotone(y: int, a: int, b: int)
    requires 1 <= a <= b <= 12
    ensures DaysBeforeMonth(y, a) + DaysInMonth(y, a) <= DaysBeforeMonth(y, b) || a == b
    decreases b - a
  {
    if a < b - 1 {
      DaysBeforeMonthMonotone(y, a, b - 1);
    }
  }

  /** The year holding day `n`, scanning upward from `y`. */
  function YearOf(n: int, y: int): (r: int)
    requires MinYear <= y <= MaxYear
    requires DaysBeforeYear(y) < n <= MaxOrdinal
    ensures y <= r <= MaxYear
    ensures DaysBeforeYear(r) < n <= DaysBeforeYear(r) + DaysInYear(r)
    decreases MaxYear - y
  {
    DaysBeforeYearStep(y);
    if n <= DaysBeforeYear(y + 1) then y else YearOf(n, y + 1)
  }

  /** The month holding day `doy` of year `y`, scanning upward from `m`. */
  function MonthOf(y: int, doy: int, m: int): (r: int)
    requires 1 <= m <= 12
    requires DaysBeforeMonth(y, m) < doy <= DaysInYear(y)
    ensures m <= r <= 12
    ensures DaysBeforeMonth(y, r) < doy <= DaysBeforeMonth(y, r) + DaysInMonth(y, r)
    decreases 12 - m
  {
    if m == 12 then (DaysBeforeMonthLast(y); m)
    else if doy <= DaysBeforeMonth(y, m + 1) then (DaysBeforeMonthStep(y, m); m)
    else MonthOf(y, doy, m + 1)
  }

  datatype Date = Date(year: int, month: int, day: int)

  /** `date.fromordinal(n)`: the date whose ordinal is `n`. */
  function FromOrdinal(n: int): (r: Date)
    requires 1 <= n <= MaxOrdinal
    ensures ValidDate(r.year, r.month, r.day)
    ensures Ordinal(r.year, r.month, r.day) == n
  {
    var y := YearOf(n, MinYear);
    var doy := n - DaysBeforeYear(y);
    var m := MonthOf(y, doy, 1);
    Date(y, m, doy - DaysBeforeMonth(y, m))
  }

  /** Ordinals of valid dates lie in 1..MaxOrdinal and locate their year and month. */
  lemma OrdinalBounds(y: int, m: int, d: int)
    requires ValidDate(y, m, d)
    ensures DaysBeforeYear(y) < Ordinal(y, m, d) <= DaysBeforeYear(y) + DaysInYear(y)
    ensures 1 <= Ordinal(y, m, d) <= MaxOrdinal
  {
    if m < 12 {
      DaysBeforeMonthMonotone(y, m, 12);
    }
    DaysBeforeMonthLast(y);
    DaysBeforeYearStep(y);
    DaysBeforeYearMonotone(y + 1, MaxYear + 1);
  }

  /** Two years whose day ranges both hold `n` are the same year. */
  lemma YearUnique(n: int, a: int, b: int)
    requires MinYear <= a <= MaxYear && MinYear <= b <= MaxYear
    requires DaysBeforeYear(a) < n <= DaysBeforeYear(a) + DaysInYear(a)
    requires DaysBeforeYear(b) < n <= DaysBeforeYear(b) + DaysInYear(b)
    ensures a == b
  {
    if a < b {
      DaysBeforeYearStep(a);
      DaysBeforeYearMonotone(a + 1, b);
    } else if b < a {
      DaysBeforeYearStep(b);
      DaysBeforeYearMonotone(b + 1, a);
    }
  }

  lemma MonthUnique(y: int, doy: int, a: int, b: int)
    requires 1 <= a <= 12 && 1 <= b <= 12
    requires DaysBeforeMonth(y, a) < doy <= DaysBeforeMonth(y, a) + DaysInMonth(y, a)
    requires DaysBeforeMonth(y, b) < doy <= DaysBeforeMonth(y, b) + DaysInMonth(y, b)
    ensures a == b
  {
    if a < b {
      DaysBeforeMonthMonotone(y, a, b);
    } else if b < a {
      DaysBeforeMonthMonotone(y, b, a);
    }
  }

  /** Turning a valid date into its day number and back gives the same
      date: `date.fromordinal(d.toordinal()) == d`. */
  lemma FromOrdinalOrdinal(y: int, m: int, d: int)
    requires ValidDate(y, m, d)
    ensures 1 <= Ordinal(y, m, d) <= MaxOrdinal
    ensures FromOrdinal(Ordinal(y, m, d)) == Date(y, m, d)
  {
    var n := Ordinal(y, m, d);
    OrdinalBounds(y, m, d);
    var r := FromOrdinal(n);
    YearUnique(n, r.year, y);
    MonthUnique(y, n - DaysBeforeYear(y), r.month, m);
  }

  // ---------------------------------------------------------------------
  // Seconds from the epoch

  const SecondsPerDay := 86400
  /** 0001-01-01T00:00:00 */
  const MinSeconds := -62135596800
  /** 9999-12-31T23:59:59 */
  const MaxSeconds := 253402300799

  /** `(dt - EPOCH).total_seconds()` for a whole-second UTC datetime. */
  function ToSeconds(dt: DateTime): (t: int)
    ensures MinSeconds <= t <= MaxSeconds
  {
    OrdinalBounds(dt.year, dt.month, dt.day);
    (Ordinal(dt.year, dt.month, dt.day) - EpochOrdinal) * SecondsPerDay
      + dt.hour * 3600 + dt.minute * 60 + dt.second
  }

  /** `EPOCH + timedelta(seconds=t)` for a `t` inside the datetime range. */
  function FromSeconds(t: int): (dt: DateTime)
    requires MinSeconds <= t <= MaxSeconds
    ensures ToSeconds(dt) == t
  {
    var days := t / SecondsPerDay;
    var rem := t % SecondsPerDay;
    DayBounds(t);
    ClockSplit(rem);
    var date := FromOrdinal(days + EpochOrdinal);
    Civil(date.year, date.month, date.day, rem / 3600, rem % 3600 / 60, rem % 60)
  }

  lemma DayBounds(t: int)
    requires MinSeconds <= t <= MaxSeconds
    ensures 1 <= t / SecondsPerDay + EpochOrdinal <= MaxOrdinal
    ensures t == t / SecondsPerDay * SecondsPerDay + t % SecondsPerDay
  {
  }

  lemma ClockSplit(rem: int)
    requires 0 <= rem < SecondsPerDay
    ensures 0 <= rem / 3600 < 24 && 0 <= rem % 3600 / 60 < 60
    ensures rem == rem / 3600 * 3600 + rem % 3600 / 60 * 60 + rem % 60
  {
  }

  /** The epoch reading of a datetime determines it: converting back gives
      the same datetime. */
  lemma FromSecondsToSeconds(dt: DateTime)
    ensures FromSeconds(ToSeconds(dt)) == dt
  {
    var t := ToSeconds(dt);
    var n := Ordinal(dt.year, dt.month, dt.day);
    var clock := dt.hour * 3600 + dt.minute * 60 + dt.second;
    assert 0 <= clock < SecondsPerDay;
    assert t / SecondsPerDay == n - EpochOrdinal;
    assert t % SecondsPerDay == clock;
    FromOrdinalOrdinal(dt.year, dt.month, dt.day);
  }

  /** Distinct datetimes are distinct instants. */
  lemma ToSecondsInjective(a: DateTime, b: DateTime)
    requires ToSeconds(a) == ToSeconds(b)
    ensures a == b
  {
    FromSecondsToSeconds(a);
    FromSecondsToSeconds(b);
  }

  /** The epoch itself. */
  const Epoch: DateTime := Civil(1970, 1, 1, 0, 0, 0)

  lemma EpochIsZero()
    ensures ToSeconds(Epoch) == 0
  {
  }
}
