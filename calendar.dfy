/**
 * The calendar the extraction engine works with, in place of `java.util.Calendar`:
 * a local time is a day number (day 0 is 1970-01-01) plus a time of day, in one fixed
 * zone without daylight-saving shifts. The day of the week is derived from the day
 * number as `Calendar.DAY_OF_WEEK` numbers it (1 is Sunday, 7 is Saturday). The civil
 * date (year, month, day of month) is derived through the proleptic Gregorian calendar.
 */
module Calendar {

  type Hour = h: int | 0 <= h < 24
  type Minute = m: int | 0 <= m < 60
  type Second = s: int | 0 <= s < 60
  type Milli = ms: int | 0 <= ms < 1000

  datatype TimeOfDay = TimeOfDay(hour: Hour, minute: Minute, second: Second, milli: Milli)

  /** A local point in time, what a `Date` read through a `Calendar` denotes. */
  datatype Instant = Instant(day: int, time: TimeOfDay)

  const SUNDAY := 1
  const MONDAY := 2
  const SATURDAY := 7

  /** Day number of Sunday 1970-01-04, the first Sunday after the epoch. */
  const FIRST_SUNDAY := 3

  const EPOCH_YEAR := 1970
  const MILLIS_PER_DAY := 86_400_000

  /** `Calendar.DAY_OF_WEEK` of a day: 1970-01-01 (day 0) was a Thursday (5). */
  function DayOfWeek(day: int): (w: int)
    ensures SUNDAY <= w <= SATURDAY
  {
    (day + 4) % 7 + 1
  }

  /** Stepping `k` days forward moves the day of the week `k` places round the week. */
  lemma DayOfWeekAfter(day: int, k: int)
    ensures DayOfWeek(day + k) == (DayOfWeek(day) - 1 + k) % 7 + 1
  {
    var x := day + 4;
    assert x == 7 * (x / 7) + x % 7;
    ModuloShift(x / 7, x % 7 + k);
  }

  lemma ModuloShift(q: int, z: int)
    ensures (7 * q + z) % 7 == z % 7
  {
  }

  /** `Calendar.add(DAY_OF_YEAR, n)`: the day moves by `n`, the time of day stays. */
  function AddDays(i: Instant, n: int): Instant {
    Instant(i.day + n, i.time)
  }

  function MillisOfDay(t: TimeOfDay): int {
    ((t.hour * 60 + t.minute) * 60 + t.second) * 1000 + t.milli
  }

  /** `Calendar.timeInMillis`, counted in the fixed local zone. */
  function Millis(i: Instant): int {
    i.day * MILLIS_PER_DAY + MillisOfDay(i.time)
  }

  // ---------------------------------------------------------------------------
  // Civil dates (proleptic Gregorian)

  datatype Date = Date(year: int, month: int, day: int)

  predicate IsLeapYear(y: int) {
    y % 4 == 0 && (y % 100 != 0 || y % 400 == 0)
  }

  function DaysInYear(y: int): int {
    if IsLeapYear(y) then 366 else 365
  }

  function DaysInMonth(y: int, m: int): int
    requires 1 <= m <= 12
  {
    if m == 2 then (if IsLeapYear(y) then 29 else 28)
    else if m == 4 || m == 6 || m == 9 || m == 11 then 30
    else 31
  }

  /** Days of year `y` before the first of month `m`. */
  function DaysBeforeMonth(y: int, m: int): int
    requires 1 <= m <= 12
  {
    var common :=
      if m == 1 then 0 else if m == 2 then 31 else if m == 3 then 59
      else if m == 4 then 90 else if m == 5 then 120 else if m == 6 then 151
      else if m == 7 then 181 else if m == 8 then 212 else if m == 9 then 243
      else if m == 10 then 273 else if m == 11 then 304 else 334;
    common + (if m > 2 && IsLeapYear(y) then 1 else 0)
  }

  predicate ValidDate(d: Date) {
    1 <= d.month <= 12 && 1 <= d.day <= DaysInMonth(d.year, d.month)
  }

  /** Day number of 1 January of year `y`. */
  function YearStart(y: int): int
    decreases if y < EPOCH_YEAR then EPOCH_YEAR - y else y - EPOCH_YEAR
  {
    if y == EPOCH_YEAR then 0
    else if y > EPOCH_YEAR then YearStart(y - 1) + DaysInYear(y - 1)
    else YearStart(y + 1) - DaysInYear(y)
  }

  lemma YearStartNext(y: int)
    ensures YearStart(y + 1) == YearStart(y) + DaysInYear(y)
  {
  }

  /** Years follow one another: a later year starts after an earlier one has ended. */
  lemma {:induction false} YearStartMonotone(a: int, b: int)
    requires a < b
    ensures YearStart(a) + DaysInYear(a) <= YearStart(b)
    decreases b - a
  {
    YearStartNext(a);
    if a + 1 < b {
      YearStartMonotone(a + 1, b);
    }
  }

  /** The year holding day `n`, searched for from year `y`. */
  function FindYear(n: int, y: int): (r: int)
    ensures YearStart(r) <= n < YearStart(r) + DaysInYear(r)
    decreases if n < YearStart(y) then YearStart(y) - n else 0,
              if n < YearStart(y) then 0 else n - YearStart(y)
  {
    if n < YearStart(y) then
      YearStartNext(y - 1);
      FindYear(n, y - 1)
    else if n >= YearStart(y) + DaysInYear(y) then
      YearStartNext(y);
      FindYear(n, y + 1)
    else
      y
  }

  /** Only one year can hold a given day. */
  lemma YearUnique(n: int, a: int, b: int)
    requires YearStart(a) <= n < YearStart(a) + DaysInYear(a)
    requires YearStart(b) <= n < YearStart(b) + DaysInYear(b)
    ensures a == b
  {
    if a < b {
      YearStartMonotone(a, b);
    } else if b < a {
      YearStartMonotone(b, a);
    }
  }

  /** The month holding day `doy` (counted from 0) of year `y`. */
  function MonthOfYearDay(y: int, doy: int): (m: int)
    requires 0 <= doy < DaysInYear(y)
    ensures 1 <= m <= 12
    ensures DaysBeforeMonth(y, m) <= doy < DaysBeforeMonth(y, m) + DaysInMonth(y, m)
  {
    if doy < DaysBeforeMonth(y, 2) then 1
    else if doy < DaysBeforeMonth(y, 3) then 2
    else if doy < DaysBeforeMonth(y, 4) then 3
    else if doy < DaysBeforeMonth(y, 5) then 4
    else if doy < DaysBeforeMonth(y, 6) then 5
    else if doy < DaysBeforeMonth(y, 7) then 6
    else if doy < DaysBeforeMonth(y, 8) then 7
    else if doy < DaysBeforeMonth(y, 9) then 8
    else if doy < DaysBeforeMonth(y, 10) then 9
    else if doy < DaysBeforeMonth(y, 11) then 10
    else if doy < DaysBeforeMonth(y, 12) then 11
    else 12
  }

  /** Day number of a civil date. A day of month past the month's end runs on into the next months, as a lenient `Calendar` does. */
  function DayNumber(d: Date): int
    requires 1 <= d.month <= 12
  {
    YearStart(d.year) + DaysBeforeMonth(d.year, d.month) + d.day - 1
  }

  /** The civil date of day `n`: a valid date whose day number is `n`. */
  function CivilDate(n: int): (d: Date)
    ensures ValidDate(d) && DayNumber(d) == n
  {
    var y := FindYear(n, EPOCH_YEAR);
    var m := MonthOfYearDay(y, n - YearStart(y));
    Date(y, m, n - YearStart(y) - DaysBeforeMonth(y, m) + 1)
  }

  /** Civil dates and day numbers are in one-to-one correspondence: a valid date comes back from its day number. */
  lemma CivilDateOfDayNumber(d: Date)
    requires ValidDate(d)
    ensures CivilDate(DayNumber(d)) == d
  {
    var n := DayNumber(d);
    var c := CivilDate(n);
    assert DaysBeforeMonth(d.year, d.month) + DaysInMonth(d.year, d.month) <= DaysInYear(d.year);
    YearUnique(n, c.year, d.year);
    MonthUnique(d.year, n - YearStart(d.year), d.month);
  }

  /** Only one month of a year can hold a given day of that year. */
  lemma MonthUnique(y: int, doy: int, m: int)
    requires 1 <= m <= 12 && 0 <= doy < DaysInYear(y)
    requires DaysBeforeMonth(y, m) <= doy < DaysBeforeMonth(y, m) + DaysInMonth(y, m)
    ensures MonthOfYearDay(y, doy) == m
  {
  }

  /** `Calendar.get(YEAR)`. */
  function YearOf(i: Instant): int {
    CivilDate(i.day).year
  }

  /**
   * `Calendar.set(YEAR, year)` on a lenient calendar: month, day of month and time of day
   * stay; a 29 February that `year` does not have becomes 1 March.
   */
  function WithYear(i: Instant, year: int): (r: Instant)
    ensures r.time == i.time
    ensures YearOf(r) == year
    ensures var c := CivilDate(i.day);
      CivilDate(r.day) == if c.day <= DaysInMonth(year, c.month) then Date(year, c.month, c.day) else Date(year, 3, 1)
  {
    var c := CivilDate(i.day);
    var target := Date(year, c.month, c.day);
    if c.day <= DaysInMonth(year, c.month) then
      CivilDateOfDayNumber(target);
      Instant(DayNumber(target), i.time)
    else
      assert DayNumber(target) == DayNumber(Date(year, 3, 1));
      CivilDateOfDayNumber(Date(year, 3, 1));
      Instant(DayNumber(target), i.time)
  }
}
