/** The proleptic Gregorian calendar of Python's `datetime.date`: years 1 to
    9999, leap years, day numbers counted from 0001-01-01 (a Monday), weekdays
    and the last Sunday of a month. */
module Calendar {

  datatype Date = Date(year: int, month: int, day: int)

  const MinYear := 1
  const MaxYear := 9999

  predicate IsLeapYear(y: int)
  {
    y % 4 == 0 && (y % 100 != 0 || y % 400 == 0)
  }

  function DaysInYear(y: int): int
  {
    if IsLeapYear(y) then 366 else 365
  }

  function DaysInMonth(y: int, m: int): (n: int)
    requires 1 <= m <= 12
    ensures 28 <= n <= 31
  {
    if m == 2 then (if IsLeapYear(y) then 29 else 28)
    else if m == 4 || m == 6 || m == 9 || m == 11 then 30
    else 31
  }

  /** The dates `datetime.date` accepts. */
  predicate ValidDate(d: Date)
  {
    MinYear <= d.year <= MaxYear && 1 <= d.month <= 12 && 1 <= d.day <= DaysInMonth(d.year, d.month)
  }

  /** Days in the years before `y`, counted from year 1: 365 a year plus one
      for each leap year among them. */
  function DaysBeforeYear(y: int): nat
    requires y >= 1
  {
    var p := y - 1;
    365 * p + p / 4 - p / 100 + p / 400
  }

  /** The years lie end to end: year `y` starts where year `y - 1` ends. */
  lemma YearsFillDays(y: int)
    requires y >= 2
    ensures DaysBeforeYear(y) == DaysBeforeYear(y - 1) + DaysInYear(y - 1)
  {
    var q := y - 1;
    DivisionSteps(q);
    LeapMultiples(q);
    assert DaysInYear(q) == 365 + CountsStep(q, 4) - CountsStep(q, 100) + CountsStep(q, 400);
  }

  /** 1 when `q` is a multiple of `k`, else 0. */
  function CountsStep(q: int, k: int): int
    requires k > 0
  {
    if q % k == 0 then 1 else 0
  }

  /** The multiples of 4, 100 and 400 up to `q` grow by one exactly at their
      multiples. */
  lemma DivisionSteps(q: int)
    requires q >= 1
    ensures q / 4 == (q - 1) / 4 + CountsStep(q, 4)
    ensures q / 100 == (q - 1) / 100 + CountsStep(q, 100)
    ensures q / 400 == (q - 1) / 400 + CountsStep(q, 400)
  {
  }

  /** Every multiple of 400 is one of 100, and every multiple of 100 one of 4. */
  lemma LeapMultiples(q: int)
    ensures q % 400 == 0 ==> q % 100 == 0
    ensures q % 100 == 0 ==> q % 4 == 0
  {
  }

  /** Days in the months of year `y` before month `m`. */
  function DaysBeforeMonth(y: int, m: int): nat
    requires 1 <= m <= 12
  {
    [0, 31, 59, 90, 120, 151, 181, 212, 243, 273, 304, 334][m - 1]
    + (if m > 2 && IsLeapYear(y) then 1 else 0)
  }

  /** The months of a year lie end to end and fill it. */
  lemma MonthsFillYear(y: int, m: int)
    requires 1 <= m <= 12
    ensures m < 12 ==> DaysBeforeMonth(y, m) + DaysInMonth(y, m) == DaysBeforeMonth(y, m + 1)
    ensures m == 12 ==> DaysBeforeMonth(y, m) + DaysInMonth(y, m) == DaysInYear(y)
  {
  }

  /** Days from 0001-01-01 to `d`: Python's `d.toordinal() - 1`. */
  function DayNumber(d: Date): nat
    requires ValidDate(d)
  {
    DaysBeforeYear(d.year) + DaysBeforeMonth(d.year, d.month) + d.day - 1
  }

  /** `d.weekday()`: 0 is Monday, 6 is Sunday. */
  function Weekday(d: Date): nat
    requires ValidDate(d)
  {
    DayNumber(d) % 7
  }

  const Sunday := 6

  /** The day before `d`, which exists for every date but the first. */
  function PrevDay(d: Date): (p: Date)
    requires ValidDate(d) && d != Date(MinYear, 1, 1)
    ensures ValidDate(p) && DayNumber(p) + 1 == DayNumber(d)
  {
    if d.day > 1 then Date(d.year, d.month, d.day - 1)
    else if d.month > 1 then
      MonthsFillYear(d.year, d.month - 1);
      Date(d.year, d.month - 1, DaysInMonth(d.year, d.month - 1))
    else
      MonthsFillYear(d.year - 1, 12);
      YearsFillDays(d.year);
      Date(d.year - 1, 12, 31)
  }

  /** Consecutive days of a month have consecutive weekdays. */
  lemma WeekdayNext(y: int, m: int, d: int)
    requires ValidDate(Date(y, m, d)) && d < DaysInMonth(y, m)
    ensures Weekday(Date(y, m, d + 1)) == (Weekday(Date(y, m, d)) + 1) % 7
  {
    var x := DayNumber(Date(y, m, d));
    assert DayNumber(Date(y, m, d + 1)) == x + 1;
    NextModSeven(x);
  }

  lemma NextModSeven(x: nat)
    ensures (x + 1) % 7 == (x % 7 + 1) % 7
  {
  }

  /** The day of the month of the last Sunday of month `m` of year `y`. */
  function LastSunday(y: int, m: int): (d: int)
    requires MinYear <= y <= MaxYear && 1 <= m <= 12
    ensures DaysInMonth(y, m) - 6 <= d <= DaysInMonth(y, m)
  {
    var last := DaysInMonth(y, m);
    last - (Weekday(Date(y, m, last)) + 1) % 7
  }

  /** `LastSunday` is a Sunday and no later day of the month is. */
  lemma {:induction false} LastSundayIsLast(y: int, m: int)
    requires MinYear <= y <= MaxYear && 1 <= m <= 12
    ensures Weekday(Date(y, m, LastSunday(y, m))) == Sunday
    ensures forall d :: LastSunday(y, m) < d <= DaysInMonth(y, m) ==> Weekday(Date(y, m, d)) != Sunday
  {
    var last := DaysInMonth(y, m);
    var base := DaysBeforeYear(y) + DaysBeforeMonth(y, m);
    var x := base + last - 1;
    assert DayNumber(Date(y, m, last)) == x;
    forall d | LastSunday(y, m) <= d <= last
      ensures Weekday(Date(y, m, d)) == Sunday <==> d == LastSunday(y, m)
    {
      assert DayNumber(Date(y, m, d)) == x - (last - d);
      CountBackToSunday(x, last - d);
    }
  }

  /** Counting `t` days back from day number `x`, one reaches a Sunday first
      after `(x % 7 + 1) % 7` days. */
  lemma CountBackToSunday(x: int, t: int)
    requires 0 <= t <= (x % 7 + 1) % 7 <= x
    ensures (x - t) % 7 == Sunday <==> t == (x % 7 + 1) % 7
  {
  }
}
