/** The proleptic Gregorian calendar that Python's `datetime` counts in.

  Days are numbered from 0 = 1 January of year 1 (a Monday). `DateOf` defines the
  calendar by stepping one day at a time; `DayNumber` adds up year and month lengths. The two are
  proved inverse to each other. */
module Calendar {

  datatype Date = Date(year: nat, month: nat, day: nat)

  predicate IsLeap(year: nat) {
    year % 4 == 0 && (year % 100 != 0 || year % 400 == 0)
  }

  function YearLength(year: nat): nat {
    if IsLeap(year) then 366 else 365
  }

  /** Length of a month in a year that is not leap. */
  function CommonLength(month: nat): (days: nat) {
    if month == 2 then 28
    else if month == 4 || month == 6 || month == 9 || month == 11 then 30
    else 31
  }

  function MonthLength(year: nat, month: nat): nat {
    if month == 2 && IsLeap(year) then 29 else CommonLength(month)
  }

  predicate IsDate(d: Date) {
    1 <= d.year && 1 <= d.month <= 12 && 1 <= d.day <= MonthLength(d.year, d.month)
  }

  function Tomorrow(d: Date): Date {
    if d.day < MonthLength(d.year, d.month) then d.(day := d.day + 1)
    else if d.month < 12 then Date(d.year, d.month + 1, 1)
    else Date(d.year + 1, 1, 1)
  }

  function Yesterday(d: Date): Date
    requires IsDate(d) && d != Date(1, 1, 1)
  {
    if d.day > 1 then d.(day := d.day - 1)
    else if d.month > 1 then Date(d.year, d.month - 1, MonthLength(d.year, d.month - 1))
    else Date(d.year - 1, 12, 31)
  }

  /** The date of day n, by stepping. */
  function DateOf(n: nat): (d: Date)
    ensures IsDate(d)
  {
    if n == 0 then Date(1, 1, 1) else Tomorrow(DateOf(n - 1))
  }

  /** Sunday = 0 .. Saturday = 6, which is `isoweekday() % 7`. */
  function Weekday(n: nat): nat {
    (n + 1) % 7
  }

  function DaysBeforeYear(year: nat): nat
    requires 1 <= year
  {
    if year == 1 then 0 else DaysBeforeYear(year - 1) + YearLength(year - 1)
  }

  function DaysBeforeMonth(year: nat, month: nat): nat
    requires 1 <= month
  {
    if month == 1 then 0 else DaysBeforeMonth(year, month - 1) + MonthLength(year, month - 1)
  }

  function DayNumber(d: Date): nat
    requires IsDate(d)
  {
    DaysBeforeYear(d.year) + DaysBeforeMonth(d.year, d.month) + d.day - 1
  }

  function CommonBefore(month: nat): nat
    requires 1 <= month
  {
    if month == 1 then 0 else CommonBefore(month - 1) + CommonLength(month - 1)
  }

  /** A leap year shifts the months after February by one day. */
  lemma {:induction false} LeapShift(year: nat, month: nat)
    requires 1 <= month
    ensures DaysBeforeMonth(year, month) == CommonBefore(month) + (if month > 2 && IsLeap(year) then 1 else 0)
  {
    if month > 1 { LeapShift(year, month - 1); }
  }

  lemma CommonSums()
    ensures CommonBefore(1) == 0 && CommonBefore(2) == 31 && CommonBefore(3) == 59 && CommonBefore(4) == 90
    ensures CommonBefore(5) == 120 && CommonBefore(6) == 151 && CommonBefore(7) == 181 && CommonBefore(8) == 212
    ensures CommonBefore(9) == 243 && CommonBefore(10) == 273 && CommonBefore(11) == 304 && CommonBefore(12) == 334
  {
  }

  lemma TomorrowIsNext(d: Date)
    requires IsDate(d)
    ensures IsDate(Tomorrow(d)) && DayNumber(Tomorrow(d)) == DayNumber(d) + 1
  {
    if d.month == 12 {
      LeapShift(d.year, 12);
      CommonSums();
    }
  }

  /** `DayNumber` inverts `DateOf`. */
  lemma {:induction false} DayNumberOfDate(n: nat)
    ensures DayNumber(DateOf(n)) == n
  {
    if n > 0 {
      DayNumberOfDate(n - 1);
      TomorrowIsNext(DateOf(n - 1));
    }
  }

  lemma YesterdayThenTomorrow(d: Date)
    requires IsDate(d) && d != Date(1, 1, 1)
    ensures IsDate(Yesterday(d)) && Tomorrow(Yesterday(d)) == d
  {
  }

  /** `DateOf` inverts `DayNumber`: every Gregorian date is reached. */
  lemma {:induction false} DateOfDayNumber(d: Date)
    requires IsDate(d)
    ensures DateOf(DayNumber(d)) == d
    decreases d.year, d.month, d.day
  {
    if d == Date(1, 1, 1) {
      assert DayNumber(d) == 0;
    } else {
      YesterdayThenTomorrow(d);
      TomorrowIsNext(Yesterday(d));
      DateOfDayNumber(Yesterday(d));
    }
  }

  /** A date lies inside its own year. */
  lemma DateWithinYear(d: Date)
    requires IsDate(d)
    ensures DaysBeforeYear(d.year) <= DayNumber(d) < DaysBeforeYear(d.year) + YearLength(d.year)
  {
    LeapShift(d.year, d.month);
    CommonSums();
  }

  /** A date that exists in both of two consecutive years recurs after 365 or 366 days. */
  lemma Anniversary(year: nat, month: nat, day: nat)
    requires 1 <= year && 1 <= month <= 12 && 1 <= day <= CommonLength(month)
    ensures var d, e := Date(year, month, day), Date(year + 1, month, day);
            IsDate(d) && IsDate(e) && DayNumber(d) + 365 <= DayNumber(e) <= DayNumber(d) + 366
  {
    LeapShift(year, month);
    LeapShift(year + 1, month);
  }

  // ---------------------------------------------------------------- against the reckoning of `datetime`

  /** The days before a year by Gregory's rule: every fourth year is leap, but of the hundredths only every
    fourth. */
  lemma {:induction false} DaysBeforeYearFormula(year: nat)
    requires 1 <= year
    ensures var y := year - 1; DaysBeforeYear(year) == 365 * y + y / 4 - y / 100 + y / 400
  {
    hide YearLength;
    if year > 1 {
      DaysBeforeYearFormula(year - 1);
      LengthByMultiples(year - 1);
      OneMoreMultiple(year - 1, 4);
      OneMoreMultiple(year - 1, 100);
      OneMoreMultiple(year - 1, 400);
    }
  }

  lemma LengthByMultiples(year: nat)
    ensures YearLength(year) == 365 + (if year % 4 == 0 then 1 else 0) - (if year % 100 == 0 then 1 else 0) + (if year % 400 == 0 then 1 else 0)
  {
    assert year % 400 == 0 ==> year % 100 == 0;
    assert year % 100 == 0 ==> year % 4 == 0;
  }

  lemma OneMoreMultiple(n: nat, k: nat)
    requires n > 0 && (k == 4 || k == 100 || k == 400)
    ensures n / k == (n - 1) / k + if n % k == 0 then 1 else 0
  {
  }

  /** The epoch of Unix time is day 719162, a Thursday. */
  lemma Epoch()
    ensures DayNumber(Date(1970, 1, 1)) == 719162 && Weekday(719162) == 4
  {
    DaysBeforeYearFormula(1970);
  }

  /** The week goes on day by day, with Sunday after Saturday. */
  lemma WeekdaySteps(n: nat)
    ensures Weekday(n) <= 6 && Weekday(n + 1) == if Weekday(n) == 6 then 0 else Weekday(n) + 1
  {
  }
}
