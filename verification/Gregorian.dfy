/** The Gregorian side of the conversion: leap years and the running day number.

    `DayNumber` is the arithmetic of the source; `Walk` turns the calendar one
    day at a time and knows nothing of that arithmetic. */
module Gregorian {
  import opened Calendar

  const MONTH_STARTS: seq<int> := [0, 31, 59, 90, 120, 151, 181, 212, 243, 273, 304, 334]

  const EPOCH := Date(1600, 1, 1)

  predicate IsLeap(year: int) {
    (year % 4 == 0 && year % 100 != 0) || year % 400 == 0
  }

  function MonthLength(year: int, month: int): (n: int)
    ensures n >= 1
  {
    if month == 2 then (if IsLeap(year) then 29 else 28)
    else if month == 4 || month == 6 || month == 9 || month == 11 then 30
    else 31
  }

  predicate IsDate(d: Date) {
    Valid(d, MonthLength)
  }

  function NextDay(d: Date): Date
    requires IsDate(d)
  {
    Next(d, MonthLength)
  }

  function YearStart(year: int): int {
    var y := year - 1600;
    365 * y + (y + 3) / 4 - (y + 99) / 100 + (y + 399) / 400
  }

  function MonthStart(month: int): int {
    if 1 <= month <= 12 then MONTH_STARTS[month - 1] else 0
  }

  /** Days since 1 January 1600, negative before it. */
  function DayNumber(d: Date): int {
    YearStart(d.year) + MonthStart(d.month) + (d.day - 1) + if d.month > 2 && IsLeap(d.year) then 1 else 0
  }

  lemma Every4(year: int)
    ensures (year - 1600 + 4) / 4 == (year - 1600 + 3) / 4 + if year % 4 == 0 then 1 else 0
  {
  }

  lemma Every100(year: int)
    ensures (year - 1600 + 100) / 100 == (year - 1600 + 99) / 100 + if year % 100 == 0 then 1 else 0
  {
  }

  lemma Every400(year: int)
    ensures (year - 1600 + 400) / 400 == (year - 1600 + 399) / 400 + if year % 400 == 0 then 1 else 0
    ensures year % 400 == 0 ==> year % 100 == 0
    ensures year % 100 == 0 ==> year % 4 == 0
  {
  }

  lemma YearStartStep(year: int)
    ensures YearStart(year + 1) == YearStart(year) + if IsLeap(year) then 366 else 365
  {
    Every4(year);
    Every100(year);
    Every400(year);
  }

  /** The day number counts days: it goes up by one at every step of the
      calendar, over month ends, leap days, centuries and 400-year leaps. */
  lemma DayNumberOfNext(d: Date)
    requires IsDate(d)
    ensures DayNumber(NextDay(d)) == DayNumber(d) + 1
  {
    YearStartStep(d.year);
    hide YearStart;
  }

  lemma CountsEveryDay()
    ensures CountsDays(DayNumber, MonthLength) && NoEmptyMonth(MonthLength)
  {
    forall d | Valid(d, MonthLength) ensures DayNumber(Next(d, MonthLength)) == DayNumber(d) + 1 {
      DayNumberOfNext(d);
    }
  }

  lemma StartsAtTheEpoch()
    ensures IsDate(EPOCH) && DayNumber(EPOCH) == 0
  {
  }

  /** The date `n` days on from 1 January 1600. */
  ghost function WalkFromEpoch(n: nat): (d: Date)
    ensures IsDate(d) && DayNumber(d) == n
  {
    CountsEveryDay();
    CountAlongWalk(EPOCH, MonthLength, DayNumber, n);
    Walk(EPOCH, MonthLength, n)
  }

  /** Walking as many days as the day number says arrives at the date. */
  lemma WalkOfDayNumber(d: Date)
    requires IsDate(d) && d.year >= 1600
    ensures DayNumber(d) >= 0 && WalkFromEpoch(DayNumber(d)) == d
  {
    hide DayNumber, WalkFromEpoch, CountsDays, NoEmptyMonth;
    CountsEveryDay();
    StartsAtTheEpoch();
    CountIsInjective(d, EPOCH, MonthLength, DayNumber);
    CountIsInjective(WalkFromEpoch(DayNumber(d)), d, MonthLength, DayNumber);
  }
}
