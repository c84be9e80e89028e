/** Gregorian to Jalali conversion, `miniapp/src/lib/jalali.ts` (the admin panel
    carries an identical copy).

    The bot's own conversion, `src/geekvpn/presentation/bot/ui/fa.py`, is the
    original of the port.  The reference is the Jalali calendar turned one day at a time from
    1 Farvardin 979, which is 20 March 1600.  The conversion's division by
    33-year cycles, four-year groups and month lengths is proved to arrive at
    the same date, and the converted calendar to keep step with the Gregorian. */
module Jalali {
  import opened Calendar
  import Gregorian

  const EPOCH := Date(979, 1, 1)

  /** The Gregorian day number of `EPOCH`. */
  const EPOCH_OFFSET := 79

  const DAYS_IN_CYCLE := 12053
  const DAYS_IN_GROUP := 1461

  /** Leap years sit at every fourth place of the 33-year cycle but the last. */
  predicate IsLeap(year: int) {
    var place := (year - 979) % 33;
    place < 32 && place % 4 == 0
  }

  function MonthLength(year: int, month: int): int {
    if month <= 6 then 31
    else if month <= 11 then 30
    else if IsLeap(year) then 30 else 29
  }

  predicate IsDate(d: Date) {
    Valid(d, MonthLength)
  }

  function NextDay(d: Date): Date
    requires IsDate(d)
  {
    Next(d, MonthLength)
  }

  function YearStart(year: int): int {
    var y := year - 979;
    365 * y + 8 * (y / 33) + (y % 33 + 3) / 4
  }

  function MonthStart(month: int): int {
    if month <= 7 then 31 * (month - 1) else 186 + 30 * (month - 7)
  }

  /** Days since 1 Farvardin 979, negative before it. */
  function DayNumber(d: Date): int {
    YearStart(d.year) + MonthStart(d.month) + d.day - 1
  }

  lemma YearStartStep(year: int)
    ensures YearStart(year + 1) == YearStart(year) + if IsLeap(year) then 366 else 365
  {
    var y := year - 979;
    assert y == 33 * (y / 33) + y % 33;
    if y % 33 < 32 {
      assert (y + 1) / 33 == y / 33 && (y + 1) % 33 == y % 33 + 1;
    } else {
      assert (y + 1) / 33 == y / 33 + 1 && (y + 1) % 33 == 0;
    }
  }

  lemma DayNumberOfNext(d: Date)
    requires IsDate(d)
    ensures DayNumber(NextDay(d)) == DayNumber(d) + 1
  {
    YearStartStep(d.year);
    hide YearStart;
  }

  lemma CountsEveryDay()
    ensures CountsDays(DayNumber, MonthLength) && NoEmptyMonth(MonthLength)
  {
    forall d | Valid(d, MonthLength) ensures DayNumber(Next(d, MonthLength)) == DayNumber(d) + 1 {
      DayNumberOfNext(d);
    }
  }

  lemma StartsAtTheEpoch()
    ensures IsDate(EPOCH) && DayNumber(EPOCH) == 0
  {
  }

  lemma WalkCounts(n: nat)
    ensures DayNumber(Walk(EPOCH, MonthLength, n)) == n
  {
    hide DayNumber;
    CountsEveryDay();
    StartsAtTheEpoch();
    CountAlongWalk(EPOCH, MonthLength, DayNumber, n);
  }

  /** Every Jalali date from the epoch on is reached. */
  lemma WalkOfDayNumber(d: Date)
    requires IsDate(d) && d.year >= 979
    ensures DayNumber(d) >= 0 && Walk(EPOCH, MonthLength, DayNumber(d)) == d
  {
    hide DayNumber, CountsDays, NoEmptyMonth;
    CountsEveryDay();
    StartsAtTheEpoch();
    CountIsInjective(d, EPOCH, MonthLength, DayNumber);
    WalkCounts(DayNumber(d));
    CountIsInjective(Walk(EPOCH, MonthLength, DayNumber(d)), d, MonthLength, DayNumber);
  }

  // ---------- the conversion ----------

  /** JavaScript's `%`: the remainder takes the sign of the dividend. */
  function JsRemainder(a: int, b: int): int
    requires b > 0
  {
    if a >= 0 then a % b else -((-a) % b)
  }

  /** Days since the Jalali epoch of a Gregorian date. */
  function SinceEpoch(g: Date): int {
    Gregorian.DayNumber(g) - EPOCH_OFFSET
  }

  /** The dates the conversion gets right: from 20 March 1600 on, and before it
      only the days a whole number of 33-year cycles away. */
  predicate Converts(g: Date) {
    SinceEpoch(g) >= 0 || SinceEpoch(g) % DAYS_IN_CYCLE == 0
  }

  /** The Jalali date counts back to the day of the Gregorian one. */
  predicate IsSameDay(g: Date, d: Date) {
    IsDate(d) && DayNumber(d) == SinceEpoch(g)
  }

  /** What the conversion must answer from 20 March 1600 on: as many days
      along the Jalali calendar as the Gregorian date is along its own. */
  ghost function InStep(g: Date): (d: Date)
    requires SinceEpoch(g) >= 0
    ensures IsDate(d) && DayNumber(d) == SinceEpoch(g)
  {
    WalkCounts(SinceEpoch(g));
    Walk(EPOCH, MonthLength, SinceEpoch(g))
  }

  /** A day of the first year of a four-year group. */
  lemma FirstOfGroup(cycle: int, group: int, day: int)
    requires 0 <= group <= 8 && 0 <= day < (if group < 8 then 366 else 365)
    ensures var year := 979 + 33 * cycle + 4 * group;
            && YearStart(year) == DAYS_IN_CYCLE * cycle + DAYS_IN_GROUP * group
            && (IsLeap(year) <==> group < 8)
  {
  }

  /** With remainders that are never negative the split finds the year and the
      day within it. */
  lemma SplitsIntoYears(n: int)
    ensures var cycle := n / DAYS_IN_CYCLE;
            var group := n % DAYS_IN_CYCLE / DAYS_IN_GROUP;
            var left := n % DAYS_IN_CYCLE % DAYS_IN_GROUP;
            var year := 979 + 33 * cycle + 4 * group + if left >= 366 then (left - 1) / 365 else 0;
            var day := if left >= 366 then (left - 1) % 365 else left;
            && YearStart(year) + day == n
            && 0 <= day < if IsLeap(year) then 366 else 365
  {
  }

  /** Before the epoch the remainders are negative, so the first month takes the
      whole of them and the year is rounded the wrong way. */
  lemma BeforeEpoch(n: int)
    requires n < 0
    ensures var rest := JsRemainder(n, DAYS_IN_CYCLE);
            var left := JsRemainder(rest, DAYS_IN_GROUP);
            var d := Date(979 + 33 * (n / DAYS_IN_CYCLE) + 4 * (rest / DAYS_IN_GROUP), 1, left + 1);
            && left <= 0
            && (IsDate(d) && DayNumber(d) == n <==> n % DAYS_IN_CYCLE == 0)
  {
    var cycle := n / DAYS_IN_CYCLE;
    var rest := JsRemainder(n, DAYS_IN_CYCLE);
    RemainderBelowZero(n);
    if rest == 0 {
      FirstOfGroup(cycle, 0, 0);
    } else if rest % DAYS_IN_GROUP == 0 {
      var m := -(rest / DAYS_IN_GROUP);
      assert rest == -DAYS_IN_GROUP * m && 1 <= m <= 8;
      YearStartBack(cycle, m);
    } else {
      WholeGroupsBelowZero(rest);
    }
  }

  lemma RemainderBelowZero(n: int)
    requires n < 0
    ensures var rest := JsRemainder(n, DAYS_IN_CYCLE);
            && -DAYS_IN_CYCLE < rest <= 0
            && (rest == 0 <==> n % DAYS_IN_CYCLE == 0)
            && n == DAYS_IN_CYCLE * (n / DAYS_IN_CYCLE) + if rest == 0 then 0 else DAYS_IN_CYCLE + rest
  {
  }

  lemma WholeGroupsBelowZero(rest: int)
    requires rest < 0 && rest % DAYS_IN_GROUP != 0
    ensures JsRemainder(rest, DAYS_IN_GROUP) < 0
  {
  }

  lemma YearStartBack(cycle: int, m: int)
    requires 1 <= m <= 8
    ensures YearStart(979 + 33 * cycle - 4 * m) == DAYS_IN_CYCLE * cycle - DAYS_IN_GROUP * m + 1
  {
  }

  /** The month loop: takes month lengths off until the day fits one. */
  method MonthAndDay(jy: int, left: int) returns (r: Date)
    requires left < if IsLeap(jy) then 366 else 365
    ensures r.year == jy
    ensures left <= 0 ==> r == Date(jy, 1, left + 1)
    ensures left >= 0 ==> IsDate(r) && MonthStart(r.month) + r.day - 1 == left
  {
    var jDayNo := left;
    for i := 0 to 11
      invariant left <= 0 ==> i == 0 && jDayNo == left
      invariant left >= 0 ==> jDayNo >= 0 && MonthStart(i + 1) + jDayNo == left
    {
      var monthLength := if i < 6 then 31 else 30;
      if jDayNo < monthLength {
        return Date(jy, i + 1, jDayNo + 1);
      }
      jDayNo := jDayNo - monthLength;
    }
    return Date(jy, 12, jDayNo + 1);
  }

  /** The first lines of either conversion. */
  method GregorianDays(g: Date) returns (gDayNo: int)
    requires Gregorian.IsDate(g)
    ensures gDayNo == Gregorian.DayNumber(g)
  {
    var gy2 := g.year - 1600;
    gDayNo := 365 * gy2 + (gy2 + 3) / 4 - (gy2 + 99) / 100 + (gy2 + 399) / 400;
    gDayNo := gDayNo + Gregorian.MONTH_STARTS[g.month - 1] + (g.day - 1);
    if g.month > 2 && Gregorian.IsLeap(g.year) {
      gDayNo := gDayNo + 1;
    }
  }

  /** The split with Python's `//` and `%`, which round down. */
  method YearAndDayInBot(n: int) returns (jy: int, left: int)
    ensures YearStart(jy) + left == n && 0 <= left < if IsLeap(jy) then 366 else 365
  {
    SplitsIntoYears(n);
    hide YearStart, IsLeap;
    var jNp := n / DAYS_IN_CYCLE;
    var jDayNo := n % DAYS_IN_CYCLE;
    jy := 979 + 33 * jNp + 4 * (jDayNo / DAYS_IN_GROUP);
    jDayNo := jDayNo % DAYS_IN_GROUP;
    if jDayNo >= 366 {
      jy := jy + (jDayNo - 1) / 365;
      jDayNo := (jDayNo - 1) % 365;
    }
    left := jDayNo;
  }

  /** The split with JavaScript's `%`, which goes negative. */
  method YearAndDay(n: int) returns (jy: int, left: int)
    ensures n >= 0 ==> YearStart(jy) + left == n && 0 <= left < if IsLeap(jy) then 366 else 365
    ensures n < 0 ==> left <= 0
    ensures n < 0 ==>
              var d := Date(jy, 1, left + 1);
              IsDate(d) && DayNumber(d) == n <==> n % DAYS_IN_CYCLE == 0
  {
    var jNp := n / DAYS_IN_CYCLE;
    var jDayNo := JsRemainder(n, DAYS_IN_CYCLE);
    if n < 0 {
      BeforeEpoch(n);
    } else {
      SplitsIntoYears(n);
    }
    hide YearStart, IsLeap, DayNumber, IsDate;
    jy := 979 + 33 * jNp + 4 * (jDayNo / DAYS_IN_GROUP);
    jDayNo := JsRemainder(jDayNo, DAYS_IN_GROUP);
    if jDayNo >= 366 {
      jy := jy + (jDayNo - 1) / 365;
      jDayNo := (jDayNo - 1) % 365;
    }
    left := jDayNo;
  }

  /** The bot's conversion: right for every date there is. */
  method ToJalaliInBot(g: Date) returns (r: Date)
    requires Gregorian.IsDate(g)
    ensures IsSameDay(g, r)
  {
    var gDayNo := GregorianDays(g);
    hide Gregorian.DayNumber, YearStart, MonthStart, IsLeap;
    var jy, left := YearAndDayInBot(gDayNo - EPOCH_OFFSET);
    r := MonthAndDay(jy, left);
  }

  /** The front ends' conversion.  Its answer is the day it was given, and so
      the bot's answer, exactly when `Converts` holds; from the epoch on it is
      the date the calendar itself arrives at. */
  method ToJalali(g: Date) returns (r: Date)
    requires Gregorian.IsDate(g)
    ensures IsSameDay(g, r) <==> Converts(g)
    ensures forall bot :: IsSameDay(g, bot) ==> (r == bot <==> Converts(g))
    ensures SinceEpoch(g) >= 0 ==> r == InStep(g)
    ensures SinceEpoch(g) < 0 ==> r.month == 1 && r.day <= 1
  {
    var gDayNo := GregorianDays(g);
    hide Gregorian.DayNumber, YearStart, MonthStart, IsLeap;
    var jy, left := YearAndDay(gDayNo - EPOCH_OFFSET);
    r := MonthAndDay(jy, left);
    OneDateADay(g, r);
  }

  lemma OneDateADay(g: Date, r: Date)
    ensures forall d :: IsSameDay(g, d) ==> (r == d <==> IsSameDay(g, r))
    ensures SinceEpoch(g) >= 0 && IsSameDay(g, r) ==> r == InStep(g)
  {
    CountsEveryDay();
    hide DayNumber, SinceEpoch, CountsDays, NoEmptyMonth;
    forall d | IsSameDay(g, d) && IsSameDay(g, r) ensures d == r {
      CountIsInjective(d, r, MonthLength, DayNumber);
    }
    if SinceEpoch(g) >= 0 {
      assert IsSameDay(g, InStep(g));
    }
  }

  // ---------- the two calendars keep step ----------

  /** The next Gregorian day is the next Jalali day. */
  lemma KeepsStep(g: Date)
    requires Gregorian.IsDate(g) && SinceEpoch(g) >= 0
    ensures SinceEpoch(Gregorian.NextDay(g)) == SinceEpoch(g) + 1
    ensures InStep(Gregorian.NextDay(g)) == NextDay(InStep(g))
  {
    Gregorian.DayNumberOfNext(g);
    hide Gregorian.DayNumber;
    hide DayNumber;
  }

  /** So is it for every date of either calendar, however far back. */
  lemma NextDayToNextDay(g: Date, d: Date)
    requires Gregorian.IsDate(g) && IsDate(d)
    ensures IsSameDay(g, d) <==> IsSameDay(Gregorian.NextDay(g), NextDay(d))
  {
    Gregorian.DayNumberOfNext(g);
    DayNumberOfNext(d);
    CountsEveryDay();
    hide Gregorian.DayNumber, DayNumber;
  }

  lemma StartsInStep()
    ensures Gregorian.IsDate(Date(1600, 3, 20)) && SinceEpoch(Date(1600, 3, 20)) == 0
    ensures InStep(Date(1600, 3, 20)) == Date(979, 1, 1)
  {
  }

  /** Turn both calendars `n` days on from 20 March 1600, 1 Farvardin 979: the
      one is the conversion of the other, with no arithmetic in between. */
  lemma TurnedTogether(n: nat)
    ensures var g := Walk(Gregorian.EPOCH, Gregorian.MonthLength, EPOCH_OFFSET + n);
            && Gregorian.IsDate(g) && SinceEpoch(g) == n
            && InStep(g) == Walk(EPOCH, MonthLength, n)
  {
    var g := Gregorian.WalkFromEpoch(EPOCH_OFFSET + n);
  }

  /** Earlier stays earlier, so no two Gregorian dates share a Jalali one. */
  lemma StrictlyIncreasing(a: Date, b: Date)
    requires Gregorian.IsDate(a) && Gregorian.IsDate(b) && SinceEpoch(a) >= 0 && SinceEpoch(b) >= 0
    ensures Before(a, b) <==> Before(InStep(a), InStep(b))
  {
    Gregorian.CountsEveryDay();
    CountsEveryDay();
    hide Gregorian.DayNumber, DayNumber, CountsDays, NoEmptyMonth;
    CountIsInjective(a, b, Gregorian.MonthLength, Gregorian.DayNumber);
    CountIsInjective(InStep(a), InStep(b), MonthLength, DayNumber);
  }

  /** Every Jalali date from 1 Farvardin 979 on is some Gregorian date's, the
      leap day of exactly the leap years among them. */
  lemma EveryDateIsHit(d: Date) returns (g: Date)
    requires IsDate(d) && d.year >= 979
    ensures Gregorian.IsDate(g) && SinceEpoch(g) >= 0 && InStep(g) == d
  {
    WalkOfDayNumber(d);
    g := Gregorian.WalkFromEpoch(DayNumber(d) + EPOCH_OFFSET);
  }

  /** One day before the common epoch the front ends are wrong: 19 March 1600 is
      the last day of 978, and that is not what they answer. */
  lemma DayBeforeTheEpoch()
    ensures var g := Date(1600, 3, 19);
            Gregorian.IsDate(g) && IsSameDay(g, Date(978, 12, 29)) && !Converts(g)
  {
  }
}
