/** A calendar of years of twelve months, known by the lengths of its months and
    turned one day at a time. */
module Calendar {

  datatype Date = Date(year: int, month: int, day: int)

  /** The length of a month of a year. */
  type MonthLengths = (int, int) -> int

  predicate Valid(d: Date, lengths: MonthLengths) {
    1 <= d.month <= 12 && 1 <= d.day <= lengths(d.year, d.month)
  }

  predicate Before(a: Date, b: Date) {
    || a.year < b.year
    || (a.year == b.year && a.month < b.month)
    || (a.year == b.year && a.month == b.month && a.day < b.day)
  }

  ghost predicate NoEmptyMonth(lengths: MonthLengths) {
    forall year, month :: lengths(year, month) >= 1
  }

  /** The next day. */
  function Next(d: Date, lengths: MonthLengths): (r: Date)
    requires Valid(d, lengths)
    ensures Before(d, r)
    ensures NoEmptyMonth(lengths) ==> Valid(r, lengths)
  {
    if d.day < lengths(d.year, d.month) then d.(day := d.day + 1)
    else if d.month < 12 then Date(d.year, d.month + 1, 1)
    else Date(d.year + 1, 1, 1)
  }

  /** The date reached from `start` by turning the calendar `n` times. */
  ghost function Walk(start: Date, lengths: MonthLengths, n: nat): (d: Date)
    requires Valid(start, lengths) && NoEmptyMonth(lengths)
    ensures Valid(d, lengths)
  {
    if n == 0 then start else Next(Walk(start, lengths, n - 1), lengths)
  }

  /** A day number: it goes up by one with every day. */
  ghost predicate CountsDays(number: Date -> int, lengths: MonthLengths) {
    forall d :: Valid(d, lengths) ==> number(Next(d, lengths)) == number(d) + 1
  }

  lemma {:induction false} CountAlongWalk(start: Date, lengths: MonthLengths, number: Date -> int, n: nat)
    requires Valid(start, lengths) && NoEmptyMonth(lengths) && CountsDays(number, lengths)
    ensures number(Walk(start, lengths, n)) == number(start) + n
  {
    if n > 0 {
      CountAlongWalk(start, lengths, number, n - 1);
    }
  }

  /** A day number keeps the order of the dates. */
  lemma {:induction false} CountIsMonotone(a: Date, b: Date, lengths: MonthLengths, number: Date -> int)
    requires Valid(a, lengths) && Valid(b, lengths) && Before(a, b)
    requires NoEmptyMonth(lengths) && CountsDays(number, lengths)
    ensures number(a) < number(b)
    decreases b.year - a.year, 12 - a.month, lengths(a.year, a.month) - a.day
  {
    var next := Next(a, lengths);
    if next != b {
      CountIsMonotone(next, b, lengths, number);
    }
  }

  lemma CountIsInjective(a: Date, b: Date, lengths: MonthLengths, number: Date -> int)
    requires Valid(a, lengths) && Valid(b, lengths)
    requires NoEmptyMonth(lengths) && CountsDays(number, lengths)
    ensures number(a) == number(b) ==> a == b
    ensures number(a) < number(b) <==> Before(a, b)
  {
    hide NoEmptyMonth, CountsDays, Valid;
    if Before(a, b) {
      CountIsMonotone(a, b, lengths, number);
    } else if Before(b, a) {
      CountIsMonotone(b, a, lengths, number);
    }
  }
}
