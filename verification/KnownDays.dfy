/** Days whose date in both calendars is known. */
module KnownDays {
  import opened Calendar
  import Gregorian
  import Jalali

  /** Which dates there are.  In a Jalali year six months have 31 days, five have 30,
      and the last has 30 in eight years of a 33-year cycle and 29 in the others. */
  lemma DatesAre(d: Date)
    ensures Gregorian.IsDate(d) <==>
            && 1 <= d.month <= 12
            && 1 <= d.day <= (if d.month in {4, 6, 9, 11} then 30
                              else if d.month != 2 then 31
                              else if d.year % 400 == 0 || (d.year % 4 == 0 && d.year % 100 != 0) then 29
                              else 28)
    ensures Jalali.IsDate(d) <==>
            && 1 <= d.month <= 12
            && 1 <= d.day <= (if d.month <= 6 then 31
                              else if d.month <= 11 then 30
                              else if (d.year - 979) % 33 in {0, 4, 8, 12, 16, 20, 24, 28} then 30
                              else 29)
  {
  }

  /** The last day of a leap year and the next, the end of six long months, Nowruz
      1405 and an ordinary day, the ones the front ends' own tests pin among them. */
  lemma SixDays()
    ensures Answers(Date(2025, 3, 20), Date(1403, 12, 30)) && Answers(Date(2025, 3, 21), Date(1404, 1, 1))
    ensures Answers(Date(2025, 9, 22), Date(1404, 6, 31)) && Answers(Date(2025, 9, 23), Date(1404, 7, 1))
    ensures Answers(Date(2026, 3, 21), Date(1405, 1, 1)) && Answers(Date(2026, 8, 24), Date(1405, 6, 2))
  {
    hide Answers;
    assert Answers(Date(2025, 3, 20), Date(1403, 12, 30)) by {
      CountedAlike(Date(2025, 3, 20), Date(1403, 12, 30), 155228);
    }
    assert Answers(Date(2025, 3, 21), Date(1404, 1, 1)) by {
      CountedAlike(Date(2025, 3, 21), Date(1404, 1, 1), 155229);
    }
    assert Answers(Date(2025, 9, 22), Date(1404, 6, 31)) by {
      CountedAlike(Date(2025, 9, 22), Date(1404, 6, 31), 155414);
    }
    assert Answers(Date(2025, 9, 23), Date(1404, 7, 1)) by {
      CountedAlike(Date(2025, 9, 23), Date(1404, 7, 1), 155415);
    }
    assert Answers(Date(2026, 3, 21), Date(1405, 1, 1)) by {
      CountedAlike(Date(2026, 3, 21), Date(1405, 1, 1), 155594);
    }
    assert Answers(Date(2026, 8, 24), Date(1405, 6, 2)) by {
      CountedAlike(Date(2026, 8, 24), Date(1405, 6, 2), 155750);
    }
  }

  /** What the calendar answers for a Gregorian date of our time. */
  ghost predicate Answers(g: Date, d: Date) {
    Gregorian.IsDate(g) && Jalali.SinceEpoch(g) >= 0 && Jalali.InStep(g) == d
  }

  lemma CountedAlike(g: Date, d: Date, n: nat)
    ensures Gregorian.IsDate(g) && Jalali.SinceEpoch(g) == n && Jalali.IsDate(d) && Jalali.DayNumber(d) == n ==>
              Answers(g, d)
  {
    hide Jalali.SinceEpoch, Jalali.DayNumber;
    Jalali.OneDateADay(g, d);
  }
}
