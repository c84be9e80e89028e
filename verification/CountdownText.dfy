/** The countdown of a sale or an expiring service, `countdown` of
    `admin/src/lib/fa.ts` and its copy in the Mini App. */
module CountdownText {
  import DivMod
  import Numerals
  import PersianText

  /** `String(n).padStart(2, '0')` */
  function Pad(n: nat): (s: string)
    ensures Numerals.IsDigits(s) && |s| >= 2
  {
    var text := Numerals.Decimal(n);
    if |text| < 2 then "0" + text else text
  }

  /** Hours, minutes and seconds of what is left, in Latin digits. */
  function Clock(total: nat): string {
    Pad(total / 3600) + ":" + Pad(total % 3600 / 60) + ":" + Pad(total % 60)
  }

  function WholeSeconds(seconds: real): nat {
    if seconds.Floor > 0 then seconds.Floor else 0
  }

  function Countdown(seconds: real): string {
    PersianText.FaDigits(Clock(WholeSeconds(seconds)))
  }

  /** An hour, a minute and a second and a half. */
  lemma OneOfEach()
    ensures Countdown(3661.5) == "\U{06F0}\U{06F1}:\U{06F0}\U{06F1}:\U{06F0}\U{06F1}"
  {
    OnesOnTheClock();
    hide Clock;
  }

  lemma OnesOnTheClock()
    ensures Clock(3661) == "01:01:01"
  {
    assert Pad(1) == "01";
    hide Pad;
    assert 3661 / 3600 == 1 && 3661 % 3600 / 60 == 1 && 3661 % 60 == 1;
    assert "01" + ":" + "01" + ":" + "01" == "01:01:01";
  }

  // ---------- reading a clock ----------

  /** A clock's parts: two of minutes and seconds below sixty after the hours. */
  predicate IsClock(text: string, hours: string, minutes: string, seconds: string) {
    && text == hours + ":" + minutes + ":" + seconds
    && Numerals.IsDigits(hours) && Numerals.IsDigits(minutes) && Numerals.IsDigits(seconds)
    && |hours| >= 2 && |minutes| == 2 && |seconds| == 2
    && Numerals.Value(minutes) < 60 && Numerals.Value(seconds) < 60
  }

  function TimeOf(hours: string, minutes: string, seconds: string): nat
    requires Numerals.IsDigits(hours) && Numerals.IsDigits(minutes) && Numerals.IsDigits(seconds)
  {
    3600 * Numerals.Value(hours) + 60 * Numerals.Value(minutes) + Numerals.Value(seconds)
  }

  lemma PadReadsBack(n: nat)
    ensures Numerals.Value(Pad(n)) == n
    ensures n < 60 ==> |Pad(n)| == 2
  {
    Numerals.ValueOfDecimal(n);
    if n < 10 {
      assert Pad(n)[..1] == "0" && "0"[..0] == "";
    } else {
      assert n < 60 ==> |Numerals.Decimal(n / 10)| == 1;
    }
  }

  lemma LastFiveAre(text: string, hours: string, minutes: string, seconds: string)
    requires IsClock(text, hours, minutes, seconds)
    ensures var n := |text|; hours == text[..n - 6] && minutes == text[n - 5..n - 3] && seconds == text[n - 2..]
  {
  }

  /** Whatever is left, the countdown shows a clock; and however its parts are
      read back they are the whole seconds left, none once the time is past. */
  lemma CountdownReadsBack(seconds: real)
    ensures var text := PersianText.EnDigits(Countdown(seconds));
            && (exists h, m, s :: IsClock(text, h, m, s))
            && forall h, m, s :: IsClock(text, h, m, s) ==>
                 var shown := TimeOf(h, m, s);
                 && shown == WholeSeconds(seconds)
                 && if seconds < 0.0 then shown == 0 else shown as real <= seconds < shown as real + 1.0
  {
    var total := WholeSeconds(seconds);
    var h, m, s := Pad(total / 3600), Pad(total % 3600 / 60), Pad(total % 60);
    PadReadsBack(total / 3600);
    PadReadsBack(total % 3600 / 60);
    PadReadsBack(total % 60);
    Sixtieths(total);
    var text := Clock(total);
    PersianText.EnUndoesFa(text);
    hide Pad, Numerals.Value;
    assert IsClock(text, h, m, s);
    forall a, b, c | IsClock(text, a, b, c) ensures TimeOf(a, b, c) == total {
      LastFiveAre(text, a, b, c);
      LastFiveAre(text, h, m, s);
    }
  }

  lemma Sixtieths(total: nat)
    ensures 3600 * (total / 3600) + 60 * (total % 3600 / 60) + total % 60 == total
    ensures total % 3600 / 60 < 60
  {
    var rest := total % 3600;
    assert rest == 60 * (rest / 60) + rest % 60;
    DivMod.RemainderIs(total, 60, 60 * (total / 3600) + rest / 60, rest % 60);
  }

  /** Two deadlines show the same exactly when as many whole seconds are left. */
  lemma SameShownIffSameLeft(a: real, b: real)
    ensures Countdown(a) == Countdown(b) <==> WholeSeconds(a) == WholeSeconds(b)
  {
    CountdownReadsBack(a);
    CountdownReadsBack(b);
    if Countdown(a) == Countdown(b) {
      var text := PersianText.EnDigits(Countdown(a));
      var h, m, s :| IsClock(text, h, m, s);
      assert TimeOf(h, m, s) == WholeSeconds(a);
    }
  }
}
