/** Persian numbers, `admin/src/lib/fa.ts` and its copy in the Mini App: the
    printer with its grouped digits, and the reader that undoes it. */
module PersianText {
  import JsText
  import Numerals
  import Texts

  const THOUSANDS_SEP := '\U{066C}'
  const DECIMAL_SEP := '\U{066B}'

  predicate IsPersianDigit(c: char) {
    '\U{06F0}' <= c <= '\U{06F9}'
  }

  predicate IsArabicDigit(c: char) {
    '\U{0660}' <= c <= '\U{0669}'
  }

  function FaDigit(c: char): char {
    if Texts.IsDigit(c) then (0x06F0 + Numerals.DigitValue(c)) as char else c
  }

  function EnDigit(c: char): char {
    if IsPersianDigit(c) then Numerals.DigitChar(c as int - 0x06F0)
    else if IsArabicDigit(c) then Numerals.DigitChar(c as int - 0x0660)
    else c
  }

  function FaDigits(s: string): (r: string)
    ensures |r| == |s| && forall i :: 0 <= i < |s| ==> r[i] == FaDigit(s[i])
  {
    seq(|s|, i requires 0 <= i < |s| => FaDigit(s[i]))
  }

  function EnDigits(s: string): (r: string)
    ensures |r| == |s| && forall i :: 0 <= i < |s| ==> r[i] == EnDigit(s[i])
  {
    seq(|s|, i requires 0 <= i < |s| => EnDigit(s[i]))
  }

  // ---------- reading ----------

  /** What the reader keeps: all but `[\u066c,\s]`. */
  predicate IsNotFiller(c: char) {
    c != THOUSANDS_SEP && c != ',' && !JsText.IsSpace(c)
  }

  /** `replace(from, to)` with a text, which replaces the first occurrence only. */
  function ReplaceFirst(s: string, from: char, to: char): string {
    if s == "" then ""
    else if s[0] == from then [to] + s[1..]
    else [s[0]] + ReplaceFirst(s[1..], from, to)
  }

  function TrimStart(s: string): string {
    if s != "" && JsText.IsSpace(s[0]) then TrimStart(s[1..]) else s
  }

  function TrimEnd(s: string): string {
    if s != "" && JsText.IsSpace(s[|s| - 1]) then TrimEnd(s[..|s| - 1]) else s
  }

  function NormalizeInput(value: string): string {
    TrimEnd(TrimStart(ReplaceFirst(Texts.Keep(EnDigits(value), IsNotFiller), DECIMAL_SEP, '.')))
  }

  // ---------- printing ----------

  /** The class `\w`, of which `\B` is made. */
  predicate IsWordChar(c: char) {
    Texts.IsDigit(c) || 'a' <= c <= 'z' || 'A' <= c <= 'Z' || c == '_'
  }

  predicate WordAt(s: string, i: int) {
    0 <= i < |s| && IsWordChar(s[i])
  }

  /** `(\d{3})+(?!\d)` matching `k` threes at `i`. */
  predicate ThreesAhead(s: string, i: nat, k: nat) {
    && i + 3 * k <= |s|
    && (forall j :: i <= j < i + 3 * k ==> Texts.IsDigit(s[j]))
    && (i + 3 * k < |s| ==> !Texts.IsDigit(s[i + 3 * k]))
  }

  /** Where `\B(?=(\d{3})+(?!\d))` matches: between two word characters, or two
      others, with a whole number of threes up to the end of the digits. */
  predicate SeparatorGoes(s: string, i: nat) {
    && (WordAt(s, i - 1) <==> WordAt(s, i))
    && exists k :: 1 <= k <= |s| && ThreesAhead(s, i, k)
  }

  /** The replacement, from position `i` on. */
  function Separated(s: string, i: nat): string
    requires i <= |s|
    decreases |s| - i
  {
    if i == |s| then ""
    else (if SeparatorGoes(s, i) then [THOUSANDS_SEP] else "") + [s[i]] + Separated(s, i + 1)
  }

  /** `split('.')`: the first part, and the second if there is one. */
  function BeforePoint(s: string): string {
    s[..Texts.RunLength(s, IsNotPoint)]
  }

  function AfterPoint(s: string): string {
    var n := Texts.RunLength(s, IsNotPoint);
    if n == |s| then "" else BeforePoint(s[n + 1..])
  }

  predicate IsNotPoint(c: char) {
    c != '.'
  }

  /** `faNumber` of a value that `toFixed` or `String` prints as `fixed`. */
  function FaNumber(fixed: string): string {
    var whole := Separated(BeforePoint(fixed), 0);
    var fraction := AfterPoint(fixed);
    FaDigits(if fraction != "" then whole + [DECIMAL_SEP] + fraction else whole)
  }

  // ---------- what the printer prints ----------

  /** Digits in threes, counted from the right. */
  function Grouped(digits: string): string {
    if |digits| <= 3 then digits
    else Grouped(digits[..|digits| - 3]) + [THOUSANDS_SEP] + digits[|digits| - 3..]
  }

  /** The same from the left: a separator before every place that leaves a
      multiple of three, but for the first. */
  function GroupedFrom(digits: string, first: bool): string {
    if digits == "" then ""
    else (if !first && |digits| % 3 == 0 then [THOUSANDS_SEP] else "") + [digits[0]] + GroupedFrom(digits[1..], false)
  }

  lemma {:induction false} FewInARow(digits: string)
    requires |digits| < 3
    ensures GroupedFrom(digits, false) == digits
  {
    if digits != "" {
      FewInARow(digits[1..]);
      assert digits == [digits[0]] + digits[1..];
    }
  }

  lemma {:induction false} LastThree(digits: string, first: bool)
    requires |digits| > 3 || (|digits| == 3 && !first)
    ensures GroupedFrom(digits, first) ==
            GroupedFrom(digits[..|digits| - 3], first) + [THOUSANDS_SEP] + digits[|digits| - 3..]
    decreases |digits|
  {
    var head, last := digits[..|digits| - 3], digits[|digits| - 3..];
    if |digits| == 3 {
      FewInARow(digits[1..]);
      assert head == "" && last == digits == [digits[0]] + digits[1..];
    } else {
      var rest := digits[1..];
      LastThree(rest, false);
      assert rest[..|rest| - 3] == head[1..] && rest[|rest| - 3..] == last;
      assert |digits| % 3 == |head| % 3;
      var front := (if !first && |digits| % 3 == 0 then [THOUSANDS_SEP] else "") + [digits[0]];
      assert GroupedFrom(digits, first) == front + GroupedFrom(rest, false);
      assert GroupedFrom(head, first) == front + GroupedFrom(head[1..], false);
      hide GroupedFrom;
      Texts.Reassociated(front, GroupedFrom(head[1..], false), [THOUSANDS_SEP], last);
    }
  }

  lemma {:induction false} GroupedFromIsGrouped(digits: string)
    ensures GroupedFrom(digits, true) == Grouped(digits)
  {
    if |digits| <= 3 {
      if digits != "" {
        FewInARow(digits[1..]);
        assert digits == [digits[0]] + digits[1..];
      }
    } else {
      GroupedFromIsGrouped(digits[..|digits| - 3]);
      LastThree(digits, true);
    }
  }

  /** An optional minus and then digits from `start` to the end. */
  predicate SignedDigits(s: string, start: nat) {
    && start <= |s| && start <= 1
    && (start == 1 ==> s[0] == '-')
    && forall j :: start <= j < |s| ==> Texts.IsDigit(s[j])
  }

  lemma SeparatorsAmongDigits(s: string, start: nat, i: nat)
    requires SignedDigits(s, start) && start <= i < |s|
    ensures SeparatorGoes(s, i) <==> i > start && (|s| - i) % 3 == 0
  {
    var left := |s| - i;
    if left % 3 == 0 {
      assert ThreesAhead(s, i, left / 3);
    } else {
      forall k | 1 <= k <= |s| ensures !ThreesAhead(s, i, k) {
        if i + 3 * k < |s| {
          assert Texts.IsDigit(s[i + 3 * k]);
        }
      }
    }
  }

  lemma {:induction false} SeparatedFrom(s: string, start: nat, i: nat)
    requires SignedDigits(s, start) && start <= i <= |s|
    ensures Separated(s, i) == GroupedFrom(s[i..], i == start)
    decreases |s| - i
  {
    if i < |s| {
      SeparatorsAmongDigits(s, start, i);
      hide SeparatorGoes;
      SeparatedFrom(s, start, i + 1);
      assert s[i..][1..] == s[i + 1..];
    }
  }

  lemma NoneAtTheSign(s: string)
    requires s != "" && !Texts.IsDigit(s[0])
    ensures !SeparatorGoes(s, 0)
  {
  }

  /** The lookahead puts separators between exactly the groups of three. */
  lemma SeparatedIsGrouped(s: string, start: nat)
    requires SignedDigits(s, start)
    ensures Separated(s, 0) == s[..start] + Grouped(s[start..])
  {
    SeparatedFrom(s, start, start);
    GroupedFromIsGrouped(s[start..]);
    if start == 1 {
      NoneAtTheSign(s);
      hide SeparatorGoes, Grouped, GroupedFrom;
      assert Separated(s, 0) == [s[0]] + Separated(s, 1);
    }
  }

  /** Groups of three, all but the first, which has one digit to three. */
  ghost predicate InGroups(groups: seq<string>, digits: string, text: string) {
    && groups != []
    && 1 <= |groups[0]| <= 3
    && (forall g :: 0 < g < |groups| ==> |groups[g]| == 3)
    && Glued(groups, []) == digits
    && Glued(groups, [THOUSANDS_SEP]) == text
  }

  function Glued(groups: seq<string>, glue: string): string {
    if groups == [] then ""
    else if |groups| == 1 then groups[0]
    else Glued(groups[..|groups| - 1], glue) + glue + groups[|groups| - 1]
  }

  lemma {:induction false} GroupsOf(digits: string) returns (groups: seq<string>)
    requires digits != ""
    ensures InGroups(groups, digits, Grouped(digits))
    decreases |digits|
  {
    if |digits| <= 3 {
      groups := [digits];
    } else {
      var before := GroupsOf(digits[..|digits| - 3]);
      groups := before + [digits[|digits| - 3..]];
      assert groups[..|groups| - 1] == before;
    }
  }

  // ---------- the reader undoes the printer ----------

  function Sign(negative: bool): string {
    if negative then "-" else ""
  }

  function Fraction(point: char, digits: string): string {
    if digits == "" then "" else [point] + digits
  }

  /** A numeral as JavaScript prints it: a sign, digits and perhaps a fraction. */
  function Numeral(negative: bool, whole: string, fraction: string): string {
    Sign(negative) + whole + Fraction('.', fraction)
  }

  /** The same with its digits grouped and the Persian point. */
  function Printed(negative: bool, whole: string, fraction: string): string {
    Sign(negative) + Grouped(whole) + Fraction(DECIMAL_SEP, fraction)
  }

  lemma NumeralParts(negative: bool, whole: string, fraction: string)
    requires Numerals.IsDigits(whole) && Numerals.IsDigits(fraction)
    ensures BeforePoint(Numeral(negative, whole, fraction)) == Sign(negative) + whole
    ensures AfterPoint(Numeral(negative, whole, fraction)) == fraction
  {
    var s := Numeral(negative, whole, fraction);
    var front := Sign(negative) + whole;
    var tail := Fraction('.', fraction);
    assert s == front + tail;
    Texts.RunIs(front, tail, IsNotPoint);
    assert s[..|front|] == front;
    if fraction != "" {
      assert s[|front| + 1..] == fraction == fraction + "";
      Texts.RunIs(fraction, "", IsNotPoint);
    }
  }

  lemma {:induction false} KeepOfGrouped(digits: string)
    requires Numerals.IsDigits(digits)
    ensures Texts.Keep(Grouped(digits), IsNotFiller) == digits
    decreases |digits|
  {
    if |digits| <= 3 {
      Texts.KeepAll(digits, IsNotFiller);
    } else {
      var head, tail := digits[..|digits| - 3], digits[|digits| - 3..];
      KeepOfGrouped(head);
      KeepAcross(Grouped(head), tail);
      assert digits == head + tail;
    }
  }

  lemma KeepAcross(head: string, tail: string)
    requires Numerals.IsDigits(tail)
    ensures Texts.Keep(head + [THOUSANDS_SEP] + tail, IsNotFiller) == Texts.Keep(head, IsNotFiller) + tail
  {
    Texts.KeepAll(tail, IsNotFiller);
    var rest := [THOUSANDS_SEP] + tail;
    assert rest[1..] == tail;
    assert Texts.Keep(rest, IsNotFiller) == tail;
    assert head + [THOUSANDS_SEP] + tail == head + rest;
    hide Texts.Keep;
    Texts.KeepConcat(head, rest, IsNotFiller);
  }

  lemma EnUndoesFa(s: string)
    requires forall i :: 0 <= i < |s| ==> !IsPersianDigit(s[i]) && !IsArabicDigit(s[i])
    ensures EnDigits(FaDigits(s)) == s
  {
  }

  lemma {:induction false} GroupedIsLatin(digits: string)
    requires Numerals.IsDigits(digits)
    ensures forall i :: 0 <= i < |Grouped(digits)| ==>
              Texts.IsDigit(Grouped(digits)[i]) || Grouped(digits)[i] == THOUSANDS_SEP
    decreases |digits|
  {
    if |digits| > 3 {
      GroupedIsLatin(digits[..|digits| - 3]);
    }
  }

  lemma {:induction false} ReplaceFirstAfter(front: string, back: string, from: char, to: char)
    requires forall i :: 0 <= i < |front| ==> front[i] != from
    ensures ReplaceFirst(front + back, from, to) == front + ReplaceFirst(back, from, to)
  {
    if front == "" {
      assert front + back == back;
    } else {
      assert (front + back)[1..] == front[1..] + back;
      ReplaceFirstAfter(front[1..], back, from, to);
    }
  }

  lemma PointBack(front: string, digits: string)
    requires forall i :: 0 <= i < |front| ==> front[i] != DECIMAL_SEP
    ensures ReplaceFirst(front + Fraction(DECIMAL_SEP, digits), DECIMAL_SEP, '.') == front + Fraction('.', digits)
  {
    ReplaceFirstAfter(front, Fraction(DECIMAL_SEP, digits), DECIMAL_SEP, '.');
    assert digits != "" ==> Fraction(DECIMAL_SEP, digits)[1..] == digits;
  }

  lemma NothingToTrim(s: string)
    requires forall i :: 0 <= i < |s| ==> !JsText.IsSpace(s[i])
    ensures TrimEnd(TrimStart(s)) == s
  {
  }

  /** The printed form of every numeral, whole or with decimals. */
  lemma FaNumberIs(negative: bool, whole: string, fraction: string)
    requires whole != "" && Numerals.IsDigits(whole) && Numerals.IsDigits(fraction)
    ensures FaNumber(Numeral(negative, whole, fraction)) == FaDigits(Printed(negative, whole, fraction))
  {
    NumeralParts(negative, whole, fraction);
    SignedIsGrouped(negative, whole);
    Assembled(Numeral(negative, whole, fraction), Sign(negative) + whole, Sign(negative) + Grouped(whole), fraction);
  }

  /** And in code points: of the grouped numeral every Latin digit is printed as the
      Persian one, the next 0x6C0 characters on, and all else as it is. */
  lemma PrintedInPersian(negative: bool, whole: string, fraction: string)
    requires whole != "" && Numerals.IsDigits(whole) && Numerals.IsDigits(fraction)
    ensures var text, latin := FaNumber(Numeral(negative, whole, fraction)), Printed(negative, whole, fraction);
            && |text| == |latin|
            && forall i :: 0 <= i < |text| ==>
                 text[i] as int == if '0' <= latin[i] <= '9' then latin[i] as int + 0x6C0 else latin[i] as int
  {
    FaNumberIs(negative, whole, fraction);
    hide Printed, FaNumber, Numeral;
  }

  const MINUS_A_MILLION := "-\U{06F1}\U{066C}\U{06F2}\U{06F3}\U{06F4}\U{066C}\U{06F5}\U{06F6}\U{06F7}\U{066B}\U{06F8}"

  /** -1234567.8, the Persian way. */
  lemma MinusAMillion()
    ensures FaNumber("-1234567.8") == MINUS_A_MILLION
  {
    GroupsOfSeven();
    hide FaNumber, Grouped;
    assert Numeral(true, "1234567", "8") == "-1234567.8";
    assert Printed(true, "1234567", "8") == "-1\U{066C}234\U{066C}567\U{066B}8";
    hide Printed, Numeral;
    PrintedInPersian(true, "1234567", "8");
  }

  lemma GroupsOfSeven()
    ensures Grouped("1234567") == "1\U{066C}234\U{066C}567"
  {
    assert "1234567"[..4] == "1234" && "1234567"[4..] == "567";
    assert "1234"[..1] == "1" && "1234"[1..] == "234";
    assert Grouped("1234") == "1\U{066C}234";
  }

  lemma SignedIsGrouped(negative: bool, whole: string)
    requires Numerals.IsDigits(whole)
    ensures Separated(Sign(negative) + whole, 0) == Sign(negative) + Grouped(whole)
  {
    var sign := Sign(negative);
    var s := sign + whole;
    assert s[..|sign|] == sign && s[|sign|..] == whole;
    SeparatedIsGrouped(s, |sign|);
  }

  lemma Assembled(fixed: string, front: string, separated: string, fraction: string)
    requires BeforePoint(fixed) == front && AfterPoint(fixed) == fraction && Separated(front, 0) == separated
    ensures FaNumber(fixed) == FaDigits(separated + Fraction(DECIMAL_SEP, fraction))
  {
  }

  lemma PrintedIsLatin(negative: bool, whole: string, fraction: string)
    requires Numerals.IsDigits(whole) && Numerals.IsDigits(fraction)
    ensures EnDigits(FaDigits(Printed(negative, whole, fraction))) == Printed(negative, whole, fraction)
  {
    GroupedIsLatin(whole);
    EnUndoesFa(Printed(negative, whole, fraction));
  }

  lemma KeepOfPrinted(negative: bool, whole: string, fraction: string)
    requires Numerals.IsDigits(whole) && Numerals.IsDigits(fraction)
    ensures Texts.Keep(Printed(negative, whole, fraction), IsNotFiller) ==
            Sign(negative) + whole + Fraction(DECIMAL_SEP, fraction)
  {
    var tail := Fraction(DECIMAL_SEP, fraction);
    Texts.KeepConcat(Sign(negative) + Grouped(whole), tail, IsNotFiller);
    Texts.KeepConcat(Sign(negative), Grouped(whole), IsNotFiller);
    Texts.KeepAll(Sign(negative), IsNotFiller);
    assert forall c <- tail :: IsNotFiller(c);
    Texts.KeepAll(tail, IsNotFiller);
    KeepOfGrouped(whole);
  }

  lemma NumeralIsPlain(negative: bool, whole: string, fraction: string)
    requires Numerals.IsDigits(whole) && Numerals.IsDigits(fraction)
    ensures var front := Sign(negative) + whole; forall i :: 0 <= i < |front| ==> front[i] != DECIMAL_SEP
    ensures TrimEnd(TrimStart(Numeral(negative, whole, fraction))) == Numeral(negative, whole, fraction)
  {
  }

  lemma InFourSteps(text: string, printed: string, kept: string, numeral: string)
    requires EnDigits(text) == printed && Texts.Keep(printed, IsNotFiller) == kept
    requires ReplaceFirst(kept, DECIMAL_SEP, '.') == numeral && TrimEnd(TrimStart(numeral)) == numeral
    ensures NormalizeInput(text) == numeral
  {
  }

  /** Every printed number reads back as the numeral it was printed from. */
  lemma ReadsBack(negative: bool, whole: string, fraction: string)
    requires whole != "" && Numerals.IsDigits(whole) && Numerals.IsDigits(fraction)
    ensures NormalizeInput(FaNumber(Numeral(negative, whole, fraction))) == Numeral(negative, whole, fraction)
  {
    var printed := Printed(negative, whole, fraction);
    var kept := Sign(negative) + whole + Fraction(DECIMAL_SEP, fraction);
    FaNumberIs(negative, whole, fraction);
    PrintedIsLatin(negative, whole, fraction);
    KeepOfPrinted(negative, whole, fraction);
    NumeralIsPlain(negative, whole, fraction);
    PointBack(Sign(negative) + whole, fraction);
    InFourSteps(FaDigits(printed), printed, kept, Numeral(negative, whole, fraction));
  }

  /** In particular every integer does. */
  lemma IntegerReadsBack(n: int)
    ensures NormalizeInput(FaNumber(Numerals.IntText(n))) == Numerals.IntText(n)
  {
    var whole := Numerals.Decimal(if n < 0 then -n else n);
    assert Numeral(n < 0, whole, "") == Numerals.IntText(n);
    hide NormalizeInput, FaNumber, Numeral;
    ReadsBack(n < 0, whole, "");
  }

  /** Digits of either script are read, one for one, Persian and Arabic ones and
      Latin ones mixed. */
  lemma ReadsEitherScript(latin: string, typed: string)
    requires Numerals.IsDigits(latin) && |typed| == |latin|
    requires forall i :: 0 <= i < |latin| ==>
               var d := latin[i] as int; typed[i] as int in {d, d + 0x6C0, d + 0x630}
    ensures NormalizeInput(typed) == latin
  {
    NormalizeInputIs(typed);
    hide NormalizeInput;
    assert EnDigits(typed) == latin;
    Texts.KeepAll(latin, IsNotFiller);
    ReplaceFirstKeeps(latin, DECIMAL_SEP, '.');
  }

  /** A thousands separator, a comma or a blank is as good as not typed, wherever it
      stands. */
  lemma FillersAreNothing(front: string, filler: char, back: string)
    requires filler in "\U{066C}, \t\n\r\U{A0}\U{202F}"
    ensures NormalizeInput(front + [filler] + back) == NormalizeInput(front + back)
  {
    var whole, less := front + [filler] + back, front + back;
    NormalizeInputIs(whole);
    NormalizeInputIs(less);
    NothingKept(filler);
    assert EnDigits(whole) == EnDigits(front) + [filler] + EnDigits(back);
    assert EnDigits(less) == EnDigits(front) + EnDigits(back);
    hide NormalizeInput, EnDigits, EnDigit, IsNotFiller, Texts.Keep, ReplaceFirst;
    Texts.KeepConcat(EnDigits(front) + [filler], EnDigits(back), IsNotFiller);
    Texts.KeepConcat(EnDigits(front), [filler], IsNotFiller);
    Texts.KeepConcat(EnDigits(front), EnDigits(back), IsNotFiller);
    assert Texts.Keep(EnDigits(front), IsNotFiller) + "" == Texts.Keep(EnDigits(front), IsNotFiller);
  }

  lemma NothingKept(filler: char)
    requires filler in "\U{066C}, \t\n\r\U{A0}\U{202F}"
    ensures Texts.Keep([filler], IsNotFiller) == "" && EnDigit(filler) == filler
  {
  }

  // ---------- reading what was read ----------

  lemma {:induction false} ReplaceFirstKeeps(s: string, from: char, to: char)
    requires from != to
    ensures var r := ReplaceFirst(s, from, to);
            && |r| == |s|
            && (forall i :: 0 <= i < |s| ==> r[i] == s[i] || (s[i] == from && r[i] == to))
            && (r == s <==> from !in s)
  {
    if s != "" && s[0] != from {
      ReplaceFirstKeeps(s[1..], from, to);
      assert s == [s[0]] + s[1..];
    }
  }

  /** There is never anything left to trim. */
  lemma NormalizeInputIs(value: string)
    ensures NormalizeInput(value) == ReplaceFirst(Texts.Keep(EnDigits(value), IsNotFiller), DECIMAL_SEP, '.')
    ensures forall i :: 0 <= i < |NormalizeInput(value)| ==> IsNotFiller(NormalizeInput(value)[i])
  {
    var kept := Texts.Keep(EnDigits(value), IsNotFiller);
    Texts.KeepIsKept(EnDigits(value), IsNotFiller);
    ReplaceFirstKeeps(kept, DECIMAL_SEP, '.');
    var r := ReplaceFirst(kept, DECIMAL_SEP, '.');
    assert forall i :: 0 <= i < |r| ==> kept[i] in kept;
    NothingToTrim(r);
  }

  lemma WhatIsReadIsLatin(value: string)
    ensures EnDigits(NormalizeInput(value)) == NormalizeInput(value)
    ensures forall c <- NormalizeInput(value) :: IsNotFiller(c)
  {
    var latin := EnDigits(value);
    var kept := Texts.Keep(latin, IsNotFiller);
    NormalizeInputIs(value);
    Texts.KeepIsKept(latin, IsNotFiller);
    ReplaceFirstKeeps(kept, DECIMAL_SEP, '.');
    var once := NormalizeInput(value);
    hide NormalizeInput, ReplaceFirst, Texts.Keep;
    forall i | 0 <= i < |once| ensures EnDigit(once[i]) == once[i] {
      assert kept[i] in kept && kept[i] in latin;
    }
  }

  lemma {:induction false} AsManyPoints(value: string)
    ensures multiset(EnDigits(value))[DECIMAL_SEP] == multiset(value)[DECIMAL_SEP]
  {
    if value != "" {
      AsManyPoints(value[1..]);
      PointStaysPoint(value[0]);
      hide EnDigit, EnDigits;
      assert value == [value[0]] + value[1..];
      assert EnDigits(value) == [EnDigit(value[0])] + EnDigits(value[1..]);
    }
  }

  lemma PointStaysPoint(c: char)
    ensures EnDigit(c) == DECIMAL_SEP <==> c == DECIMAL_SEP
  {
  }

  lemma {:induction false} KeptAsOften(s: string, keep: char -> bool, c: char)
    requires keep(c)
    ensures multiset(Texts.Keep(s, keep))[c] == multiset(s)[c]
  {
    if s != "" {
      KeptAsOften(s[1..], keep, c);
      assert s == [s[0]] + s[1..];
    }
  }

  lemma {:induction false} OneLess(s: string, from: char, to: char)
    requires from != to
    ensures var n := multiset(s)[from];
            multiset(ReplaceFirst(s, from, to))[from] == if n == 0 then 0 else n - 1
  {
    if s != "" {
      assert s == [s[0]] + s[1..];
      if s[0] != from {
        OneLess(s[1..], from, to);
      }
    }
  }

  /** Reading what was read changes nothing exactly when the text has at most one
      Persian decimal point: of several a reading takes the first only. */
  lemma ReadingTwice(value: string)
    ensures NormalizeInput(NormalizeInput(value)) == NormalizeInput(value) <==> multiset(value)[DECIMAL_SEP] <= 1
  {
    var once := NormalizeInput(value);
    var kept := Texts.Keep(EnDigits(value), IsNotFiller);
    NormalizeInputIs(value);
    WhatIsReadIsLatin(value);
    NormalizeInputIs(once);
    AsManyPoints(value);
    KeptAsOften(EnDigits(value), IsNotFiller, DECIMAL_SEP);
    OneLess(kept, DECIMAL_SEP, '.');
    hide NormalizeInput, EnDigits, IsNotFiller;
    Texts.KeepAll(once, IsNotFiller);
    ReplaceFirstKeeps(once, DECIMAL_SEP, '.');
    assert DECIMAL_SEP in once <==> multiset(once)[DECIMAL_SEP] > 0;
  }

  lemma ReadsAs(value: string, front: string, back: string)
    requires EnDigits(value) == front + [DECIMAL_SEP] + back
    requires forall i :: 0 <= i < |front| ==> front[i] != DECIMAL_SEP
    requires forall c <- EnDigits(value) :: IsNotFiller(c)
    ensures NormalizeInput(value) == front + "." + back
  {
    hide NormalizeInput, EnDigits, IsNotFiller, Texts.Keep, ReplaceFirst;
    NormalizeInputIs(value);
    Texts.KeepAll(EnDigits(value), IsNotFiller);
    FirstPointReplaced(front, back);
  }

  lemma FirstPointReplaced(front: string, back: string)
    requires forall i :: 0 <= i < |front| ==> front[i] != DECIMAL_SEP
    ensures ReplaceFirst(front + [DECIMAL_SEP] + back, DECIMAL_SEP, '.') == front + "." + back
  {
    var tail := [DECIMAL_SEP] + back;
    assert front + [DECIMAL_SEP] + back == front + tail;
    ReplaceFirstAfter(front, tail, DECIMAL_SEP, '.');
    assert ReplaceFirst(tail, DECIMAL_SEP, '.') == "." + back by {
      assert tail[1..] == back;
    }
    hide ReplaceFirst;
    assert front + "." + back == front + ("." + back);
  }

  const TWO_POINTS := "\U{06F1}\U{066B}\U{06F2}\U{066B}\U{06F3}"

  /** A text with two points needs two readings. */
  lemma TwoPointsTakeTwoReadings()
    ensures NormalizeInput(TWO_POINTS) == "1.2\U{066B}3"
    ensures NormalizeInput(NormalizeInput(TWO_POINTS)) == "1.2.3"
  {
    hide NormalizeInput;
    var once := "1.2\U{066B}3";
    assert EnDigits(TWO_POINTS) == "1" + [DECIMAL_SEP] + "2\U{066B}3";
    ReadsAs(TWO_POINTS, "1", "2\U{066B}3");
    assert EnDigits(once) == "1.2" + [DECIMAL_SEP] + "3";
    ReadsAs(once, "1.2", "3");
  }
}
