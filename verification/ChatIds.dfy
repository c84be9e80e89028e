/** The Telegram chat id field, `admin/src/lib/chat-id.ts`. */
module ChatIds {
  import Numerals
  import PersianText
  import Texts

  /** A minus sign, an en dash or a hyphen is taken for "-". */
  function Dash(c: char): char {
    if c == '\U{2212}' || c == '\U{2013}' || c == '\U{2010}' then '-' else c
  }

  function Dashes(s: string): (r: string)
    ensures |r| == |s| && forall i :: 0 <= i < |s| ==> r[i] == Dash(s[i])
  {
    seq(|s|, i requires 0 <= i < |s| => Dash(s[i]))
  }

  function EditChatId(raw: string): string {
    var text := Dashes(PersianText.NormalizeInput(raw));
    (if text != "" && text[0] == '-' then "-" else "") + Texts.Keep(text, Texts.IsDigit)
  }

  /** An optional minus and digits, perhaps none yet. */
  predicate IsTypedId(s: string) {
    Numerals.IsDigits(s) || (s[0] == '-' && Numerals.IsDigits(s[1..]))
  }

  /** The number stored; empty or a lone minus switches the setting off. */
  function ChatIdToSave(value: string): int {
    EditChatIdFixes(value);
    var cleaned := EditChatId(value);
    if cleaned == "" || cleaned == "-" then 0 else Numerals.IntValue(cleaned)
  }

  // ---------- the field in one step ----------

  /** What is left of a text once fillers are dropped and digits are Latin. */
  function Kept(raw: string): string {
    Texts.Keep(PersianText.EnDigits(raw), PersianText.IsNotFiller)
  }

  predicate StartsMinus(s: string) {
    s != "" && Dash(s[0]) == '-'
  }

  lemma KeptConcat(a: string, b: string)
    ensures Kept(a + b) == Kept(a) + Kept(b)
  {
    assert PersianText.EnDigits(a + b) == PersianText.EnDigits(a) + PersianText.EnDigits(b);
    Texts.KeepConcat(PersianText.EnDigits(a), PersianText.EnDigits(b), PersianText.IsNotFiller);
  }

  lemma {:induction false} SameDigits(s: string, t: string)
    requires |s| == |t|
    requires forall i :: 0 <= i < |s| ==> s[i] == t[i] || (!Texts.IsDigit(s[i]) && !Texts.IsDigit(t[i]))
    ensures Texts.Keep(s, Texts.IsDigit) == Texts.Keep(t, Texts.IsDigit)
  {
    if s != "" {
      SameDigits(s[1..], t[1..]);
    }
  }

  lemma EditChatIdIs(raw: string)
    ensures EditChatId(raw) ==
            (if StartsMinus(Kept(raw)) then "-" else "") + Texts.Keep(Kept(raw), Texts.IsDigit)
  {
    var kept := Kept(raw);
    var pointed := PersianText.NormalizeInput(raw);
    PersianText.NormalizeInputIs(raw);
    PersianText.ReplaceFirstKeeps(kept, PersianText.DECIMAL_SEP, '.');
    SameDigits(Dashes(pointed), kept);
  }

  // ---------- what it promises ----------

  lemma {:induction false} KeepDigitsAreDigits(s: string)
    ensures Numerals.IsDigits(Texts.Keep(s, Texts.IsDigit))
  {
    if s != "" {
      KeepDigitsAreDigits(s[1..]);
    }
  }

  lemma TypedIdIsKept(s: string)
    requires IsTypedId(s)
    ensures Kept(s) == s && EditChatId(s) == s
  {
    assert PersianText.EnDigits(s) == s;
    Texts.KeepAll(s, PersianText.IsNotFiller);
    EditChatIdIs(s);
    if Numerals.IsDigits(s) {
      Texts.KeepAll(s, Texts.IsDigit);
    } else {
      assert s == "-" + s[1..];
      Texts.KeepConcat("-", s[1..], Texts.IsDigit);
      Texts.KeepAll(s[1..], Texts.IsDigit);
    }
  }

  /** The field always holds an id or the start of one, and those are exactly
      the texts it leaves alone. */
  lemma EditChatIdFixes(raw: string)
    ensures IsTypedId(EditChatId(raw))
    ensures EditChatId(raw) == raw <==> IsTypedId(raw)
  {
    EditChatIdIs(raw);
    KeepDigitsAreDigits(Kept(raw));
    var digits := Texts.Keep(Kept(raw), Texts.IsDigit);
    if StartsMinus(Kept(raw)) {
      assert ("-" + digits)[1..] == digits;
    } else {
      assert "" + digits == digits;
    }
    if IsTypedId(raw) {
      TypedIdIsKept(raw);
    }
  }

  /** Something was typed and nothing of it can be part of an id. */
  predicate IsDropped(kept: string) {
    kept != "" && !StartsMinus(kept) && forall i :: 0 <= i < |kept| ==> !Texts.IsDigit(kept[i])
  }

  lemma {:induction false} NoDigitsKept(s: string)
    ensures Texts.Keep(s, Texts.IsDigit) == "" <==> forall i :: 0 <= i < |s| ==> !Texts.IsDigit(s[i])
  {
    if s != "" {
      NoDigitsKept(s[1..]);
      assert forall i :: 0 < i < |s| ==> s[i] == s[1..][i - 1];
    }
  }

  /** Typing on is the same as pasting, unless everything typed so far was
      dropped and what follows starts with a minus: only typing keeps it. */
  lemma TypingIsPastingUnless(a: string, b: string)
    ensures EditChatId(EditChatId(a) + b) == EditChatId(a + b) <==> !(IsDropped(Kept(a)) && StartsMinus(Kept(b)))
  {
    var shown := EditChatId(a);
    EditChatIdFixes(a);
    TypedIdIsKept(shown);
    KeptConcat(shown, b);
    KeptConcat(a, b);
    EditChatIdIs(a);
    EditChatIdIs(shown);
    EditChatIdIs(shown + b);
    EditChatIdIs(a + b);
    Texts.KeepConcat(Kept(a), Kept(b), Texts.IsDigit);
    Texts.KeepConcat(shown, Kept(b), Texts.IsDigit);
    SameDigitsShown(a);
    NoDigitsKept(Kept(a));
    hide EditChatId, Kept, Texts.Keep;
  }

  /** Typed after an x that the field dropped, -1 is kept; pasted as x-1 it loses
      its minus. */
  lemma DroppedBeforeMinus()
    ensures EditChatId(EditChatId("x") + "-1") == "-1" && EditChatId("x-1") == "1"
  {
    hide EditChatId, Kept, Texts.Keep;
    PlainIsKept("x");
    PlainIsKept("-1");
    PlainIsKept("x-1");
    EditChatIdIs("x");
    EditChatIdIs("-1");
    EditChatIdIs("x-1");
    DigitsOfWitness();
    assert "" + "-1" == "-1" && "-" + "1" == "-1" && "" + "1" == "1";
  }

  lemma PlainIsKept(s: string)
    requires forall i :: 0 <= i < |s| ==> s[i] == 'x' || s[i] == '-' || s[i] == '1'
    ensures Kept(s) == s
  {
    assert PersianText.EnDigits(s) == s;
    Texts.KeepAll(s, PersianText.IsNotFiller);
  }

  lemma DigitsOfWitness()
    ensures Texts.Keep("x", Texts.IsDigit) == ""
    ensures Texts.Keep("-1", Texts.IsDigit) == "1"
    ensures Texts.Keep("x-1", Texts.IsDigit) == "1"
  {
    Texts.KeepAll("1", Texts.IsDigit);
    assert "x"[1..] == "" && "-1"[1..] == "1" && "x-1"[1..] == "-1";
  }

  lemma SameDigitsShown(a: string)
    ensures Texts.Keep(EditChatId(a), Texts.IsDigit) == Texts.Keep(Kept(a), Texts.IsDigit)
    ensures EditChatId(a) != "" ==> (StartsMinus(EditChatId(a)) <==> StartsMinus(Kept(a)))
  {
    EditChatIdIs(a);
    KeepDigitsAreDigits(Kept(a));
    var digits := Texts.Keep(Kept(a), Texts.IsDigit);
    Texts.KeepAll(digits, Texts.IsDigit);
    Texts.KeepConcat("-", digits, Texts.IsDigit);
    assert "" + digits == digits;
  }

  /** A sign is kept of what looks like a minus: the hyphen of the keyboard, the minus
      sign, the en dash and the hyphen of typesetting, and nothing else. */
  lemma LooksLikeMinus(c: char, digits: string)
    requires digits != "" && Numerals.IsDigits(digits) && !Texts.IsDigit(PersianText.EnDigit(c))
    ensures EditChatId([c] + digits) == if c in "-\U{2212}\U{2013}\U{2010}" then "-" + digits else digits
  {
    var s := [c] + digits;
    KeptSign(c, digits);
    EditChatIdIs(s);
    Texts.KeepAll(digits, Texts.IsDigit);
    SignIsNoFiller(c);
    hide EditChatId, Kept, Texts.Keep, PersianText.IsNotFiller, PersianText.EnDigit;
    if PersianText.IsNotFiller(c) {
      DigitsAfterSign(c, digits);
      assert StartsMinus([c] + digits) <==> Dash(c) == '-';
    } else {
      assert !StartsMinus(digits) && "" + digits == digits;
    }
    assert "" + digits == digits;
  }

  lemma SignIsNoFiller(c: char)
    ensures Dash(c) == '-' <==> c in "-\U{2212}\U{2013}\U{2010}"
    ensures Dash(c) == '-' ==> PersianText.IsNotFiller(c)
    ensures !Texts.IsDigit(PersianText.EnDigit(c)) ==> !Texts.IsDigit(c)
  {
  }

  lemma DigitsAfterSign(c: char, digits: string)
    requires Numerals.IsDigits(digits) && !Texts.IsDigit(c)
    ensures Texts.Keep([c] + digits, Texts.IsDigit) == digits
  {
    assert ([c] + digits)[1..] == digits;
    Texts.KeepAll(digits, Texts.IsDigit);
  }

  lemma KeptSign(c: char, digits: string)
    requires Numerals.IsDigits(digits) && !Texts.IsDigit(PersianText.EnDigit(c))
    ensures Kept([c] + digits) == if PersianText.IsNotFiller(c) then [c] + digits else digits
  {
    var s := [c] + digits;
    assert PersianText.EnDigits(s) == s;
    assert s[1..] == digits;
    Texts.KeepAll(digits, PersianText.IsNotFiller);
  }

  /** An id shown grouped and in Persian digits, negative ones included, is
      saved as the number it was. */
  lemma SavesWhatWasShown(id: int)
    ensures ChatIdToSave(PersianText.FaNumber(Numerals.IntText(id))) == id
  {
    var text := Numerals.IntText(id);
    Numerals.IntValueOfIntText(id);
    PersianText.IntegerReadsBack(id);
    SameText(PersianText.FaNumber(text), text);
  }

  lemma SameText(shown: string, text: string)
    requires PersianText.NormalizeInput(shown) == text && IsTypedId(text) && text != ""
    ensures EditChatId(shown) == text
  {
    TypedIdIsKept(text);
    assert PersianText.NormalizeInput(text) == text by {
      assert PersianText.EnDigits(text) == text;
      PersianText.ReplaceFirstAfter(text, "", PersianText.DECIMAL_SEP, '.');
      assert text + "" == text;
      PersianText.NothingToTrim(text);
    }
  }
}
