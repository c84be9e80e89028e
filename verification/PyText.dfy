/** The Python text operations that the release sources use. */
module PyText {
  import Numerals
  import opened Options
  import Texts

  /** What `str.strip()` takes off. */
  predicate IsSpace(c: char) {
    || '\t' <= c <= '\r' || '\U{001C}' <= c <= ' ' || c == '\U{0085}' || c == '\U{00A0}'
    || c == '\U{1680}' || '\U{2000}' <= c <= '\U{200A}' || c == '\U{2028}' || c == '\U{2029}'
    || c == '\U{202F}' || c == '\U{205F}' || c == '\U{3000}'
  }

  /** The same, one by one. */
  const WHITE_SPACE := "\t\n\U{0B}\U{0C}\r\U{1C}\U{1D}\U{1E}\U{1F} \U{85}\U{A0}\U{1680}\U{2000}\U{2001}\U{2002}" +
    "\U{2003}\U{2004}\U{2005}\U{2006}\U{2007}\U{2008}\U{2009}\U{200A}\U{2028}\U{2029}\U{202F}\U{205F}\U{3000}"

  lemma SpaceIsSpace(c: char)
    ensures IsSpace(c) <==> c in WHITE_SPACE
  {
  }

  function StripStart(s: string): string {
    if s != "" && IsSpace(s[0]) then StripStart(s[1..]) else s
  }

  function StripEnd(s: string): (r: string)
    ensures r <= s
  {
    if s != "" && IsSpace(s[|s| - 1]) then StripEnd(s[..|s| - 1]) else s
  }

  function Strip(s: string): string {
    StripEnd(StripStart(s))
  }

  lemma {:induction false} StripStartIs(front: string, rest: string)
    requires (forall i :: 0 <= i < |front| ==> IsSpace(front[i])) && (rest != "" ==> !IsSpace(rest[0]))
    ensures StripStart(front + rest) == rest
  {
    if front == "" {
      assert front + rest == rest;
    } else {
      assert (front + rest)[1..] == front[1..] + rest;
      StripStartIs(front[1..], rest);
    }
  }

  lemma {:induction false} StripEndIs(rest: string, back: string)
    requires (forall i :: 0 <= i < |back| ==> IsSpace(back[i])) && (rest != "" ==> !IsSpace(rest[|rest| - 1]))
    ensures StripEnd(rest + back) == rest
    decreases |back|
  {
    if back == "" {
      assert rest + back == rest;
    } else {
      assert (rest + back)[..|rest + back| - 1] == rest + back[..|back| - 1];
      StripEndIs(rest, back[..|back| - 1]);
    }
  }

  /** What is left of a text is what is between its outer spaces. */
  lemma StripIs(front: string, text: string, back: string)
    requires forall i :: 0 <= i < |front| ==> IsSpace(front[i])
    requires forall i :: 0 <= i < |back| ==> IsSpace(back[i])
    requires text != "" && !IsSpace(text[0]) && !IsSpace(text[|text| - 1])
    ensures Strip(front + text + back) == text
  {
    assert front + text + back == front + (text + back);
    StripStartIs(front, text + back);
    StripEndIs(text, back);
  }

  // ---------- decimal digits ----------

  /** The zeros of Unicode's decimal digits other than the Latin ones, the Arabic and
      the Persian one first; each is followed by its one to nine. */
  const OTHER_ZEROS: seq<int> := [0x660, 0x6F0] + MORE_ZEROS

  const MORE_ZEROS: seq<int> := [
    0x7C0, 0x966, 0x9E6, 0xA66, 0xAE6, 0xB66, 0xBE6,
    0xC66, 0xCE6, 0xD66, 0xDE6, 0xE50, 0xED0, 0xF20, 0x1040, 0x1090, 0x17E0,
    0x1810, 0x1946, 0x19D0, 0x1A80, 0x1A90, 0x1B50, 0x1BB0, 0x1C40, 0x1C50, 0xA620,
    0xA8D0, 0xA900, 0xA9D0, 0xA9F0, 0xAA50, 0xABF0, 0xFF10, 0x104A0, 0x10D30, 0x11066,
    0x110F0, 0x11136, 0x111D0, 0x112F0, 0x11450, 0x114D0, 0x11650, 0x116C0, 0x11730, 0x118E0,
    0x11950, 0x11C50, 0x11D50, 0x11DA0, 0x11F50, 0x16A60, 0x16AC0, 0x16B50, 0x1D7CE, 0x1D7D8,
    0x1D7E2, 0x1D7EC, 0x1D7F6, 0x1E140, 0x1E2F0, 0x1E4F0, 0x1E950, 0x1FBF0
  ]

  function DigitAmong(code: int, zeros: seq<int>): (d: Option<nat>)
    ensures d.Some? ==> d.value < 10
  {
    if zeros == [] then None
    else if zeros[0] <= code < zeros[0] + 10 then Some(code - zeros[0])
    else DigitAmong(code, zeros[1..])
  }

  /** `unicodedata.decimal`: the digit that a character stands for. */
  function DigitOf(c: char): (d: Option<nat>)
    ensures d.Some? ==> d.value < 10
  {
    if Texts.IsDigit(c) then Some(Numerals.DigitValue(c))
    else if c < '\U{0660}' then None
    else DigitAmong(c as int, OTHER_ZEROS)
  }

  lemma ReadsArabicAndPersian(d: nat)
    requires d < 10
    ensures DigitOf((0x660 + d) as char) == Some(d) && DigitOf((0x6F0 + d) as char) == Some(d)
  {
    var rest := OTHER_ZEROS[1..];
    assert rest[0] == 0x6F0;
    assert DigitAmong(0x6F0 + d, OTHER_ZEROS) == DigitAmong(0x6F0 + d, rest) == Some(d);
  }

  /** The class `\d`. */
  predicate IsDigit(c: char) {
    DigitOf(c).Some?
  }

  predicate IsDigits(s: string) {
    forall i :: 0 <= i < |s| ==> IsDigit(s[i])
  }

  /** `int(s)`, of digits of any script. */
  function Value(s: string): nat
    requires IsDigits(s)
  {
    if s == "" then 0 else 10 * Value(s[..|s| - 1]) + DigitOf(s[|s| - 1]).value
  }

  lemma {:induction false} ValueOfLatin(s: string)
    requires Numerals.IsDigits(s)
    ensures IsDigits(s) && Value(s) == Numerals.Value(s)
  {
    if s != "" {
      ValueOfLatin(s[..|s| - 1]);
    }
  }

  lemma ValueOfDecimal(n: nat)
    ensures var s := Numerals.Decimal(n); IsDigits(s) && Value(s) == n
  {
    ValueOfLatin(Numerals.Decimal(n));
    Numerals.ValueOfDecimal(n);
  }

  // ---------- rsplit ----------

  /** `rsplit(sep, 1)[-1]` */
  function AfterLast(s: string, sep: char): (r: string)
    ensures forall i :: 0 <= i < |r| ==> r[i] != sep
  {
    if s == "" || s[|s| - 1] == sep then "" else AfterLast(s[..|s| - 1], sep) + [s[|s| - 1]]
  }

  lemma {:induction false} EndsWithAfterLast(s: string, sep: char)
    ensures var r := AfterLast(s, sep);
            r == s || (|r| < |s| && s[|s| - |r| - 1] == sep && s[|s| - |r|..] == r)
  {
    if s != "" && s[|s| - 1] != sep {
      EndsWithAfterLast(s[..|s| - 1], sep);
    }
  }

  lemma {:induction false} AfterLastIs(front: string, last: string, sep: char)
    requires front == "" || front[|front| - 1] == sep
    requires forall i :: 0 <= i < |last| ==> last[i] != sep
    ensures AfterLast(front + last, sep) == last
    decreases |last|
  {
    var s := front + last;
    if last == "" {
      assert s == front;
    } else {
      var init := last[..|last| - 1];
      AfterLastIs(front, init, sep);
      assert s[..|s| - 1] == front + init;
      assert init + [last[|last| - 1]] == last;
    }
  }
}
