/** Python's `json`: `dumps` as it prints by default, and `loads`, which reads that
    back.  Numbers with a fraction or an exponent and lone surrogates are not read
    here. */
module Json {
  import opened Options
  import Numerals
  import Texts

  datatype Value =
    | Null
    | Bool(truth: bool)
    | Number(number: int)
    | Text(text: string)
    | List(items: seq<Value>)
    | Object(fields: seq<Field>)

  datatype Field = Field(name: string, value: Value)

  // ---------- printing ----------

  function HexDigit(d: nat): (c: char)
    requires d < 16
  {
    if d < 10 then ('0' as int + d) as char else ('a' as int + d - 10) as char
  }

  /** `\u` and four digits. */
  function Unit(n: nat): string
    requires n < 0x1_0000
  {
    ['\\', 'u', HexDigit(n / 4096), HexDigit(n / 256 % 16), HexDigit(n / 16 % 16), HexDigit(n % 16)]
  }

  /** Only printable ASCII stays as it is; what needs two UTF-16 units gets two. */
  function EscapedChar(c: char): string {
    if c == '"' then "\\\""
    else if c == '\\' then "\\\\"
    else if c == '\n' then "\\n"
    else if c == '\r' then "\\r"
    else if c == '\t' then "\\t"
    else if c == '\U{0C}' then "\\f"
    else if c == '\U{08}' then "\\b"
    else if ' ' <= c <= '~' then [c]
    else if c as int < 0x1_0000 then Unit(c as int)
    else Unit(0xD800 + (c as int - 0x1_0000) / 0x400) + Unit(0xDC00 + (c as int - 0x1_0000) % 0x400)
  }

  function Escaped(s: string): string {
    if s == "" then "" else EscapedChar(s[0]) + Escaped(s[1..])
  }

  function Quoted(s: string): string {
    "\"" + (Escaped(s) + "\"")
  }

  function Dumps(j: Value): string
    decreases j
  {
    match j
    case Null => "null"
    case Bool(truth) => if truth then "true" else "false"
    case Number(number) => Numerals.IntText(number)
    case Text(text) => Quoted(text)
    case List(items) => if items == [] then "[]" else "[" + DumpsItems(items)
    case Object(fields) => if fields == [] then "{}" else "{" + DumpsFields(fields)
  }

  function DumpsItems(items: seq<Value>): string
    requires items != []
    decreases items
  {
    Dumps(items[0]) + if |items| == 1 then "]" else ", " + DumpsItems(items[1..])
  }

  function DumpsFields(fields: seq<Field>): string
    requires fields != []
    decreases fields
  {
    Quoted(fields[0].name) + (": " +
        (Dumps(fields[0].value) + if |fields| == 1 then "}" else ", " + DumpsFields(fields[1..])))
  }

  // ---------- reading ----------

  predicate IsBlank(c: char) {
    c == ' ' || c == '\t' || c == '\n' || c == '\r'
  }

  function AfterBlanks(s: string): (r: string)
    ensures |r| <= |s|
  {
    if s != "" && IsBlank(s[0]) then AfterBlanks(s[1..]) else s
  }

  function HexValue(c: char): Option<nat> {
    if '0' <= c <= '9' then Some(c as int - '0' as int)
    else if 'a' <= c <= 'f' then Some(c as int - 'a' as int + 10)
    else if 'A' <= c <= 'F' then Some(c as int - 'A' as int + 10)
    else None
  }

  /** The four digits after `\u`. */
  function UnitAt(s: string): (n: Option<nat>)
    ensures n.Some? ==> |s| >= 4 && n.value < 0x1_0000
  {
    if |s| < 4 then None
    else
      match (HexValue(s[0]), HexValue(s[1]), HexValue(s[2]), HexValue(s[3]))
      case (Some(a), Some(b), Some(c), Some(d)) =>
        if a < 16 && b < 16 && c < 16 && d < 16 then Some(4096 * a + 256 * b + 16 * c + d) else None
      case _ => None
  }

  /** A character and what follows it, after a backslash. */
  function EscapeAt(s: string): (r: Option<(char, string)>)
    ensures r.Some? ==> |r.value.1| < |s|
  {
    if s == "" then None
    else if s[0] == '"' || s[0] == '\\' || s[0] == '/' then Some((s[0], s[1..]))
    else if s[0] == 'n' then Some(('\n', s[1..]))
    else if s[0] == 'r' then Some(('\r', s[1..]))
    else if s[0] == 't' then Some(('\t', s[1..]))
    else if s[0] == 'f' then Some(('\U{0C}', s[1..]))
    else if s[0] == 'b' then Some(('\U{08}', s[1..]))
    else if s[0] != 'u' then None
    else
      match UnitAt(s[1..])
      case None => None
      case Some(n) =>
        if n < 0xD800 || n >= 0xE000 then Some((n as char, s[5..]))
        else if n >= 0xDC00 || |s| < 7 || s[5] != '\\' || s[6] != 'u' then None
        else
          match UnitAt(s[7..])
          case None => None
          case Some(low) =>
            if 0xDC00 <= low < 0xE000 then Some(((0x1_0000 + (n - 0xD800) * 0x400 + (low - 0xDC00)) as char, s[11..]))
                else None
  }

  /** A text and what follows its closing quote. */
  function TextAt(s: string): (r: Option<(string, string)>)
    ensures r.Some? ==> |r.value.1| < |s|
    decreases |s|
  {
    if s == "" || s[0] < ' ' then None
    else if s[0] == '"' then Some(("", s[1..]))
    else if s[0] == '\\' then
      match EscapeAt(s[1..])
      case None => None
      case Some((c, rest)) => Prepended(c, TextAt(rest))
    else Prepended(s[0], TextAt(s[1..]))
  }

  function Prepended(c: char, r: Option<(string, string)>): (p: Option<(string, string)>)
    ensures p.Some? ==> r.Some? && p.value.1 == r.value.1
  {
    if r.None? then None else Some(([c] + r.value.0, r.value.1))
  }

  /** The digits of a number: a zero stands alone. */
  function DigitsAt(s: string): (n: nat)
    ensures n <= |s| && Numerals.IsDigits(s[..n])
  {
    if s != "" && s[0] == '0' then 1 else Texts.RunLength(s, Texts.IsDigit)
  }

  predicate GoesOn(s: string) {
    s != "" && (s[0] == '.' || s[0] == 'e' || s[0] == 'E')
  }

  function NumberAt(s: string): (r: Option<(int, string)>)
    ensures r.Some? ==> |r.value.1| < |s|
  {
    var negative := s != "" && s[0] == '-';
    var digits := if negative then s[1..] else s;
    var n := DigitsAt(digits);
    if n == 0 || GoesOn(digits[n..]) then None
    else Some((if negative then 0 - Numerals.Value(digits[..n]) else Numerals.Value(digits[..n]), digits[n..]))
  }

  function ValueAt(s: string): (r: Option<(Value, string)>)
    ensures r.Some? ==> |r.value.1| < |s|
    decreases |s|, 0
  {
    if s == "" then None
    else if s[0] == '"' then
      match TextAt(s[1..])
      case None => None
      case Some((text, rest)) => Some((Text(text), rest))
    else if s[0] == '[' then
      var inner := AfterBlanks(s[1..]);
      if inner != "" && inner[0] == ']' then Some((List([]), inner[1..]))
      else
        match ItemsAt(inner)
        case None => None
        case Some((items, rest)) => Some((List(items), rest))
    else if s[0] == '{' then
      var inner := AfterBlanks(s[1..]);
      if inner != "" && inner[0] == '}' then Some((Object([]), inner[1..]))
      else
        match FieldsAt(inner)
        case None => None
        case Some((fields, rest)) => Some((Object(fields), rest))
    else if "null" <= s then Some((Null, s[4..]))
    else if "true" <= s then Some((Bool(true), s[4..]))
    else if "false" <= s then Some((Bool(false), s[5..]))
    else
      match NumberAt(s)
      case None => None
      case Some((number, rest)) => Some((Number(number), rest))
  }

  /** The items of a list up to its closing bracket. */
  function ItemsAt(s: string): (r: Option<(seq<Value>, string)>)
    ensures r.Some? ==> |r.value.1| < |s|
    decreases |s|, 1
  {
    match ValueAt(s)
    case None => None
    case Some((item, rest)) =>
      var next := AfterBlanks(rest);
      if next == "" then None
      else if next[0] == ']' then Some(([item], next[1..]))
      else if next[0] != ',' then None
      else
        match ItemsAt(AfterBlanks(next[1..]))
        case None => None
        case Some((items, end)) => Some(([item] + items, end))
  }

  /** The fields of an object up to its closing brace. */
  function FieldsAt(s: string): (r: Option<(seq<Field>, string)>)
    ensures r.Some? ==> |r.value.1| < |s|
    decreases |s|, 1
  {
    if s == "" || s[0] != '"' then None
    else
      match TextAt(s[1..])
      case None => None
      case Some((name, afterName)) =>
        var colon := AfterBlanks(afterName);
        if colon == "" || colon[0] != ':' then None
        else
          match ValueAt(AfterBlanks(colon[1..]))
          case None => None
          case Some((value, rest)) =>
            var next := AfterBlanks(rest);
            if next == "" then None
            else if next[0] == '}' then Some(([Field(name, value)], next[1..]))
            else if next[0] != ',' then None
            else
              match FieldsAt(AfterBlanks(next[1..]))
              case None => None
              case Some((fields, end)) => Some(([Field(name, value)] + fields, end))
  }

  function Loads(s: string): Option<Value> {
    match ValueAt(AfterBlanks(s))
    case None => None
    case Some((value, rest)) => if AfterBlanks(rest) == "" then Some(value) else None
  }

  // ---------- what is printed is read back ----------

  lemma HexReadsBack(d: nat)
    requires d < 16
    ensures HexValue(HexDigit(d)) == Some(d)
  {
  }

  lemma FourDigits(n: nat)
    requires n < 0x1_0000
    ensures n / 4096 < 16
    ensures 4096 * (n / 4096) + 256 * (n / 256 % 16) + 16 * (n / 16 % 16) + n % 16 == n
  {
  }

  lemma UnitReadsBack(n: nat, rest: string)
    requires n < 0x1_0000
    ensures UnitAt((Unit(n) + rest)[2..]) == Some(n)
    ensures |Unit(n)| == 6 && Unit(n)[0] == '\\' && Unit(n)[1] == 'u'
  {
    FourDigits(n);
    HexReadsBack(n / 4096);
    HexReadsBack(n / 256 % 16);
    HexReadsBack(n / 16 % 16);
    HexReadsBack(n % 16);
    hide HexDigit, HexValue;
    var t := (Unit(n) + rest)[2..];
    assert t[0] == HexDigit(n / 4096) && t[1] == HexDigit(n / 256 % 16) && t[2] == HexDigit(n / 16 % 16) &&
        t[3] == HexDigit(n % 16);
  }

  /** An escaped character is read as that character. */
  lemma CharReadsBack(c: char, rest: string)
    ensures TextAt(EscapedChar(c) + rest) == Prepended(c, TextAt(rest))
  {
    var s := EscapedChar(c) + rest;
    if c == '"' || c == '\\' || c == '\n' || c == '\r' || c == '\t' || c == '\U{0C}' || c == '\U{08}' {
      assert |EscapedChar(c)| == 2 && s[1..][1..] == rest;
    } else if ' ' <= c <= '~' {
      assert s[1..] == rest;
    } else if c as int < 0x1_0000 {
      OneUnit(c, rest);
    } else {
      TwoUnits(c, rest);
    }
  }

  lemma OneUnit(c: char, rest: string)
    requires c as int < 0x1_0000
    ensures TextAt(Unit(c as int) + rest) == Prepended(c, TextAt(rest))
  {
    var n := c as int;
    var s := Unit(n) + rest;
    UnitReadsBack(n, rest);
    hide Unit, UnitAt;
    assert s[1..][1..] == s[2..] && s[1..][5..] == s[6..] == rest;
    assert s[0] == '\\' && s[1..][0] == 'u';
    assert EscapeAt(s[1..]) == Some((c, rest));
  }

  lemma Halves(n: nat)
    requires 0x1_0000 <= n < 0x11_0000
    ensures var high, low := 0xD800 + (n - 0x1_0000) / 0x400, 0xDC00 + (n - 0x1_0000) % 0x400;
            && 0xD800 <= high < 0xDC00 <= low < 0xE000
            && 0x1_0000 + (high - 0xD800) * 0x400 + (low - 0xDC00) == n
  {
  }

  lemma TwoUnits(c: char, rest: string)
    requires c as int >= 0x1_0000
    ensures var high, low := 0xD800 + (c as int - 0x1_0000) / 0x400, 0xDC00 + (c as int - 0x1_0000) % 0x400;
            TextAt(Unit(high) + Unit(low) + rest) == Prepended(c, TextAt(rest))
  {
    hide Unit, UnitAt, TextAt;
    var n := c as int;
    Halves(n);
    var high, low := 0xD800 + (n - 0x1_0000) / 0x400, 0xDC00 + (n - 0x1_0000) % 0x400;
    var tail := Unit(low) + rest;
    var s := Unit(high) + tail;
    assert Unit(high) + Unit(low) + rest == s;
    UnitReadsBack(high, tail);
    UnitReadsBack(low, rest);
    EscapeOfTwo(s, tail, rest, high, low, c);
  }

  lemma EscapeOfTwo(s: string, tail: string, rest: string, high: nat, low: nat, c: char)
    requires |s| >= 12 && s[0] == '\\' && s[1] == 'u' && s[6..] == tail && UnitAt(s[2..]) == Some(high)
    requires |tail| >= 6 && tail[0] == '\\' && tail[1] == 'u' && tail[6..] == rest && UnitAt(tail[2..]) == Some(low)
    requires 0xD800 <= high < 0xDC00 <= low < 0xE000
    requires 0x1_0000 + (high - 0xD800) * 0x400 + (low - 0xDC00) == c as int
    ensures TextAt(s) == Prepended(c, TextAt(rest))
  {
    hide UnitAt;
    var t := s[1..];
    assert t[0] == 'u' && t[1..] == s[2..] && t[5..] == tail && t[7..] == tail[2..] && t[11..] == rest;
    assert t[5] == tail[0] && t[6] == tail[1];
    assert EscapeAt(t) == Some((c, rest));
  }

  lemma {:induction false} TextReadsBack(text: string, rest: string)
    ensures TextAt(Escaped(text) + ("\"" + rest)) == Some((text, rest))
  {
    var end := "\"" + rest;
    if text == "" {
      assert Escaped(text) + end == end && end[1..] == rest;
    } else {
      hide EscapedChar, TextAt;
      TextReadsBack(text[1..], rest);
      CharReadsBack(text[0], Escaped(text[1..]) + end);
      FirstEscaped(text, end);
    }
  }

  lemma FirstEscaped(text: string, end: string)
    requires text != ""
    ensures Escaped(text) + end == EscapedChar(text[0]) + (Escaped(text[1..]) + end)
    ensures [text[0]] + text[1..] == text
  {
    hide EscapedChar;
    assert Escaped(text) == EscapedChar(text[0]) + Escaped(text[1..]);
    hide Escaped;
    Associates(EscapedChar(text[0]), Escaped(text[1..]), end);
  }

  lemma Associates(a: string, b: string, c: string)
    ensures a + b + c == a + (b + c)
  {
  }

  lemma QuotedReadsBack(text: string, rest: string)
    ensures var s := Quoted(text) + rest; s[0] == '"' && TextAt(s[1..]) == Some((text, rest))
  {
    TextReadsBack(text, rest);
    hide Escaped, TextAt;
    assert (Quoted(text) + rest)[1..] == Escaped(text) + ("\"" + rest);
  }

  /** What may follow a value: nothing a number could go on with. */
  predicate IsEnd(rest: string) {
    rest != "" ==> !Texts.IsDigit(rest[0]) && !GoesOn(rest)
  }

  lemma DigitsReadBack(n: nat, rest: string)
    requires IsEnd(rest)
    ensures DigitsAt(Numerals.Decimal(n) + rest) == |Numerals.Decimal(n)|
  {
    var digits := Numerals.Decimal(n);
    if digits[0] == '0' {
      assert |digits| == 1;
    } else {
      Texts.RunIs(digits, rest, Texts.IsDigit);
    }
  }

  lemma NumberOf(s: string, text: string, n: nat)
    requires if s != "" && s[0] == '-' then s[1..] == text else s == text
    requires DigitsAt(text) == n && n > 0 && !GoesOn(text[n..])
    ensures NumberAt(s) ==
            var value := Numerals.Value(text[..n]);
            Some((if s[0] == '-' then 0 - value else value, text[n..]))
  {
    hide DigitsAt, Numerals.Value;
  }

  lemma SignedText(number: int, rest: string)
    ensures var digits := Numerals.Decimal(if number < 0 then -number else number);
            var s, text := Numerals.IntText(number) + rest, digits + rest;
            && Texts.IsDigit(text[0])
            && (if number < 0 then s[0] == '-' && s[1..] == text else s == text)
            && text[..|digits|] == digits && text[|digits|..] == rest
  {
    var digits := Numerals.Decimal(if number < 0 then -number else number);
    hide Numerals.Decimal;
    assert Texts.IsDigit(digits[0]);
    if number < 0 {
      assert Numerals.IntText(number) + rest == "-" + (digits + rest);
    }
  }

  lemma NumberReadsBack(number: int, rest: string)
    requires IsEnd(rest)
    ensures NumberAt(Numerals.IntText(number) + rest) == Some((number, rest))
  {
    var n := if number < 0 then -number else number;
    var digits := Numerals.Decimal(n);
    DigitsReadBack(n, rest);
    Numerals.ValueOfDecimal(n);
    SignedText(number, rest);
    hide Numerals.Decimal, Numerals.IntText, Numerals.Value, DigitsAt, NumberAt;
    NumberOf(Numerals.IntText(number) + rest, digits + rest, |digits|);
  }

  lemma ValueOfNumber(number: int, rest: string)
    requires IsEnd(rest)
    ensures ValueAt(Numerals.IntText(number) + rest) == Some((Number(number), rest))
  {
    NumberReadsBack(number, rest);
    var n := if number < 0 then -number else number;
    assert Texts.IsDigit(Numerals.Decimal(n)[0]);
    var s := Numerals.IntText(number) + rest;
    assert s[0] == '-' || Texts.IsDigit(s[0]);
    hide NumberAt, Numerals.IntText;
    NoWord(s);
  }

  lemma NoWord(s: string)
    requires s != "" && (s[0] == '-' || Texts.IsDigit(s[0]))
    ensures !("null" <= s) && !("true" <= s) && !("false" <= s)
  {
    assert "null"[0] == 'n' && "true"[0] == 't' && "false"[0] == 'f';
  }

  /** A printed value starts with no blank and no closing bracket. */
  lemma Opens(j: Value)
    ensures var s := Dumps(j); s != "" && !IsBlank(s[0]) && s[0] != ']'
  {
    if j.Number? {
      var n := if j.number < 0 then -j.number else j.number;
      assert Texts.IsDigit(Numerals.Decimal(n)[0]);
    }
  }

  lemma NoBlanks(s: string)
    requires s != "" && !IsBlank(s[0])
    ensures AfterBlanks(s) == s && AfterBlanks(" " + s) == s
  {
    assert (" " + s)[1..] == s;
  }

  lemma {:induction false} ValueReadsBack(j: Value, rest: string)
    requires IsEnd(rest)
    ensures ValueAt(Dumps(j) + rest) == Some((j, rest))
    decreases j
  {
    match j
    case Null =>
      assert ("null" + rest)[4..] == rest;
    case Bool(truth) =>
      WordReadsBack(truth, rest);
    case Number(number) =>
      ValueOfNumber(number, rest);
    case Text(text) =>
      QuotedReadsBack(text, rest);
    case List(items) =>
      if items == [] {
        EmptyReadsBack(rest);
      } else {
        ItemsReadBack(items, rest);
        ListOfItems(items, rest);
      }
    case Object(fields) =>
      if fields == [] {
        EmptyReadsBack(rest);
      } else {
        FieldsReadBack(fields, rest);
        ObjectOfFields(fields, rest);
      }
  }

  lemma WordReadsBack(truth: bool, rest: string)
    ensures ValueAt(Dumps(Bool(truth)) + rest) == Some((Bool(truth), rest))
  {
    var word := if truth then "true" else "false";
    var s := word + rest;
    assert s[0] == word[0] && s[|word|..] == rest && word <= s;
  }

  lemma EmptyReadsBack(rest: string)
    ensures ValueAt("[]" + rest) == Some((List([]), rest))
    ensures ValueAt("{}" + rest) == Some((Object([]), rest))
  {
    assert ("[]" + rest)[1..] == "]" + rest && ("]" + rest)[1..] == rest;
    assert ("{}" + rest)[1..] == "}" + rest && ("}" + rest)[1..] == rest;
  }

  lemma ListText(items: seq<Value>, rest: string)
    requires items != []
    ensures Dumps(List(items)) + rest == "[" + (DumpsItems(items) + rest)
  {
    assert Dumps(List(items)) == "[" + DumpsItems(items);
    hide Dumps, DumpsItems;
    Associates("[", DumpsItems(items), rest);
  }

  lemma ObjectText(fields: seq<Field>, rest: string)
    requires fields != []
    ensures Dumps(Object(fields)) + rest == "{" + (DumpsFields(fields) + rest)
  {
    assert Dumps(Object(fields)) == "{" + DumpsFields(fields);
    hide Dumps, DumpsFields;
    Associates("{", DumpsFields(fields), rest);
  }

  lemma ListOfItems(items: seq<Value>, rest: string)
    requires items != [] && ItemsAt(DumpsItems(items) + rest) == Some((items, rest))
    ensures ValueAt(Dumps(List(items)) + rest) == Some((List(items), rest))
  {
    hide ItemsAt, DumpsItems, Dumps;
    var inner := DumpsItems(items) + rest;
    ItemsOpen(items, rest);
    ListText(items, rest);
    NoBlanks(inner);
    assert ("[" + inner)[1..] == inner;
  }

  lemma ObjectOfFields(fields: seq<Field>, rest: string)
    requires fields != [] && FieldsAt(DumpsFields(fields) + rest) == Some((fields, rest))
    ensures ValueAt(Dumps(Object(fields)) + rest) == Some((Object(fields), rest))
  {
    hide FieldsAt, DumpsFields, Dumps;
    var inner := DumpsFields(fields) + rest;
    FieldsText(fields, rest);
    ObjectText(fields, rest);
    NoBlanks(inner);
    assert ("{" + inner)[1..] == inner;
  }

  lemma ItemsOpen(items: seq<Value>, rest: string)
    requires items != []
    ensures var s := DumpsItems(items) + rest; s != "" && !IsBlank(s[0]) && s[0] != ']'
  {
    Opens(items[0]);
    hide Dumps;
  }

  lemma ItemsText(items: seq<Value>, rest: string)
    requires items != []
    ensures DumpsItems(items) + rest ==
            Dumps(items[0]) + if |items| == 1 then "]" + rest else ", " + (DumpsItems(items[1..]) + rest)
  {
    hide Dumps;
  }

  lemma LastItem(s: string, item: Value, rest: string)
    requires ValueAt(s) == Some((item, "]" + rest))
    ensures ItemsAt(s) == Some(([item], rest))
  {
    hide ValueAt;
    assert ("]" + rest)[1..] == rest;
  }

  lemma MoreItems(s: string, item: Value, more: string, items: seq<Value>, rest: string)
    requires ValueAt(s) == Some((item, ", " + more)) && ItemsAt(more) == Some((items, rest))
    requires more != "" && !IsBlank(more[0])
    ensures ItemsAt(s) == Some(([item] + items, rest))
  {
    hide ValueAt;
    NoBlanks(more);
    assert (", " + more)[1..] == " " + more;
  }

  lemma {:induction false} ItemsReadBack(items: seq<Value>, rest: string)
    requires items != []
    ensures ItemsAt(DumpsItems(items) + rest) == Some((items, rest))
    decreases items
  {
    hide Dumps, DumpsItems, ItemsAt, ValueAt;
    var s := DumpsItems(items) + rest;
    ItemsText(items, rest);
    if |items| == 1 {
      ValueReadsBack(items[0], "]" + rest);
      LastItem(s, items[0], rest);
      assert items == [items[0]];
    } else {
      var more := DumpsItems(items[1..]) + rest;
      ValueReadsBack(items[0], ", " + more);
      ItemsReadBack(items[1..], rest);
      ItemsOpen(items[1..], rest);
      MoreItems(s, items[0], more, items[1..], rest);
      assert items == [items[0]] + items[1..];
    }
  }

  lemma FieldsText(fields: seq<Field>, rest: string)
    requires fields != []
    ensures DumpsFields(fields) + rest ==
            Quoted(fields[0].name) +
            (": " + (Dumps(fields[0].value) + if |fields| == 1 then "}" + rest
                else ", " + (DumpsFields(fields[1..]) + rest)))
    ensures (DumpsFields(fields) + rest)[0] == '"'
  {
    hide Dumps;
    var quoted, value := Quoted(fields[0].name), Dumps(fields[0].value);
    var tail := if |fields| == 1 then "}" else ", " + DumpsFields(fields[1..]);
    assert quoted[0] == '"';
    assert DumpsFields(fields) == quoted + (": " + (value + tail));
    hide DumpsFields, Quoted;
    Associates(quoted, ": " + (value + tail), rest);
    Associates(": ", value + tail, rest);
    Associates(value, tail, rest);
    if |fields| > 1 {
      Associates(", ", DumpsFields(fields[1..]), rest);
    }
  }

  /** A field up to what follows its value. */
  lemma FieldAt(s: string, name: string, text: string, value: Value, next: string)
    requires s != "" && s[0] == '"' && TextAt(s[1..]) == Some((name, ": " + text))
    requires text != "" && !IsBlank(text[0]) && ValueAt(text) == Some((value, next))
    requires next != "" && !IsBlank(next[0])
    ensures FieldsAt(s) ==
              if next[0] == '}' then Some(([Field(name, value)], next[1..]))
              else if next[0] != ',' then None
              else
                match FieldsAt(AfterBlanks(next[1..]))
                case None => None
                case Some((fields, rest)) => Some(([Field(name, value)] + fields, rest))
  {
    hide TextAt, ValueAt;
    NoBlanks(text);
    assert (": " + text)[1..] == " " + text;
  }

  lemma PrintedField(field: Field, next: string)
    requires next != "" && !IsBlank(next[0]) && ValueAt(Dumps(field.value) + next) == Some((field.value, next))
    ensures var s := Quoted(field.name) + (": " + (Dumps(field.value) + next));
            FieldsAt(s) ==
              if next[0] == '}' then Some(([field], next[1..]))
              else if next[0] != ',' then None
              else
                match FieldsAt(AfterBlanks(next[1..]))
                case None => None
                case Some((fields, rest)) => Some(([field] + fields, rest))
  {
    hide Dumps, FieldsAt, Quoted, TextAt, ValueAt;
    var text := Dumps(field.value) + next;
    QuotedReadsBack(field.name, ": " + text);
    Opens(field.value);
    assert text[0] == Dumps(field.value)[0];
    FieldAt(Quoted(field.name) + (": " + text), field.name, text, field.value, next);
  }

  lemma LastField(field: Field, rest: string)
    requires ValueAt(Dumps(field.value) + ("}" + rest)) == Some((field.value, "}" + rest))
    ensures FieldsAt(Quoted(field.name) + (": " + (Dumps(field.value) + ("}" + rest)))) == Some(([field], rest))
  {
    hide Dumps, FieldsAt, Quoted, ValueAt;
    PrintedField(field, "}" + rest);
    assert ("}" + rest)[1..] == rest;
  }

  lemma MoreFields(field: Field, more: string, fields: seq<Field>, rest: string)
    requires ValueAt(Dumps(field.value) + (", " + more)) == Some((field.value, ", " + more))
    requires more != "" && more[0] == '"' && FieldsAt(more) == Some((fields, rest))
    ensures FieldsAt(Quoted(field.name) + (": " + (Dumps(field.value) + (", " + more)))) ==
              Some(([field] + fields, rest))
  {
    hide Dumps, FieldsAt, Quoted, ValueAt;
    PrintedField(field, ", " + more);
    NoBlanks(more);
    assert (", " + more)[1..] == " " + more;
  }

  lemma {:induction false} FieldsReadBack(fields: seq<Field>, rest: string)
    requires fields != []
    ensures FieldsAt(DumpsFields(fields) + rest) == Some((fields, rest))
    decreases fields
  {
    hide Dumps, DumpsFields, FieldsAt, Quoted, ValueAt;
    FieldsText(fields, rest);
    if |fields| == 1 {
      ValueReadsBack(fields[0].value, "}" + rest);
      LastField(fields[0], rest);
      assert fields == [fields[0]];
    } else {
      var more := DumpsFields(fields[1..]) + rest;
      ValueReadsBack(fields[0].value, ", " + more);
      FieldsReadBack(fields[1..], rest);
      FieldsText(fields[1..], rest);
      MoreFields(fields[0], more, fields[1..], rest);
      assert fields == [fields[0]] + fields[1..];
    }
  }

  /** Everything that is printed is read back as it was, objects with their fields
      in order. */
  lemma LoadsDumps(j: Value)
    ensures Loads(Dumps(j)) == Some(j)
  {
    ValueReadsBack(j, "");
    Opens(j);
    NoBlanks(Dumps(j));
    assert Dumps(j) + "" == Dumps(j);
    hide ValueAt, Dumps;
  }

  // ---------- as Python prints it ----------

  /** Blanks after colons and commas and nowhere else. */
  lemma PrintedWithBlanks(a: Value, b: Value, m: string, n: string)
    ensures Dumps(List([])) == "[]" && Dumps(Object([])) == "{}"
    ensures Dumps(List([a, b])) == "[" + (Dumps(a) + (", " + (Dumps(b) + "]")))
    ensures Dumps(Object([Field(m, a), Field(n, b)])) ==
            "{" + (Quoted(m) + (": " + (Dumps(a) + (", " + (Quoted(n) + (": " + (Dumps(b) + "}")))))))
  {
    hide Quoted;
    assert [a, b][1..] == [b] && [Field(m, a), Field(n, b)][1..] == [Field(n, b)];
    assert DumpsItems([b]) == Dumps(b) + "]";
    assert DumpsFields([Field(n, b)]) == Quoted(n) + (": " + (Dumps(b) + "}"));
  }

  /** A quote, a backslash and a line end after a backslash; a letter beyond ASCII
      in four small hexadecimal digits, and one beyond the first 65,536 in two such
      units. */
  lemma EscapesAreSpelled()
    ensures EscapedChar('"') == "\\\"" && EscapedChar('\\') == "\\\\" && EscapedChar('\n') == "\\n"
    ensures EscapedChar('a') == "a" && EscapedChar('\U{00E9}') == "\\u00e9"
    ensures EscapedChar('\U{1F600}') == "\\ud83d\\ude00"
  {
    UnitsAreSpelled();
    hide Unit;
  }

  lemma UnitsAreSpelled()
    ensures Unit(0xE9) == "\\u00e9" && Unit(0xD83D) == "\\ud83d" && Unit(0xDE00) == "\\ude00"
  {
  }
}
