/** Release versions, `version_tuple` of `src/geekvpn/infrastructure/desktop_release.py`. */
module Versions {
  import opened Options
  import opened PyText
  import Numerals
  import Texts

  datatype Version = Version(major: nat, minor: nat, patch: nat)

  /** Python's order of tuples. */
  predicate Less(a: Version, b: Version) {
    || a.major < b.major
    || (a.major == b.major && a.minor < b.minor)
    || (a.major == b.major && a.minor == b.minor && a.patch < b.patch)
  }

  /** `\d+` at the start: the number and what follows it. */
  function LeadingNumber(s: string): Option<(nat, string)> {
    var n := Texts.RunLength(s, IsDigit);
    if n == 0 then None else Some((Value(s[..n]), s[n..]))
  }

  /** A point and then `\d+`. */
  function NextNumber(s: string): Option<(nat, string)> {
    if s != "" && s[0] == '.' then LeadingNumber(s[1..]) else None
  }

  /** `^v?(\d+)\.(\d+)\.(\d+)`, with anything after it. */
  function VersionTuple(text: string): Option<Version> {
    ThreeNumbers(WithoutV(Strip(text)))
  }

  function WithoutV(s: string): string {
    if s != "" && s[0] == 'v' then s[1..] else s
  }

  function ThreeNumbers(s: string): Option<Version> {
    match LeadingNumber(s)
    case None => None
    case Some((major, afterMajor)) =>
      match NextNumber(afterMajor)
      case None => None
      case Some((minor, afterMinor)) =>
        match NextNumber(afterMinor)
        case None => None
        case Some((patch, _)) => Some(Version(major, minor, patch))
  }

  predicate IsVersion(text: string) {
    VersionTuple(text).Some?
  }

  /** Both are versions and the first is older. */
  predicate Older(a: string, b: string) {
    IsVersion(a) && IsVersion(b) && Less(VersionTuple(a).value, VersionTuple(b).value)
  }

  // ---------- three numbers and two points ----------

  /** Three runs of digits, each as long as it goes, with points between. */
  predicate Spells(s: string, major: string, minor: string, patch: string, rest: string) {
    && s == major + ("." + (minor + ("." + (patch + rest))))
    && IsNumber(major) && IsNumber(minor) && IsNumber(patch) && IsEnd(rest)
  }

  predicate IsNumber(s: string) {
    s != "" && IsDigits(s)
  }

  predicate IsEnd(rest: string) {
    rest != "" ==> !IsDigit(rest[0])
  }

  lemma LeadingNumberIs(digits: string, rest: string)
    requires IsNumber(digits) && IsEnd(rest)
    ensures LeadingNumber(digits + rest) == Some((Value(digits), rest))
    ensures NextNumber("." + (digits + rest)) == Some((Value(digits), rest))
  {
    Texts.RunIs(digits, rest, IsDigit);
    assert (digits + rest)[..|digits|] == digits && (digits + rest)[|digits|..] == rest;
    assert ("." + (digits + rest))[1..] == digits + rest;
  }

  lemma ThreeNumbersAre(s: string, major: nat, afterMajor: string, minor: nat, afterMinor: string, patch: nat,
          rest: string)
    requires LeadingNumber(s) == Some((major, afterMajor))
    requires NextNumber(afterMajor) == Some((minor, afterMinor)) && NextNumber(afterMinor) == Some((patch, rest))
    ensures ThreeNumbers(s) == Some(Version(major, minor, patch))
  {
    hide LeadingNumber, NextNumber;
  }

  lemma SpelledIsRead(s: string, major: string, minor: string, patch: string, rest: string)
    requires Spells(s, major, minor, patch, rest)
    ensures ThreeNumbers(s) == Some(Version(Value(major), Value(minor), Value(patch)))
  {
    hide LeadingNumber, NextNumber, ThreeNumbers, Value, DigitAmong;
    var afterMinor := "." + (patch + rest);
    var afterMajor := "." + (minor + afterMinor);
    LeadingNumberIs(major, afterMajor);
    LeadingNumberIs(minor, afterMinor);
    LeadingNumberIs(patch, rest);
    ThreeNumbersAre(s, Value(major), afterMajor, Value(minor), afterMinor, Value(patch), rest);
  }

  lemma LeadingRun(s: string) returns (digits: string, rest: string)
    ensures LeadingNumber(s).Some? ==>
              s == digits + rest && IsNumber(digits) && IsEnd(rest) && LeadingNumber(s).value.1 == rest
  {
    var n := Texts.RunLength(s, IsDigit);
    digits, rest := s[..n], s[n..];
  }

  lemma NextRun(s: string) returns (digits: string, rest: string)
    ensures NextNumber(s).Some? ==>
              s == "." + (digits + rest) && IsNumber(digits) && IsEnd(rest) && NextNumber(s).value.1 == rest
  {
    digits, rest := LeadingRun(if s != "" then s[1..] else "");
    if NextNumber(s).Some? {
      assert s == "." + s[1..];
    }
  }

  lemma ReadIsSpelled(s: string) returns (major: string, minor: string, patch: string, rest: string)
    ensures ThreeNumbers(s).Some? ==> Spells(s, major, minor, patch, rest)
  {
    hide LeadingNumber, NextNumber, IsNumber, IsEnd;
    var afterMajor, afterMinor;
    major, afterMajor := LeadingRun(s);
    minor, afterMinor := NextRun(afterMajor);
    patch, rest := NextRun(afterMinor);
  }

  // ---------- what a version's text says ----------

  function VersionText(v: Version): string {
    Numerals.Decimal(v.major) + ("." + Numerals.Decimal(v.minor) + ("." + Numerals.Decimal(v.patch)))
  }

  lemma {:induction false} StripEndOfSuffix(front: string, suffix: string)
    requires front != "" && !IsSpace(front[|front| - 1])
    ensures StripEnd(front + suffix) == front + StripEnd(suffix)
    decreases |suffix|
  {
    var s := front + suffix;
    if suffix == "" {
      assert s == front;
    } else if IsSpace(suffix[|suffix| - 1]) {
      assert s[..|s| - 1] == front + suffix[..|suffix| - 1];
      StripEndOfSuffix(front, suffix[..|suffix| - 1]);
    }
  }

  lemma StripOfText(front: string, suffix: string)
    requires front != "" && !IsSpace(front[0]) && !IsSpace(front[|front| - 1])
    ensures Strip(front + suffix) == front + StripEnd(suffix)
  {
    assert (front + suffix)[0] == front[0];
    StripEndOfSuffix(front, suffix);
  }

  lemma ReadsThreeNumbers(v: Version, rest: string)
    requires IsEnd(rest)
    ensures ThreeNumbers(VersionText(v) + rest) == Some(v)
  {
    var major, minor, patch := Numerals.Decimal(v.major), Numerals.Decimal(v.minor), Numerals.Decimal(v.patch);
    ValueOfDecimal(v.major);
    ValueOfDecimal(v.minor);
    ValueOfDecimal(v.patch);
    hide Numerals.Decimal, Value, IsDigit;
    assert VersionText(v) + rest == major + ("." + (minor + ("." + (patch + rest))));
    SpelledIsRead(VersionText(v) + rest, major, minor, patch, rest);
  }

  lemma TextEnds(v: Version)
    ensures BetweenDigits(VersionText(v))
  {
  }

  predicate BetweenDigits(text: string) {
    text != "" && Texts.IsDigit(text[0]) && Texts.IsDigit(text[|text| - 1])
  }

  lemma ReadPlain(text: string, suffix: string, v: Version)
    requires BetweenDigits(text) && ThreeNumbers(text + StripEnd(suffix)) == Some(v)
    ensures VersionTuple(text + suffix) == Some(v)
  {
    StripOfText(text, suffix);
    assert (text + StripEnd(suffix))[0] == text[0];
    SameRead(text + suffix, text + StripEnd(suffix), v);
  }

  lemma StripOfPrefixed(text: string, suffix: string)
    requires BetweenDigits(text)
    ensures WithoutV(Strip("v" + text + suffix)) == text + StripEnd(suffix)
  {
    var front := "v" + text;
    assert front[0] == 'v' && front[|front| - 1] == text[|text| - 1];
    StripOfText(front, suffix);
    DropsV(text, StripEnd(suffix));
  }

  lemma SameRead(t: string, s: string, v: Version)
    requires WithoutV(Strip(t)) == s && ThreeNumbers(s) == Some(v)
    ensures VersionTuple(t) == Some(v)
  {
  }

  lemma DropsV(text: string, rest: string)
    ensures WithoutV("v" + text + rest) == text + rest
  {
  }

  /** `1.2.0`, `v1.2.0` and `1.2.0-beta.1` are all the version 1.2.0: numbers
      and not text, and whatever does not go on with a digit is ignored. */
  lemma VersionTextIsRead(v: Version, suffix: string)
    requires IsEnd(suffix)
    ensures VersionTuple(VersionText(v) + suffix) == Some(v)
    ensures VersionTuple("v" + VersionText(v) + suffix) == Some(v)
  {
    TextEnds(v);
    ReadsThreeNumbers(v, StripEnd(suffix));
    ReadPlain(VersionText(v), suffix, v);
    StripOfPrefixed(VersionText(v), suffix);
    SameRead("v" + VersionText(v) + suffix, VersionText(v) + StripEnd(suffix), v);
  }

  /** A text is a version exactly when, trimmed and without its `v`, it starts
      with three numbers and two points; and then it is those numbers. */
  lemma VersionIff(text: string)
    ensures IsVersion(text) <==> exists a, b, c, rest :: Spells(WithoutV(Strip(text)), a, b, c, rest)
    ensures forall a, b, c, rest :: Spells(WithoutV(Strip(text)), a, b, c, rest) ==>
              VersionTuple(text) == Some(Version(Value(a), Value(b), Value(c)))
  {
    var s := WithoutV(Strip(text));
    var major, minor, patch, rest := ReadIsSpelled(s);
    assert VersionTuple(text) == ThreeNumbers(s);
    hide ThreeNumbers, Strip, WithoutV, Spells, Value;
    forall a, b, c, r | Spells(s, a, b, c, r)
      ensures VersionTuple(text) == Some(Version(Value(a), Value(b), Value(c)))
    {
      SpelledIsRead(s, a, b, c, r);
    }
  }

  /** A version is older than another exactly when its major number is smaller, or
      the majors are level and its minor number is, or both are level and its patch
      number is; as numbers, and whatever follows them. */
  lemma OlderInNumbers(a: Version, b: Version, afterA: string, afterB: string)
    requires IsEnd(afterA) && IsEnd(afterB)
    ensures Older(VersionText(a) + afterA, VersionText(b) + afterB) <==>
            || b.major > a.major
            || (b.major == a.major && b.minor > a.minor)
            || (b.major == a.major && b.minor == a.minor && b.patch > a.patch)
  {
    VersionTextIsRead(a, afterA);
    VersionTextIsRead(b, afterB);
    hide VersionTuple, VersionText;
  }

  lemma WrittenInDecimal()
    ensures VersionText(Version(1, 20, 3)) == "1.20.3"
  {
  }

  /** One of two different versions is older. */
  lemma LessIsTotal(a: Version, b: Version)
    ensures !(Less(a, b) && Less(b, a))
    ensures a == b || Less(a, b) || Less(b, a)
  {
  }
}
