/** Catalogue slugs, `admin/src/lib/slug.ts`: a pipeline of regular-expression
    replacements, proved equal to a transducer that sees each character once.

    `lower` is the lower-casing of one character, which may give several; of
    Unicode's tables the proofs need only that it leaves slug characters alone. */
module Slugs {
  import JsText
  import Texts

  const MAX_SLUG := 64

  type Lowering = char -> string

  predicate IsAlnum(c: char) {
    'a' <= c <= 'z' || Texts.IsDigit(c)
  }

  predicate IsSlugChar(c: char) {
    IsAlnum(c) || c == '-'
  }

  predicate IsSeparator(c: char) {
    JsText.IsSpace(c) || c == '_'
  }

  predicate IsHyphen(c: char) {
    c == '-'
  }

  ghost predicate LeavesSlugsAlone(lower: Lowering) {
    forall c :: IsSlugChar(c) ==> lower(c) == [c]
  }

  function Lowered(lower: Lowering, s: string): string {
    if s == "" then "" else lower(s[0]) + Lowered(lower, s[1..])
  }

  function WithoutLeadingHyphen(s: string): string {
    if s != "" && s[0] == '-' then s[1..] else s
  }

  /** The pipeline after lower-casing and before the cut. */
  function Piped(s: string): string {
    var hyphened := JsText.ReplaceRuns(s, IsSeparator, 1, '-');
    var kept := Texts.Keep(hyphened, IsSlugChar);
    var single := JsText.ReplaceRuns(kept, IsHyphen, 2, '-');
    WithoutLeadingHyphen(single)
  }

  function EditSlug(lower: Lowering, raw: string): string {
    JsText.Take(Piped(Lowered(lower, raw)), MAX_SLUG)
  }

  // ---------- one character at a time ----------

  /** What one more character does to the slug so far. */
  function Typed(out: string, c: char): string {
    if IsAlnum(c) then out + [c]
    else if !IsSeparator(c) && c != '-' then out
    else if out == "" || out[|out| - 1] == '-' then out
    else out + "-"
  }

  /** The same in a field that is full at `MAX_SLUG` characters. */
  function Pressed(out: string, c: char): string {
    if |out| >= MAX_SLUG then out else Typed(out, c)
  }

  function TypeAll(out: string, s: string): string
    decreases |s|
  {
    if s == "" then out else TypeAll(Typed(out, s[0]), s[1..])
  }

  function PressAll(out: string, s: string): string
    decreases |s|
  {
    if s == "" then out else PressAll(Pressed(out, s[0]), s[1..])
  }

  /** The transducer: one pass over what was typed. */
  function Scan(lower: Lowering, out: string, raw: string): string
    decreases |raw|
  {
    if raw == "" then out else Scan(lower, PressAll(out, lower(raw[0])), raw[1..])
  }

  lemma {:induction false} TypeAllConcat(out: string, a: string, b: string)
    ensures TypeAll(out, a + b) == TypeAll(TypeAll(out, a), b)
    decreases |a|
  {
    if a == "" {
      assert a + b == b;
    } else {
      assert (a + b)[1..] == a[1..] + b;
      TypeAllConcat(Typed(out, a[0]), a[1..], b);
    }
  }

  lemma {:induction false} PressAllConcat(out: string, a: string, b: string)
    ensures PressAll(out, a + b) == PressAll(PressAll(out, a), b)
    decreases |a|
  {
    if a == "" {
      assert a + b == b;
    } else {
      assert (a + b)[1..] == a[1..] + b;
      PressAllConcat(Pressed(out, a[0]), a[1..], b);
    }
  }

  lemma {:induction false} ScanConcat(lower: Lowering, out: string, a: string, b: string)
    ensures Scan(lower, out, a + b) == Scan(lower, Scan(lower, out, a), b)
    decreases |a|
  {
    if a == "" {
      assert a + b == b;
    } else {
      assert (a + b)[1..] == a[1..] + b;
      ScanConcat(lower, PressAll(out, lower(a[0])), a[1..], b);
    }
  }

  lemma {:induction false} ScanIsPressAll(lower: Lowering, out: string, raw: string)
    ensures Scan(lower, out, raw) == PressAll(out, Lowered(lower, raw))
    decreases |raw|
  {
    if raw != "" {
      PressAllConcat(out, lower(raw[0]), Lowered(lower, raw[1..]));
      ScanIsPressAll(lower, PressAll(out, lower(raw[0])), raw[1..]);
    }
  }

  /** A run of separators or hyphens types as one hyphen. */
  lemma {:induction false} RunTypesOnce(out: string, run: string)
    requires run != "" && forall c <- run :: IsSeparator(c) || c == '-'
    ensures TypeAll(out, run) == Typed(out, '-')
    decreases |run|
  {
    assert run[0] in run;
    var next := Typed(out, run[0]);
    assert next == Typed(out, '-') && Typed(next, '-') == next;
    if |run| == 1 {
      assert run[1..] == "";
    } else {
      RunTypesOnce(next, run[1..]);
    }
  }

  lemma {:induction false} ReplacingRunsTypesTheSame(out: string, s: string, inClass: char -> bool, least: nat)
    requires least >= 1 && forall c :: inClass(c) ==> IsSeparator(c) || c == '-'
    ensures TypeAll(out, JsText.ReplaceRuns(s, inClass, least, '-')) == TypeAll(out, s)
    decreases |s|
  {
    if s != "" {
      var n := Texts.RunLength(s, inClass);
      var k := if n >= least then n else 1;
      var head := if n >= least then "-" else [s[0]];
      var tail := JsText.ReplaceRuns(s[k..], inClass, least, '-');
      assert JsText.ReplaceRuns(s, inClass, least, '-') == head + tail;
      TypeAllConcat(out, head, tail);
      assert s == s[..k] + s[k..];
      TypeAllConcat(out, s[..k], s[k..]);
      if n >= least {
        RunTypesOnce(out, s[..k]);
        RunTypesOnce(out, head);
      } else {
        assert s[..k] == head;
      }
      ReplacingRunsTypesTheSame(TypeAll(out, head), s[k..], inClass, least);
    }
  }

  lemma {:induction false} NoSeparatorsLeft(s: string)
    ensures forall c <- JsText.ReplaceRuns(s, IsSeparator, 1, '-') :: !IsSeparator(c)
    decreases |s|
  {
    if s != "" {
      var n := Texts.RunLength(s, IsSeparator);
      NoSeparatorsLeft(s[if n >= 1 then n else 1..]);
    }
  }

  lemma {:induction false} KeepingTypesTheSame(out: string, s: string)
    requires forall c <- s :: !IsSeparator(c)
    ensures TypeAll(out, Texts.Keep(s, IsSlugChar)) == TypeAll(out, s)
    decreases |s|
  {
    if s != "" {
      var rest := Texts.Keep(s[1..], IsSlugChar);
      if IsSlugChar(s[0]) {
        assert ([s[0]] + rest)[1..] == rest;
      } else {
        assert "" + rest == rest;
      }
      KeepingTypesTheSame(Typed(out, s[0]), s[1..]);
    }
  }

  // ---------- drafts: what the field can hold ----------

  predicate NoDoubleHyphen(s: string) {
    forall i :: 0 < i < |s| ==> !(s[i - 1] == '-' && s[i] == '-')
  }

  /** A slug that may still be waiting for its next word. */
  predicate IsDraft(s: string) {
    && (forall c <- s :: IsSlugChar(c))
    && (s != "" ==> s[0] != '-')
    && NoDoubleHyphen(s)
  }

  lemma {:induction false} SingledRuns(s: string)
    ensures var r := JsText.ReplaceRuns(s, IsHyphen, 2, '-');
            && NoDoubleHyphen(r)
            && (forall c <- r :: c in s || c == '-')
            && (r != "" && r[0] == '-' ==> s != "" && s[0] == '-')
    decreases |s|
  {
    if s != "" {
      var n := Texts.RunLength(s, IsHyphen);
      var k := if n >= 2 then n else 1;
      SingledRuns(s[k..]);
      if n == 1 && |s| > 1 {
        assert s[1] != '-';
      }
    }
  }

  /** Typing a draft after what it can follow adds it unchanged. */
  lemma {:induction false} DraftTypesAsItIs(out: string, s: string)
    requires (forall c <- s :: IsSlugChar(c)) && NoDoubleHyphen(s)
    requires s != "" && s[0] == '-' ==> out != "" && out[|out| - 1] != '-'
    ensures TypeAll(out, s) == out + s
    decreases |s|
  {
    if s != "" {
      assert Typed(out, s[0]) == out + [s[0]] by {
        assert IsSlugChar(s[0]);
      }
      if |s| > 1 && s[1] == '-' {
        assert s[0] != '-';
      }
      DraftTypesAsItIs(out + [s[0]], s[1..]);
      assert out + [s[0]] + s[1..] == out + s;
    }
  }

  lemma PipedIsTypeAll(s: string)
    ensures Piped(s) == TypeAll("", s)
  {
    var hyphened := JsText.ReplaceRuns(s, IsSeparator, 1, '-');
    var kept := Texts.Keep(hyphened, IsSlugChar);
    var single := JsText.ReplaceRuns(kept, IsHyphen, 2, '-');
    ReplacingRunsTypesTheSame("", s, IsSeparator, 1);
    NoSeparatorsLeft(s);
    KeepingTypesTheSame("", hyphened);
    ReplacingRunsTypesTheSame("", kept, IsHyphen, 2);
    SingledRuns(kept);
    Texts.KeepIsKept(hyphened, IsSlugChar);
    SingleIsDraft(kept, single);
    LeadingHyphenTypesNothing(single);
    hide JsText.ReplaceRuns, Texts.Keep, TypeAll, IsSlugChar, NoDoubleHyphen, WithoutLeadingHyphen;
    DraftTypesAsItIs("", WithoutLeadingHyphen(single));
  }

  lemma SingleIsDraft(kept: string, single: string)
    requires (forall c <- kept :: IsSlugChar(c)) && (forall c <- single :: c in kept || c == '-')
    requires NoDoubleHyphen(single)
    ensures var piped := WithoutLeadingHyphen(single);
            && (forall c <- piped :: IsSlugChar(c))
            && NoDoubleHyphen(piped)
            && (piped != "" ==> piped[0] != '-')
  {
    if single != "" && single[0] == '-' && single[1..] != "" {
      assert single[1..][0] == single[1];
    }
  }

  lemma LeadingHyphenTypesNothing(s: string)
    ensures TypeAll("", WithoutLeadingHyphen(s)) == TypeAll("", s)
  {
    assert Typed("", '-') == "";
  }

  lemma {:induction false} PressAllIsCutTypeAll(out: string, s: string)
    requires |out| <= MAX_SLUG
    ensures PressAll(out, s) == JsText.Take(TypeAll(out, s), MAX_SLUG)
    decreases |s|
  {
    if s != "" {
      if |out| == MAX_SLUG {
        TypingExtends(out, s);
        FullStaysFull(out, s);
      } else {
        PressAllIsCutTypeAll(Typed(out, s[0]), s[1..]);
      }
    }
  }

  lemma {:induction false} TypingExtends(out: string, s: string)
    ensures out <= TypeAll(out, s)
    decreases |s|
  {
    if s != "" {
      TypingExtends(Typed(out, s[0]), s[1..]);
    }
  }

  lemma {:induction false} FullStaysFull(out: string, s: string)
    requires |out| >= MAX_SLUG
    ensures PressAll(out, s) == out
  {
    if s != "" {
      FullStaysFull(out, s[1..]);
    }
  }

  /** The pipeline is the one-pass transducer, for every text and lower-casing. */
  lemma EditSlugIsScan(lower: Lowering, raw: string)
    ensures EditSlug(lower, raw) == Scan(lower, "", raw)
  {
    PipedIsTypeAll(Lowered(lower, raw));
    PressAllIsCutTypeAll("", Lowered(lower, raw));
    ScanIsPressAll(lower, "", raw);
  }

  // ---------- what becomes of what is typed ----------

  /** JavaScript's white space and line ends, one by one. */
  const WHITE_SPACE := "\t\n\U{0B}\U{0C}\r \U{A0}\U{1680}\U{2000}\U{2001}\U{2002}\U{2003}\U{2004}\U{2005}\U{2006}" +
    "\U{2007}\U{2008}\U{2009}\U{200A}\U{2028}\U{2029}\U{202F}\U{205F}\U{3000}\U{FEFF}"

  /** What one more key does to the field: a letter or a digit is added, a hyphen,
      an underscore or white space adds a hyphen after a word, anything else is
      dropped; and nothing is added to 64 characters. */
  lemma OneMoreKey(lower: Lowering, a: string, c: char, low: char)
    requires lower(c) == [low]
    ensures var shown, next := EditSlug(lower, a), EditSlug(lower, a + [c]);
            next == if |shown| == 64 then shown
                    else if 'a' <= low <= 'z' || '0' <= low <= '9' then shown + [low]
                    else if low != '-' && low != '_' && low !in WHITE_SPACE then shown
                    else if shown == "" || shown[|shown| - 1] == '-' then shown
                    else shown + "-"
  {
    var shown := EditSlug(lower, a);
    EditSlugIsScan(lower, a);
    EditSlugIsScan(lower, a + [c]);
    ScanConcat(lower, "", a, [c]);
    assert Scan(lower, shown, [c]) == PressAll(shown, [low]) == Pressed(shown, low) by {
      assert [c][1..] == "" && [low][1..] == "";
    }
    hide EditSlug, Scan, PressAll;
  }

  // ---------- what the field holds ----------

  lemma {:induction false} TypingDrafts(out: string, s: string)
    requires IsDraft(out)
    ensures IsDraft(TypeAll(out, s))
    decreases |s|
  {
    if s != "" {
      TypingDrafts(Typed(out, s[0]), s[1..]);
    }
  }

  lemma {:induction false} LoweredSlug(lower: Lowering, s: string)
    requires LeavesSlugsAlone(lower) && forall c <- s :: IsSlugChar(c)
    ensures Lowered(lower, s) == s
  {
    if s != "" {
      LoweredSlug(lower, s[1..]);
    }
  }

  /** What the field shows is always a draft that fits, and the drafts that fit
      are exactly the texts it leaves alone. */
  lemma EditSlugFixes(lower: Lowering, raw: string)
    requires LeavesSlugsAlone(lower)
    ensures var slug := EditSlug(lower, raw); IsDraft(slug) && |slug| <= MAX_SLUG
    ensures EditSlug(lower, raw) == raw <==> IsDraft(raw) && |raw| <= MAX_SLUG
  {
    PipedIsTypeAll(Lowered(lower, raw));
    TypingDrafts("", Lowered(lower, raw));
    if IsDraft(raw) {
      LoweredSlug(lower, raw);
      DraftTypesAsItIs("", raw);
    }
  }

  lemma EditSlugIdempotent(lower: Lowering, raw: string)
    requires LeavesSlugsAlone(lower)
    ensures EditSlug(lower, EditSlug(lower, raw)) == EditSlug(lower, raw)
  {
    EditSlugFixes(lower, raw);
    EditSlugFixes(lower, EditSlug(lower, raw));
  }

  /** Typing on at the end of what the field shows is the same as pasting the
      whole text at once. */
  lemma TypingIsPasting(lower: Lowering, a: string, b: string)
    requires LeavesSlugsAlone(lower)
    ensures EditSlug(lower, EditSlug(lower, a) + b) == EditSlug(lower, a + b)
  {
    var shown := EditSlug(lower, a);
    EditSlugIdempotent(lower, a);
    EditSlugIsScan(lower, a);
    EditSlugIsScan(lower, shown);
    EditSlugIsScan(lower, shown + b);
    EditSlugIsScan(lower, a + b);
    ScanConcat(lower, "", shown, b);
    ScanConcat(lower, "", a, b);
  }

  // ---------- the slug that is sent ----------

  /** `^[a-z0-9]+(?:-[a-z0-9]+)*$`, the API's own pattern, as words joined by
      single hyphens. */
  ghost predicate IsSlug(s: string) {
    exists words: seq<string> :: SpellsSlug(words, s)
  }

  predicate IsWord(w: string) {
    w != "" && forall i :: 0 <= i < |w| ==> IsAlnum(w[i])
  }

  ghost predicate SpellsSlug(words: seq<string>, s: string) {
    && words != []
    && (forall w <- words :: IsWord(w))
    && s == Joined(words)
  }

  function Joined(words: seq<string>): string {
    if words == [] then ""
    else if |words| == 1 then words[0]
    else words[0] + "-" + Joined(words[1..])
  }

  /** What the API takes: `validate_slug` on a text it need not tidy. */
  ghost predicate ApiAccepts(s: string) {
    s != "" && |s| <= 64 && IsSlug(s)
  }

  lemma {:induction false} WordsOf(s: string) returns (words: seq<string>)
    requires IsDraft(s) && s != "" && s[|s| - 1] != '-'
    ensures SpellsSlug(words, s)
    decreases |s|
  {
    var n := Texts.RunLength(s, IsAlnum);
    assert s[0] in s;
    if n == |s| {
      words := [s];
    } else {
      assert IsSlugChar(s[n]);
      assert s[n] == '-' && n + 1 < |s|;
      assert s[n + 1] != '-';
      var rest := WordsOf(s[n + 1..]);
      words := [s[..n]] + rest;
      assert words[1..] == rest;
      assert s == s[..n] + "-" + s[n + 1..];
    }
  }

  lemma {:induction false} JoinedIsDraft(words: seq<string>, s: string)
    requires SpellsSlug(words, s)
    ensures IsDraft(s) && s != "" && s[|s| - 1] != '-'
  {
    assert IsWord(words[0]);
    if |words| > 1 {
      var rest := Joined(words[1..]);
      JoinedIsDraft(words[1..], rest);
      assert s == words[0] + "-" + rest;
    }
  }

  /** A slug is a draft that is not waiting for anything. */
  lemma SlugIsFinishedDraft(s: string)
    ensures IsSlug(s) <==> IsDraft(s) && s != "" && s[|s| - 1] != '-'
  {
    if IsSlug(s) {
      var words :| SpellsSlug(words, s);
      JoinedIsDraft(words, s);
    }
    if IsDraft(s) && s != "" && s[|s| - 1] != '-' {
      var words := WordsOf(s);
    }
  }

  // ---------- words ----------

  predicate IsPlainWord(w: string) {
    w != "" && forall i :: 0 <= i < |w| ==> 'a' <= w[i] <= 'z' || '0' <= w[i] <= '9'
  }

  predicate IsGap(gap: string) {
    gap != "" && forall i :: 0 <= i < |gap| ==> gap[i] == ' ' || gap[i] == '\t' || gap[i] == '_' || gap[i] == '-'
  }

  /** Words with something between them. */
  function Spaced(words: seq<string>, gaps: seq<string>): string
    requires |words| == |gaps| + 1
  {
    if gaps == [] then words[0] else words[0] + (gaps[0] + Spaced(words[1..], gaps[1..]))
  }

  ghost predicate LeavesTypedAlone(lower: Lowering) {
    forall c :: 'a' <= c <= 'z' || '0' <= c <= '9' || c == ' ' || c == '\t' || c == '_' || c == '-' ==> lower(c) == [c]
  }

  lemma {:induction false} LoweredAlone(lower: Lowering, s: string, rest: string)
    requires forall i :: 0 <= i < |s| ==> lower(s[i]) == [s[i]]
    ensures Lowered(lower, s + rest) == s + Lowered(lower, rest)
  {
    if s == "" {
      assert s + rest == rest;
    } else {
      LoweredAlone(lower, s[1..], rest);
      assert (s + rest)[1..] == s[1..] + rest;
      assert s == [s[0]] + s[1..];
    }
  }

  lemma {:induction false} LoweredSpaced(lower: Lowering, words: seq<string>, gaps: seq<string>)
    requires LeavesTypedAlone(lower) && |words| == |gaps| + 1
    requires (forall i :: 0 <= i < |words| ==> IsPlainWord(words[i])) && forall i :: 0 <= i < |gaps| ==> IsGap(gaps[i])
    ensures Lowered(lower, Spaced(words, gaps)) == Spaced(words, gaps)
  {
    assert IsPlainWord(words[0]);
    if gaps == [] {
      LoweredAlone(lower, words[0], "");
      assert words[0] + "" == words[0];
    } else {
      assert IsGap(gaps[0]);
      var rest := Spaced(words[1..], gaps[1..]);
      LoweredSpaced(lower, words[1..], gaps[1..]);
      LoweredAlone(lower, words[0], gaps[0] + rest);
      LoweredAlone(lower, gaps[0], rest);
    }
  }

  lemma WordTypes(out: string, word: string)
    requires IsPlainWord(word)
    ensures TypeAll(out, word) == out + word
  {
    forall c | c in word ensures IsAlnum(c) {
      var i :| 0 <= i < |word| && word[i] == c;
    }
    assert word[0] in word;
    DraftTypesAsItIs(out, word);
  }

  lemma GapTypes(out: string, gap: string)
    requires IsGap(gap) && out != "" && out[|out| - 1] != '-'
    ensures TypeAll(out, gap) == out + "-"
  {
    forall c | c in gap ensures IsSeparator(c) || c == '-' {
      var i :| 0 <= i < |gap| && gap[i] == c;
    }
    RunTypesOnce(out, gap);
  }

  lemma WordAndGapType(out: string, word: string, gap: string, rest: string)
    requires IsPlainWord(word) && IsGap(gap)
    ensures TypeAll(out, word + (gap + rest)) == TypeAll(out + word + "-", rest)
  {
    WordTypes(out, word);
    assert word[|word| - 1] != '-' && (out + word)[|out + word| - 1] == word[|word| - 1];
    GapTypes(out + word, gap);
    hide TypeAll, IsPlainWord, IsGap;
    TypeAllConcat(out, word, gap + rest);
    TypeAllConcat(out + word, gap, rest);
  }

  lemma {:induction false} SpacedTypes(out: string, words: seq<string>, gaps: seq<string>)
    requires |words| == |gaps| + 1
    requires (forall i :: 0 <= i < |words| ==> IsPlainWord(words[i])) && forall i :: 0 <= i < |gaps| ==> IsGap(gaps[i])
    ensures TypeAll(out, Spaced(words, gaps)) == out + Joined(words)
    decreases |words|
  {
    hide TypeAll, IsPlainWord, IsGap;
    if gaps == [] {
      WordTypes(out, words[0]);
    } else {
      WordAndGapType(out, words[0], gaps[0], Spaced(words[1..], gaps[1..]));
      SpacedTypes(out + words[0] + "-", words[1..], gaps[1..]);
      Texts.Reassociated(out, words[0], "-", Joined(words[1..]));
      hide Spaced;
    }
  }

  /** Words of Latin letters and digits, with spaces, tabs, underscores and hyphens
      between them however many, become the words joined by single hyphens, cut at
      64 characters. */
  lemma WordsAreJoined(lower: Lowering, words: seq<string>, gaps: seq<string>)
    requires LeavesTypedAlone(lower) && |words| == |gaps| + 1
    requires (forall i :: 0 <= i < |words| ==> IsPlainWord(words[i])) && forall i :: 0 <= i < |gaps| ==> IsGap(gaps[i])
    ensures var joined := Joined(words);
            EditSlug(lower, Spaced(words, gaps)) == if |joined| <= 64 then joined else joined[..64]
  {
    LoweredSpaced(lower, words, gaps);
    PipedIsTypeAll(Spaced(words, gaps));
    SpacedTypes("", words, gaps);
    hide Piped, Lowered, Spaced;
  }

  /** A space between two words becomes a hyphen, and so does an underscore. */
  lemma TwoWords(lower: Lowering, a: string, b: string)
    requires LeavesTypedAlone(lower) && IsPlainWord(a) && IsPlainWord(b) && |a| + 1 + |b| <= 64
    ensures EditSlug(lower, a + " " + b) == a + "-" + b && EditSlug(lower, a + "_" + b) == a + "-" + b
  {
    assert [a, b][1..] == [b] && [" "][1..] == ["_"][1..] == [];
    assert Spaced([b], []) == b;
    assert a + " " + b == Spaced([a, b], [" "]) && a + "_" + b == Spaced([a, b], ["_"]);
    WordsAreJoined(lower, [a, b], [" "]);
    WordsAreJoined(lower, [a, b], ["_"]);
    hide EditSlug;
  }

  // ---------- finishing a slug ----------

  /** `replace(/-+$/, '')` */
  function WithoutTrailingHyphens(s: string): (r: string)
    ensures r <= s && (r != "" ==> r[|r| - 1] != '-')
    ensures s == "" || s[|s| - 1] != '-' ==> r == s
  {
    if s != "" && s[|s| - 1] == '-' then WithoutTrailingHyphens(s[..|s| - 1]) else s
  }

  function Tidy(lower: Lowering, value: string, maxLength: nat): string {
    WithoutTrailingHyphens(JsText.Take(EditSlug(lower, value), maxLength))
  }

  /** `slice(2, 8).padEnd(6, '0')` of a random number in base 36; `fraction` is
      its digits after the point, none for a whole number. */
  function RandomTail(fraction: string): (r: string)
    ensures |r| == 6 && ((forall c <- fraction :: IsAlnum(c)) ==> forall c <- r :: IsAlnum(c))
    ensures forall i :: 0 <= i < 6 ==> r[i] == if i < |fraction| then fraction[i] else '0'
  {
    var digits := JsText.Take(fraction, 6);
    digits + seq(6 - |digits|, _ => '0')
  }

  function SlugToSave(lower: Lowering, typed: string, name: string, prefix: string, fraction: string,
                      maxLength: nat := MAX_SLUG): string {
    var fromTyped := Tidy(lower, typed, maxLength);
    if |fromTyped| >= 2 then fromTyped
    else
      var fromName := Tidy(lower, name, maxLength);
      if |fromName| >= 2 then fromName
      else prefix + "-" + RandomTail(fraction)
  }

  lemma TidyIsSlug(lower: Lowering, value: string, maxLength: nat)
    requires LeavesSlugsAlone(lower)
    ensures var r := Tidy(lower, value, maxLength);
            && |r| <= maxLength && |r| <= MAX_SLUG
            && (r != "" ==> IsSlug(r))
  {
    EditSlugFixes(lower, value);
    var draft := EditSlug(lower, value);
    var r := Tidy(lower, value, maxLength);
    assert r <= draft;
    assert IsDraft(r);
    SlugIsFinishedDraft(r);
  }

  lemma PrefixedIsSlug(prefix: string, tail: string)
    requires IsSlug(prefix) && tail != "" && forall c <- tail :: IsAlnum(c)
    ensures IsSlug(prefix + "-" + tail)
  {
    SlugIsFinishedDraft(prefix);
    var s := prefix + "-" + tail;
    assert forall i :: 0 <= i < |tail| ==> s[|prefix| + 1 + i] == tail[i] && tail[i] in tail;
    SlugIsFinishedDraft(s);
  }

  /** Whatever was typed, whatever the name, the slug that is sent is one the
      API accepts, as long as the prefix is. */
  lemma SlugToSaveIsAccepted(lower: Lowering, typed: string, name: string, prefix: string, fraction: string,
          maxLength: nat)
    requires LeavesSlugsAlone(lower)
    requires IsSlug(prefix) && |prefix| + 7 <= MAX_SLUG && forall c <- fraction :: IsAlnum(c)
    ensures var slug := SlugToSave(lower, typed, name, prefix, fraction, maxLength);
            && ApiAccepts(slug) && |slug| >= 2
            && (|slug| <= maxLength || slug == prefix + "-" + RandomTail(fraction))
  {
    TidyIsSlug(lower, typed, maxLength);
    TidyIsSlug(lower, name, maxLength);
    PrefixedIsSlug(prefix, RandomTail(fraction));
  }

  /** A slug the API would take is sent as it was typed exactly when it has two
      characters or more; a single one is passed over. */
  lemma TypedSlugIsKept(lower: Lowering, typed: string, name: string, prefix: string, fraction: string, maxLength: nat)
    requires LeavesSlugsAlone(lower) && ApiAccepts(typed) && |typed| <= maxLength
    ensures SlugToSave(lower, typed, name, prefix, fraction, maxLength) == typed <==> |typed| >= 2
  {
    SlugIsFinishedDraft(typed);
    EditSlugFixes(lower, typed);
    hide EditSlug, IsSlug, IsDraft;
    assert Tidy(lower, typed, maxLength) == typed;
    hide Tidy;
  }

  /** What is typed but too short gives way to the name, and a name that is too
      short as well, or not Latin at all, to the prefix and six characters. */
  lemma FallsBack(lower: Lowering, typed: string, name: string, prefix: string, fraction: string, maxLength: nat)
    requires LeavesSlugsAlone(lower) && |Tidy(lower, typed, maxLength)| < 2
    ensures var slug := SlugToSave(lower, typed, name, prefix, fraction, maxLength);
            && (ApiAccepts(name) && 2 <= |name| <= maxLength ==> slug == name)
            && (|Tidy(lower, name, maxLength)| < 2 ==> |slug| == |prefix| + 7 && prefix + "-" <= slug)
  {
    SlugIsFinishedDraft(name);
    EditSlugFixes(lower, name);
    hide EditSlug, IsSlug, IsDraft;
    if ApiAccepts(name) && 2 <= |name| <= maxLength {
      assert Tidy(lower, name, maxLength) == name;
    }
    hide Tidy;
  }
}
