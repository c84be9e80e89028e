/** The cached read of a release from GitHub, `latest()` of both release sources
    (`src/geekvpn/infrastructure/app_release.py` and `desktop_release.py`).

    GitHub is whatever `Fetch` says it answered; the cache is a key with an
    expiry, holding a release as text or a sentinel for "none published".  Calls
    of any number of processes overlap: a call looks at one time and writes at a
    later one, with anything that other calls do in between. */
module ReleaseCache {
  import opened Options

  const NO_RELEASE := "none"

  /** How asking GitHub ended.  `Failed` is unreachable, refused or unreadable;
      `Absent` is a repository with nothing to offer, which is worth
      remembering; `Read` is an answer that was understood. */
  datatype Fetch<+R> = Failed | Absent | Read(release: Option<R>)

  datatype Codec<!R> = Codec(encode: R -> string, decode: string -> Option<R>)

  ghost predicate Faithful<R(!new)>(codec: Codec<R>) {
    forall r: R :: codec.decode(codec.encode(r)) == Some(r) && codec.encode(r) != NO_RELEASE
  }

  datatype Entry = Entry(text: string, expires: real)

  function TextOf<R>(codec: Codec<R>, release: Option<R>): string {
    if release.None? then NO_RELEASE else codec.encode(release.value)
  }

  function ReleaseIn<R>(codec: Codec<R>, text: string): Option<R> {
    if text == NO_RELEASE then None else codec.decode(text)
  }

  predicate Present(cache: Option<Entry>, now: real) {
    cache.Some? && now < cache.value.expires
  }

  // ---------- histories of calls ----------

  /** What a call does: it looks into the cache; if it finds nothing it asks
      GitHub, and then either comes back with nothing to remember or writes. */
  datatype Event<+R> =
    | Looked(call: nat, now: real)
    | GaveUp(call: nat, now: real)
    | Wrote(call: nat, now: real, release: Option<R>)

  function CacheAfter<R>(codec: Codec<R>, ttl: real, events: seq<Event<R>>): Option<Entry> {
    if events == [] then None
    else
      match events[|events| - 1]
      case Wrote(_, now, release) => Some(Entry(TextOf(codec, release), now + ttl))
      case _ => CacheAfter(codec, ttl, events[..|events| - 1])
  }

  /** How far a call has come: not begun, asking GitHub, or over. */
  datatype Stage = New | Asking | Over

  function StageOf<R>(codec: Codec<R>, ttl: real, events: seq<Event<R>>, call: nat): Stage {
    if events == [] then New
    else
      var before, last := events[..|events| - 1], events[|events| - 1];
      if last.call != call then StageOf(codec, ttl, before, call)
      else if last.Looked? && !Present(CacheAfter(codec, ttl, before), last.now) then Asking
      else Over
  }

  /** Every call looks once, and what it does next it does because its own look
      found nothing. */
  predicate IsHistory<R>(codec: Codec<R>, ttl: real, events: seq<Event<R>>) {
    events == [] ||
    var before, last := events[..|events| - 1], events[|events| - 1];
    && IsHistory(codec, ttl, before)
    && StageOf(codec, ttl, before, last.call) == (if last.Looked? then New else Asking)
  }

  ghost predicate ClockForward<R>(events: seq<Event<R>>) {
    forall i, j :: 0 <= i < j < |events| ==> events[i].now <= events[j].now
  }

  predicate IsOf<R>(events: seq<Event<R>>, call: nat) {
    exists i :: 0 <= i < |events| && events[i].call == call
  }

  lemma OneMore<R>(codec: Codec<R>, ttl: real, events: seq<Event<R>>, e: Event<R>, call: nat)
    ensures CacheAfter(codec, ttl, events + [e]) ==
            if e.Wrote? then Some(Entry(TextOf(codec, e.release), e.now + ttl)) else CacheAfter(codec, ttl, events)
    ensures StageOf(codec, ttl, events + [e], call) ==
            if e.call != call then StageOf(codec, ttl, events, call)
            else if e.Looked? && !Present(CacheAfter(codec, ttl, events), e.now) then Asking
            else Over
    ensures IsHistory(codec, ttl, events + [e]) <==>
            IsHistory(codec, ttl, events) && StageOf(codec, ttl, events, e.call) == if e.Looked? then New else Asking
  {
    assert (events + [e])[..|events|] == events;
  }

  /** What other calls do leaves a call where it is. */
  lemma {:induction false} OthersLeaveStage<R>(codec: Codec<R>, ttl: real, events: seq<Event<R>>, others: seq<Event<R>>,
          call: nat)
    requires !IsOf(others, call)
    ensures StageOf(codec, ttl, events + others, call) == StageOf(codec, ttl, events, call)
  {
    if others == [] {
      assert events + others == events;
    } else {
      var n := |others| - 1;
      OthersLeaveStage(codec, ttl, events, others[..n], call);
      OneMore(codec, ttl, events + others[..n], others[n], call);
      assert events + others[..n] + [others[n]] == events + others;
    }
  }

  /** What one call did. */
  function Own<R>(events: seq<Event<R>>, call: nat): seq<Event<R>> {
    if events == [] then []
    else
      var last := events[|events| - 1];
      Own(events[..|events| - 1], call) + if last.call == call then [last] else []
  }

  /** The beginning of what `Source.Latest` adds for a call: its look, and then
      giving up or writing if the look found nothing. */
  predicate IsCall<R>(own: seq<Event<R>>, stage: Stage) {
    match stage
    case New => own == []
    case Asking => |own| == 1 && own[0].Looked?
    case Over => 1 <= |own| <= 2 && own[0].Looked? && (|own| == 2 ==> !own[1].Looked?)
  }

  /** A history is nothing but calls, interleaved. */
  lemma {:induction false} HistoryIsCalls<R>(codec: Codec<R>, ttl: real, events: seq<Event<R>>, call: nat)
    requires IsHistory(codec, ttl, events)
    ensures IsCall(Own(events, call), StageOf(codec, ttl, events, call))
  {
    if events != [] {
      HistoryIsCalls(codec, ttl, events[..|events| - 1], call);
    }
  }

  // ---------- one call ----------

  class Source<R> {
    const repo: string
    const codec: Codec<R>
    const cacheSeconds: real
    var cache: Option<Entry>
    var history: seq<Event<R>>

    /** The cache is what its history has made of it. */
    ghost predicate Valid()
      reads this
    {
      IsHistory(codec, cacheSeconds, history) && cache == CacheAfter(codec, cacheSeconds, history)
    }

    constructor (repo: string, codec: Codec<R>, cacheSeconds: real)
      ensures this.repo == repo && this.codec == codec && this.cacheSeconds == cacheSeconds
      ensures Valid() && history == []
    {
      this.repo, this.codec, this.cacheSeconds := repo, codec, cacheSeconds;
      cache, history := None, [];
    }

    method Remember(call: nat, release: Option<R>, now: real)
      requires Valid() && StageOf(codec, cacheSeconds, history, call) == Asking
      modifies this
      ensures Valid() && history == old(history) + [Wrote(call, now, release)]
    {
      cache := Some(Entry(if release.None? then NO_RELEASE else codec.encode(release.value), now + cacheSeconds));
      history := history + [Wrote(call, now, release)];
      OneMore(codec, cacheSeconds, old(history), Wrote(call, now, release), call);
    }

    /** From the cache if its entry is there when the call is `asked`, otherwise
        from GitHub; only an answer, of a release or of none, is remembered.
        `meanwhile` is what other calls do while GitHub is asked.  Whatever it is,
        the call adds to the history what a call does and nothing else. */
    method Latest(call: nat, asked: real, fetch: Fetch<R>, meanwhile: seq<Event<R>>, ended: real)
      returns (release: Option<R>)
      requires Valid() && StageOf(codec, cacheSeconds, history, call) == New && !IsOf(meanwhile, call)
      requires IsHistory(codec, cacheSeconds, history + [Looked(call, asked)] + meanwhile)
      modifies this
      ensures Valid()
      ensures repo == "" ==> release == None && history == old(history)
      ensures repo != "" && Present(old(cache), asked) ==>
                && release == ReleaseIn(codec, old(cache).value.text)
                && history == old(history) + [Looked(call, asked)]
      ensures repo != "" && !Present(old(cache), asked) ==>
                match fetch
                case Failed =>
                  && release == None
                  && history == old(history) + [Looked(call, asked)] + meanwhile + [GaveUp(call, ended)]
                case Absent =>
                  && release == None
                  && history == old(history) + [Looked(call, asked)] + meanwhile + [Wrote(call, ended, None)]
                case Read(found) =>
                  && release == found
                  && history == old(history) + [Looked(call, asked)] + meanwhile + [Wrote(call, ended, found)]
    {
      if repo == "" {
        return None;
      }
      OneMore(codec, cacheSeconds, history, Looked(call, asked), call);
      history := history + [Looked(call, asked)];
      if cache.Some? && asked < cache.value.expires {
        return ReleaseIn(codec, cache.value.text);
      }
      OthersLeaveStage(codec, cacheSeconds, history, meanwhile, call);
      history := history + meanwhile;
      cache := CacheAfter(codec, cacheSeconds, history);
      match fetch
      case Failed =>
        OneMore(codec, cacheSeconds, history, GaveUp(call, ended), call);
        history := history + [GaveUp(call, ended)];
        return None;
      case Absent =>
        Remember(call, None, ended);
        return None;
      case Read(found) =>
        Remember(call, found, ended);
        return found;
    }
  }

  // ---------- what the cache holds ----------

  /** The last write of a history. */
  function LastWrite<R>(events: seq<Event<R>>): (m: Option<nat>)
    ensures m.Some? ==> m.value < |events| && events[m.value].Wrote?
    ensures forall i :: 0 <= i < |events| && events[i].Wrote? ==> m.Some? && i <= m.value
  {
    if events == [] then None
    else if events[|events| - 1].Wrote? then Some(|events| - 1)
    else LastWrite(events[..|events| - 1])
  }

  /** Whoever writes last has it: the cache holds the answer of the last write,
      from the time of that write. */
  lemma {:induction false} CacheHoldsLast<R>(codec: Codec<R>, ttl: real, events: seq<Event<R>>)
    ensures CacheAfter(codec, ttl, events) ==
            match LastWrite(events)
            case None => None
            case Some(m) =>
              var release := events[m].release;
              Some(Entry(if release.None? then "none" else codec.encode(release.value), events[m].now + ttl))
  {
    if events != [] {
      CacheHoldsLast(codec, ttl, events[..|events| - 1]);
    }
  }

  /** The look finds nothing, so its call goes to GitHub. */
  predicate Misses<R>(codec: Codec<R>, ttl: real, events: seq<Event<R>>, k: nat)
    requires k < |events|
  {
    events[k].Looked? && !Present(CacheAfter(codec, ttl, events[..k]), events[k].now)
  }

  /** A call goes to GitHub exactly when nothing written by then is still within
      its time. */
  lemma MissesIff<R>(codec: Codec<R>, ttl: real, events: seq<Event<R>>, k: nat)
    requires k < |events| && events[k].Looked? && ClockForward(events)
    ensures Misses(codec, ttl, events, k) <==>
            forall m :: 0 <= m < k && events[m].Wrote? ==> events[k].now >= events[m].now + ttl
  {
    var before := events[..k];
    CacheHoldsLast(codec, ttl, before);
    var last := LastWrite(before);
    forall m | 0 <= m < k && events[m].Wrote? ensures last.Some? && events[m].now <= events[last.value].now {
      assert before[m] == events[m];
    }
  }

  /** So GitHub is asked again within the time of an answer only by a call that
      looked before that answer was written. */
  lemma AskedAgainOnlyMeanwhile<R>(codec: Codec<R>, ttl: real, events: seq<Event<R>>, m: nat, k: nat)
    requires m < |events| && k < |events| && ClockForward(events)
    requires events[m].Wrote? && Misses(codec, ttl, events, k) && events[k].now < events[m].now + ttl
    ensures k < m
  {
    MissesIff(codec, ttl, events, k);
  }

  /** A call that finds something is answered with what GitHub answered the call
      that wrote last. */
  lemma AnswersAgree<R(!new)>(codec: Codec<R>, ttl: real, events: seq<Event<R>>, k: nat)
    requires k < |events| && events[k].Looked? && !Misses(codec, ttl, events, k) && Faithful(codec)
    ensures var last := LastWrite(events[..k]);
            && last.Some? && events[k].now < events[last.value].now + ttl
            && ReleaseIn(codec, CacheAfter(codec, ttl, events[..k]).value.text) == events[last.value].release
  {
    CacheHoldsLast(codec, ttl, events[..k]);
  }

  // ---------- a failed fetch ----------

  /** The history without a call. */
  function Without<R>(events: seq<Event<R>>, call: nat): seq<Event<R>> {
    if events == [] then []
    else
      var last := events[|events| - 1];
      Without(events[..|events| - 1], call) + if last.call == call then [] else [last]
  }

  predicate Writes<R>(events: seq<Event<R>>, call: nat) {
    exists i :: 0 <= i < |events| && events[i].Wrote? && events[i].call == call
  }

  lemma WithoutMore<R>(events: seq<Event<R>>, e: Event<R>, call: nat)
    ensures Without(events + [e], call) == if e.call == call then Without(events, call) else Without(events, call) + [e]
    ensures Writes(events + [e], call) <==> Writes(events, call) || (e.Wrote? && e.call == call)
  {
    var longer := events + [e];
    assert longer[..|events|] == events && longer[|events|] == e;
    assert forall i :: 0 <= i < |events| ==> longer[i] == events[i];
  }

  /** A call that GitHub fails, or that has not come back, leaves no trace: take
      all it did out of any history, and what is left is a history in which the
      cache and every other call are where they were.  The same goes for every
      beginning of the history, so each look of another call found the same. */
  lemma {:induction false} FailureLeavesNoTrace<R>(codec: Codec<R>, ttl: real, events: seq<Event<R>>, call: nat)
    requires IsHistory(codec, ttl, events) && !Writes(events, call)
    ensures var rest := Without(events, call);
            && IsHistory(codec, ttl, rest)
            && CacheAfter(codec, ttl, rest) == CacheAfter(codec, ttl, events)
            && forall other :: other != call ==> StageOf(codec, ttl, rest, other) == StageOf(codec, ttl, events, other)
  {
    if events != [] {
      hide CacheAfter, IsHistory, StageOf, Without, Writes;
      var n := |events| - 1;
      var before, last := events[..n], events[n];
      assert events == before + [last];
      WithoutMore(before, last, call);
      OneMore(codec, ttl, before, last, call);
      FailureLeavesNoTrace(codec, ttl, before, call);
      var rest := Without(before, call);
      OneMore(codec, ttl, rest, last, call);
      forall other | other != call
        ensures StageOf(codec, ttl, Without(events, call), other) == StageOf(codec, ttl, events, other)
      {
        OneMore(codec, ttl, before, last, other);
        OneMore(codec, ttl, rest, last, other);
      }
    }
  }

  // ---------- whose answer is served ----------

  /** When a call looked. */
  function LookOf<R>(events: seq<Event<R>>, call: nat): (k: Option<nat>)
    ensures k.Some? ==> k.value < |events| && events[k.value].Looked? && events[k.value].call == call
  {
    if events == [] then None
    else
      var last := events[|events| - 1];
      if last.Looked? && last.call == call then Some(|events| - 1) else LookOf(events[..|events| - 1], call)
  }

  /** A call is new until it looks, and asks until it is over. */
  lemma {:induction false} StageAndLook<R>(codec: Codec<R>, ttl: real, events: seq<Event<R>>, call: nat)
    requires IsHistory(codec, ttl, events)
    ensures StageOf(codec, ttl, events, call) == New <==> LookOf(events, call).None?
    ensures StageOf(codec, ttl, events, call) == Asking ==> Misses(codec, ttl, events, LookOf(events, call).value)
    ensures Writes(events, call) ==> StageOf(codec, ttl, events, call) == Over
  {
    if events != [] {
      var n := |events| - 1;
      var before := events[..n];
      StageAndLook(codec, ttl, before, call);
      if LookOf(before, call).Some? {
        assert before[..LookOf(before, call).value] == events[..LookOf(before, call).value];
      }
      if i :| 0 <= i < |events| && events[i].Wrote? && events[i].call == call {
        assert i < n ==> before[i] == events[i];
      }
    }
  }

  /** In a history a write comes after a look of its own call, which found
      nothing. */
  lemma {:induction false} LooksBeforeItWrites<R>(codec: Codec<R>, ttl: real, events: seq<Event<R>>, j: nat)
    requires IsHistory(codec, ttl, events) && j < |events| && events[j].Wrote?
    ensures var k := LookOf(events, events[j].call); k.Some? && k.value < j && Misses(codec, ttl, events, k.value)
  {
    var n := |events| - 1;
    var before, call := events[..n], events[j].call;
    StageAndLook(codec, ttl, before, call);
    if j < n {
      assert before[j] == events[j];
      LooksBeforeItWrites(codec, ttl, before, j);
    }
    var k := LookOf(before, call).value;
    assert before[..k] == events[..k];
  }

  /** And a call writes once. */
  lemma {:induction false} WritesOnce<R>(codec: Codec<R>, ttl: real, events: seq<Event<R>>, i: nat, j: nat)
    requires IsHistory(codec, ttl, events) && i < j < |events| && events[i].Wrote? && events[j].Wrote?
    ensures events[i].call != events[j].call
  {
    var n := |events| - 1;
    var before := events[..n];
    assert before[i] == events[i];
    if j < n {
      WritesOnce(codec, ttl, before, i, j);
    } else {
      StageAndLook(codec, ttl, before, events[i].call);
    }
  }

  /** When the call of a write looked; the write itself where it is none. */
  function AskedAt<R>(events: seq<Event<R>>, m: nat): (k: nat)
    requires m < |events|
  {
    var look := LookOf(events, events[m].call);
    if look.Some? then look.value else m
  }

  /** Of the calls that have written by then, the one whose answer the cache holds
      looked last: nothing that was asked for later has been lost. */
  ghost predicate IsFresh<R>(events: seq<Event<R>>, n: nat)
    requires n <= |events|
  {
    forall i :: 0 <= i < n && events[i].Wrote? ==>
      AskedAt(events, i) <= AskedAt(events, LastWrite(events[..n]).value)
  }

  ghost predicate WritesInOrder<R>(events: seq<Event<R>>) {
    forall i, j :: 0 <= i < j < |events| && events[i].Wrote? && events[j].Wrote? ==>
        AskedAt(events, i) < AskedAt(events, j)
  }

  /** The cache holds the answer of the call that looked last, at every moment of
      a history, exactly when its calls write in the order in which they looked. */
  lemma FreshIffInOrder<R>(codec: Codec<R>, ttl: real, events: seq<Event<R>>)
    requires IsHistory(codec, ttl, events)
    ensures (forall n :: 0 <= n <= |events| ==> IsFresh(events, n)) <==> WritesInOrder(events)
  {
    if WritesInOrder(events) {
      forall n | 0 <= n <= |events| ensures IsFresh(events, n) {
        InOrderIsFresh(events, n);
      }
    }
    if forall n :: 0 <= n <= |events| ==> IsFresh(events, n) {
      forall i, j | 0 <= i < j < |events| && events[i].Wrote? && events[j].Wrote?
        ensures AskedAt(events, i) < AskedAt(events, j)
      {
        assert IsFresh(events, j + 1);
        JustWritten(events, j);
        DifferentLooks(codec, ttl, events, i, j);
      }
    }
  }

  lemma InOrderIsFresh<R>(events: seq<Event<R>>, n: nat)
    requires n <= |events| && WritesInOrder(events)
    ensures IsFresh(events, n)
  {
    hide AskedAt;
    var before := events[..n];
    forall i | 0 <= i < n && events[i].Wrote? ensures AskedAt(events, i) <= AskedAt(events, LastWrite(before).value) {
      assert before[i] == events[i];
      var m := LastWrite(before).value;
      assert before[m] == events[m];
    }
  }

  lemma JustWritten<R>(events: seq<Event<R>>, j: nat)
    requires j < |events| && events[j].Wrote?
    ensures LastWrite(events[..j + 1]) == Some(j)
  {
    assert events[..j + 1][j] == events[j];
  }

  lemma DifferentLooks<R>(codec: Codec<R>, ttl: real, events: seq<Event<R>>, i: nat, j: nat)
    requires IsHistory(codec, ttl, events) && i < j < |events| && events[i].Wrote? && events[j].Wrote?
    ensures AskedAt(events, i) != AskedAt(events, j)
  {
    LooksBeforeItWrites(codec, ttl, events, i);
    LooksBeforeItWrites(codec, ttl, events, j);
    WritesOnce(codec, ttl, events, i, j);
  }

  // ---------- calls that do not overlap ----------

  /** No call looks while another is asking GitHub. */
  ghost predicate OneAtATime<R>(codec: Codec<R>, ttl: real, events: seq<Event<R>>) {
    forall k, call :: 0 <= k < |events| && events[k].Looked? ==> StageOf(codec, ttl, events[..k], call) != Asking
  }

  lemma {:induction false} PrefixIsHistory<R>(codec: Codec<R>, ttl: real, events: seq<Event<R>>, k: nat)
    requires IsHistory(codec, ttl, events) && k <= |events|
    ensures IsHistory(codec, ttl, events[..k])
  {
    if k < |events| {
      PrefixIsHistory(codec, ttl, events[..|events| - 1], k);
      assert events[..|events| - 1][..k] == events[..k];
    } else {
      assert events[..k] == events;
    }
  }

  /** A call that has looked and will write is asking in between. */
  lemma {:induction false} AskingBetween<R>(codec: Codec<R>, ttl: real, events: seq<Event<R>>, k: nat, j: nat)
    requires IsHistory(codec, ttl, events) && k <= j < |events| && events[j].Wrote? && AskedAt(events, j) < k
    ensures StageOf(codec, ttl, events[..k], events[j].call) == Asking
    decreases j - k
  {
    var call := events[j].call;
    LooksBeforeItWrites(codec, ttl, events, j);
    PrefixIsHistory(codec, ttl, events, k + 1);
    var longer := events[..k + 1];
    assert longer[..k] == events[..k] && longer[k] == events[k];
    if k < j {
      AskingBetween(codec, ttl, events, k + 1, j);
    }
    NoLaterLook(events, call, k);
  }

  lemma {:induction false} NoLaterLook<R>(events: seq<Event<R>>, call: nat, k: nat)
    requires k < |events| && LookOf(events, call).Some? && LookOf(events, call).value < k
    ensures !(events[k].Looked? && events[k].call == call)
  {
    var n := |events| - 1;
    if k < n {
      NoLaterLook(events[..n], call, k);
    }
  }

  /** So where calls do not overlap the cache is always fresh. */
  lemma OneAtATimeIsFresh<R>(codec: Codec<R>, ttl: real, events: seq<Event<R>>, n: nat)
    requires IsHistory(codec, ttl, events) && OneAtATime(codec, ttl, events) && n <= |events|
    ensures IsFresh(events, n)
  {
    forall i, j | 0 <= i < j < |events| && events[i].Wrote? && events[j].Wrote?
      ensures AskedAt(events, i) < AskedAt(events, j)
    {
      LooksBeforeItWrites(codec, ttl, events, i);
      LooksBeforeItWrites(codec, ttl, events, j);
      DifferentLooks(codec, ttl, events, i, j);
      if AskedAt(events, j) < AskedAt(events, i) {
        AskingBetween(codec, ttl, events, AskedAt(events, i), j);
      }
    }
    FreshIffInOrder(codec, ttl, events);
  }

  // ---------- calls that do ----------

  function Overtaken<R>(older: R, newer: R): seq<Event<R>> {
    [Looked(1, 0.0), Looked(2, 1.0), Wrote(2, 2.0, Some(newer)), Wrote(1, 3.0, Some(older))]
  }

  /** Two calls look before either writes; the second has read the newer release
      by 2, and the first, which asked before it, comes back with the older one at
      3.  That one is then what every call is answered with, for its whole time. */
  lemma OlderAnswerStays<R(!new)>(codec: Codec<R>, older: R, newer: R, now: real)
    requires Faithful(codec)
    ensures var events := Overtaken(older, newer);
            && IsHistory(codec, 600.0, events) && !WritesInOrder(events) && !IsFresh(events, 4)
            && (now < 603.0 ==> Present(CacheAfter(codec, 600.0, events), now))
            && ReleaseIn(codec, CacheAfter(codec, 600.0, events).value.text) == Some(older)
  {
    var first: seq<Event<R>> := [Looked(1, 0.0)];
    var both := first + [Looked(2, 1.0)];
    var read := both + [Wrote(2, 2.0, Some(newer))];
    var events := read + [Wrote(1, 3.0, Some(older))];
    assert events == Overtaken(older, newer) && events[..4] == events && first == [] + [Looked(1, 0.0)];
    OneMore(codec, 600.0, [], Looked(1, 0.0), 1);
    OneMore(codec, 600.0, [], Looked(1, 0.0), 2);
    OneMore(codec, 600.0, first, Looked(2, 1.0), 1);
    OneMore(codec, 600.0, first, Looked(2, 1.0), 2);
    OneMore(codec, 600.0, both, Wrote(2, 2.0, Some(newer)), 1);
    OneMore(codec, 600.0, both, Wrote(2, 2.0, Some(newer)), 2);
    OneMore(codec, 600.0, read, Wrote(1, 3.0, Some(older)), 1);
    LooksOfTwo(older, newer);
    JustWritten(events, 3);
  }

  lemma LooksOfTwo<R>(older: R, newer: R)
    ensures var events := Overtaken(older, newer); AskedAt(events, 3) == 0 && AskedAt(events, 2) == 1
  {
    var events := Overtaken(older, newer);
    assert events[..3] == [Looked(1, 0.0), Looked(2, 1.0), Wrote(2, 2.0, Some(newer))];
    assert events[..3][..2] == [Looked(1, 0.0), Looked(2, 1.0)] && events[..3][..2][..1] == [Looked(1, 0.0)];
    assert LookOf(events, 2) == LookOf(events[..3], 2) == LookOf(events[..3][..2], 2) == Some(1);
    assert LookOf(events, 1) == LookOf(events[..3], 1) == LookOf(events[..3][..2], 1) ==
        LookOf(events[..3][..2][..1], 1) == Some(0);
  }
}
