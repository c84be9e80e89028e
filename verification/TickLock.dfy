/** The cross-process lock around a worker's tick, as a transition system over
    any number of workers, one Redis key and the clock.

    Redis stores only "1" under the key; `owner` is what the proof remembers.
    The delete at the end of a tick does not look at the owner, so everything
    rests on ticks ending before the key expires. */
module TickLock {

  const LOCK_TTL_SECONDS := 300.0

  datatype Lock = Free | Taken(owner: nat, since: real)

  /** Whether `set nx` would find the key: an expired key is no longer there. */
  predicate Live(lock: Lock, now: real) {
    lock.Taken? && now < lock.since + LOCK_TTL_SECONDS
  }

  datatype Phase = Idle | Ticking(since: real) | Dead

  datatype State = State(now: real, lock: Lock, workers: map<nat, Phase>)

  datatype Step =
    | Start(w: nat)           // a new process, or a restarted one
    | Take(w: nat)            // `set nx ex`: enters the tick, or skips it quietly
    | TakeRaises(w: nat)      // Redis unreachable: not caught, the process ends
    | Release(w: nat)         // the delete, whoever owns the key by now
    | ReleaseRaises(w: nat)   // the delete fails and the failure is suppressed
    | Crash(w: nat)           // killed, inside a tick or outside it
    | Pass(seconds: real)     // the clock

  const INITIAL := State(0.0, Free, map[])

  function PhaseOf(s: State, w: nat): Phase {
    if w in s.workers then s.workers[w] else Dead
  }

  predicate Enabled(s: State, step: Step) {
    match step
    case Start(w) => PhaseOf(s, w).Dead?
    case Take(w) => PhaseOf(s, w).Idle?
    case TakeRaises(w) => PhaseOf(s, w).Idle?
    case Release(w) => PhaseOf(s, w).Ticking?
    case ReleaseRaises(w) => PhaseOf(s, w).Ticking?
    case Crash(w) => !PhaseOf(s, w).Dead?
    case Pass(seconds) => seconds >= 0.0
  }

  function Apply(s: State, step: Step): State {
    match step
    case Start(w) => s.(workers := s.workers[w := Idle])
    case Take(w) =>
      if Live(s.lock, s.now) then s
      else s.(lock := Taken(w, s.now), workers := s.workers[w := Ticking(s.now)])
    case TakeRaises(w) => s.(workers := s.workers[w := Dead])
    case Release(w) => s.(lock := Free, workers := s.workers[w := Idle])
    case ReleaseRaises(w) => s.(workers := s.workers[w := Idle])
    case Crash(w) => s.(workers := s.workers[w := Dead])
    case Pass(seconds) => s.(now := s.now + seconds)
  }

  /** The state after the first `k` steps. */
  function After(steps: seq<Step>, k: nat): State
    requires k <= |steps|
  {
    if k == 0 then INITIAL else Apply(After(steps, k - 1), steps[k - 1])
  }

  /** Each of the first `k` steps was possible when it was taken. */
  ghost predicate Run(steps: seq<Step>, k: nat)
    requires k <= |steps|
  {
    k == 0 || (Run(steps, k - 1) && Enabled(After(steps, k - 1), steps[k - 1]))
  }

  /** No worker is still inside a tick it entered a TTL or more ago. */
  ghost predicate Timely(s: State) {
    forall w | w in s.workers && s.workers[w].Ticking? :: s.now < s.workers[w].since + LOCK_TTL_SECONDS
  }

  ghost predicate TimelyThroughout(steps: seq<Step>, k: nat)
    requires k <= |steps|
  {
    Timely(After(steps, k)) && (k == 0 || TimelyThroughout(steps, k - 1))
  }

  predicate Inside(s: State, w: nat) {
    PhaseOf(s, w).Ticking?
  }

  ghost predicate AtMostOneInside(s: State) {
    forall v, w :: Inside(s, v) && Inside(s, w) ==> v == w
  }

  /** While ticks are timely, whoever is inside holds the live key. */
  ghost predicate InsideHoldsLock(s: State) {
    && (forall w | w in s.workers && s.workers[w].Ticking? :: s.lock == Taken(w, s.workers[w].since))
    && (s.lock.Taken? ==> s.lock.since <= s.now)
  }

  lemma StepKeepsInvariant(s: State, step: Step)
    requires InsideHoldsLock(s) && Timely(s) && Enabled(s, step)
    ensures InsideHoldsLock(Apply(s, step))
  {
  }

  lemma {:induction false} InvariantHolds(steps: seq<Step>, k: nat)
    requires k <= |steps| && Run(steps, k) && TimelyThroughout(steps, k)
    ensures InsideHoldsLock(After(steps, k))
  {
    if k > 0 {
      InvariantHolds(steps, k - 1);
      StepKeepsInvariant(After(steps, k - 1), steps[k - 1]);
    }
  }

  /** One tick at a time, over every run of any number of workers with crashes,
      restarts, failed deletes and expiries, as long as ticks are timely. */
  lemma MutualExclusion(steps: seq<Step>)
    requires Run(steps, |steps|) && TimelyThroughout(steps, |steps|)
    ensures AtMostOneInside(After(steps, |steps|))
  {
    InvariantHolds(steps, |steps|);
  }

  /** And a delete that comes next finds the deleting worker's own live key. */
  lemma DeletesOwnLock(steps: seq<Step>, w: nat)
    requires Run(steps, |steps|) && TimelyThroughout(steps, |steps|)
    requires Enabled(After(steps, |steps|), Release(w))
    ensures var s := After(steps, |steps|);
            s.lock == Taken(w, s.workers[w].since) && Live(s.lock, s.now)
  {
    InvariantHolds(steps, |steps|);
  }

  // ---------- the hypothesis is exactly what is needed ----------

  /** From a timely run with `w` inside, a second worker that asks `wait`
      seconds later gets in exactly when `w` has by then overrun the TTL. */
  lemma SecondEntersIffOverrun(steps: seq<Step>, w: nat, v: nat, wait: real)
    requires Run(steps, |steps|) && TimelyThroughout(steps, |steps|) && wait >= 0.0
    requires Inside(After(steps, |steps|), w) && PhaseOf(After(steps, |steps|), v).Idle?
    ensures var s := After(steps, |steps|);
            var longer := steps + [Pass(wait)] + [Take(v)];
            && Run(longer, |longer|)
            && (!AtMostOneInside(After(longer, |longer|)) <==> s.now + wait >= s.workers[w].since + 300.0)
  {
    InvariantHolds(steps, |steps|);
    Extend(steps, Pass(wait));
    Extend(steps + [Pass(wait)], Take(v));
    SecondAsks(After(steps, |steps|), w, v, wait);
  }

  lemma SecondAsks(s: State, w: nat, v: nat, wait: real)
    requires InsideHoldsLock(s) && wait >= 0.0 && Inside(s, w) && PhaseOf(s, v).Idle?
    ensures var end := Apply(Apply(s, Pass(wait)), Take(v));
            !AtMostOneInside(end) <==> s.now + wait >= s.workers[w].since + LOCK_TTL_SECONDS
  {
    var end := Apply(Apply(s, Pass(wait)), Take(v));
    if s.now + wait >= s.workers[w].since + LOCK_TTL_SECONDS {
      assert Inside(end, w) && Inside(end, v);
    } else {
      assert end.workers == s.workers;
    }
  }

  lemma Extend(steps: seq<Step>, step: Step)
    requires Run(steps, |steps|) && Enabled(After(steps, |steps|), step)
    ensures Run(steps + [step], |steps| + 1)
    ensures After(steps + [step], |steps| + 1) == Apply(After(steps, |steps|), step)
  {
    SamePrefix(steps, [step], |steps|);
  }

  lemma {:induction false} SamePrefix(steps: seq<Step>, more: seq<Step>, k: nat)
    requires k <= |steps|
    ensures After(steps + more, k) == After(steps, k)
    ensures Run(steps + more, k) == Run(steps, k)
  {
    if k > 0 {
      SamePrefix(steps, more, k - 1);
    }
  }

  /** How a worker leaves a tick decides when the next one gets in: after its delete
      at once, after a failed delete or a crash when the TTL is over and not
      before. */
  lemma NextEntersIff(steps: seq<Step>, w: nat, v: nat, leave: Step, wait: real)
    requires Run(steps, |steps|) && TimelyThroughout(steps, |steps|) && wait >= 0.0 && v != w
    requires Inside(After(steps, |steps|), w) && PhaseOf(After(steps, |steps|), v).Idle?
    requires leave == Release(w) || leave == ReleaseRaises(w) || leave == Crash(w)
    ensures var s := After(steps, |steps|);
            var longer := steps + [leave] + [Pass(wait)] + [Take(v)];
            && Run(longer, |longer|)
            && !Inside(After(longer, |longer|), w)
            && (Inside(After(longer, |longer|), v) <==>
                  leave.Release? || s.now + wait >= s.workers[w].since + 300.0)
  {
    InvariantHolds(steps, |steps|);
    Extend(steps, leave);
    Extend(steps + [leave], Pass(wait));
    Extend(steps + [leave] + [Pass(wait)], Take(v));
    hide After, Run, TimelyThroughout;
  }

  /** After an overrun the late delete removes the second worker's key, and a
      third worker joins while the second is still inside. */
  lemma OverrunLetsInAThird()
    ensures var steps := [Start(0), Start(1), Start(2), Take(0), Pass(300.0), Take(1), Release(0), Take(2)];
            && Run(steps, 8) && TimelyThroughout(steps, 4) && !Timely(After(steps, 5))
            && After(steps, 6).lock.owner == 1
            && Inside(After(steps, 8), 1) && Inside(After(steps, 8), 2)
  {
  }

  // ---------- nobody is locked out for long ----------

  lemma ClockStep(s: State, step: Step)
    requires Enabled(s, step)
    ensures s.now <= Apply(s, step).now
    ensures (s.lock.Taken? ==> s.lock.since <= s.now) ==>
              var t := Apply(s, step); t.lock.Taken? ==> t.lock.since <= t.now
  {
  }

  lemma {:induction false} LockIsNotFromTheFuture(steps: seq<Step>, k: nat)
    requires k <= |steps| && Run(steps, k)
    ensures var s := After(steps, k); s.lock.Taken? ==> s.lock.since <= s.now
  {
    if k > 0 {
      LockIsNotFromTheFuture(steps, k - 1);
      ClockStep(After(steps, k - 1), steps[k - 1]);
    }
  }

  /** What a dead worker may have left behind: a key no younger than its death. */
  predicate LeftBehind(s: State, w: nat, died: real) {
    && PhaseOf(s, w).Dead?
    && (s.lock.Taken? && s.lock.owner == w ==> s.lock.since <= died)
  }

  lemma StaysLeftBehind(s: State, step: Step, w: nat, died: real)
    requires Enabled(s, step) && step != Start(w) && LeftBehind(s, w, died)
    ensures LeftBehind(Apply(s, step), w, died)
  {
  }

  lemma {:induction false} DeadWorkersKey(steps: seq<Step>, j: nat, k: nat, w: nat, died: real)
    requires j <= k <= |steps| && Run(steps, k) && LeftBehind(After(steps, j), w, died)
    requires forall i :: j <= i < k ==> steps[i] != Start(w)
    ensures LeftBehind(After(steps, k), w, died)
  {
    if j < k {
      DeadWorkersKey(steps, j, k - 1, w, died);
      StaysLeftBehind(After(steps, k - 1), steps[k - 1], w, died);
    }
  }

  /** A worker that dies leaves its key behind for less than a TTL, timely
      ticks or not: unless it starts again, no live key is its own after that. */
  lemma CrashedLockExpires(steps: seq<Step>, c: nat, k: nat, w: nat)
    requires c < k <= |steps| && Run(steps, k) && steps[c] == Crash(w)
    requires forall j :: c < j < k ==> steps[j] != Start(w)
    ensures var s := After(steps, k);
            s.now >= After(steps, c).now + 300.0 ==> !(Live(s.lock, s.now) && s.lock.owner == w)
  {
    RunPrefix(steps, c, k);
    LockIsNotFromTheFuture(steps, c);
    LeavesBehind(After(steps, c), w);
    assert After(steps, c + 1) == Apply(After(steps, c), Crash(w));
    DeadWorkersKey(steps, c + 1, k, w, After(steps, c).now);
  }

  lemma {:induction false} RunPrefix(steps: seq<Step>, j: nat, k: nat)
    requires j <= k <= |steps| && Run(steps, k)
    ensures Run(steps, j)
  {
    if j < k {
      RunPrefix(steps, j, k - 1);
    }
  }

  lemma LeavesBehind(s: State, w: nat)
    requires s.lock.Taken? ==> s.lock.since <= s.now
    ensures LeftBehind(Apply(s, Crash(w)), w, s.now)
  {
  }

  /** From every state of every run, once the key has been left alone for a TTL
      the next worker to ask gets in. */
  lemma NoLockOutlivesTheTtl(steps: seq<Step>, v: nat, wait: real)
    requires Run(steps, |steps|) && wait >= 300.0 && PhaseOf(After(steps, |steps|), v).Idle?
    ensures var s := Apply(After(steps, |steps|), Pass(wait));
            Inside(Apply(s, Take(v)), v) && Apply(s, Take(v)).lock == Taken(v, s.now)
  {
    LockIsNotFromTheFuture(steps, |steps|);
  }
}
