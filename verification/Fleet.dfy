/** Any number of workers, each running the loop of `Worker`, against one Redis
    key: whatever way their acts on the key interleave, with processes started and
    killed at any point, is a run of the lock's protocol.  So what `TickLock`
    proves of runs holds of the loops. */
module Fleet {
  import opened Options
  import TickLock
  import Worker

  /** One thing that happens. */
  datatype Event =
    | Began(w: nat)                       // a new process
    | Did(w: nat, act: Worker.KeyAct)     // the process's next act on the key
    | Killed(w: nat)
    | Passed(seconds: real)

  // ---------- one worker ----------

  /** What a process has done so far is the beginning of some run of the loop. */
  ghost predicate IsLoopPrefix(acts: seq<Worker.KeyAct>) {
    exists conditions :: acts <= Worker.Acts(conditions)
  }

  datatype Place = Outside | Within | Gone

  /** Where acts leave the process that did them; nothing when no loop does them. */
  function PlaceAfter(acts: seq<Worker.KeyAct>): Option<Place> {
    if acts == [] then Some(Outside)
    else
      match (PlaceAfter(acts[..|acts| - 1]), acts[|acts| - 1])
      case (Some(Outside), Set(acquired)) => Some(if acquired then Within else Outside)
      case (Some(Outside), SetRaised) => Some(Gone)
      case (Some(Within), Deleted(_)) => Some(Outside)
      case _ => None
  }

  lemma PlaceStep(acts: seq<Worker.KeyAct>, act: Worker.KeyAct)
    ensures PlaceAfter(acts + [act]) ==
            match (PlaceAfter(acts), act)
            case (Some(Outside), Set(acquired)) => Some(if acquired then Within else Outside)
            case (Some(Outside), SetRaised) => Some(Gone)
            case (Some(Within), Deleted(_)) => Some(Outside)
            case _ => None
  {
    assert (acts + [act])[..|acts|] == acts;
  }

  lemma IterationPlace(before: seq<Worker.KeyAct>, c: Worker.Conditions)
    requires PlaceAfter(before) == Some(Outside)
    ensures PlaceAfter(before + Worker.ActsOf(c)) == Some(if c.askRaises then Gone else Outside)
  {
    hide PlaceAfter;
    if c.askRaises {
      PlaceStep(before, Worker.SetRaised);
    } else if Worker.Acquired(c) {
      PlaceStep(before, Worker.Set(true));
      PlaceStep(before + [Worker.Set(true)], Worker.Deleted(c.deleteRaises));
      assert before + Worker.ActsOf(c) == before + [Worker.Set(true)] + [Worker.Deleted(c.deleteRaises)];
    } else {
      PlaceStep(before, Worker.Set(false));
    }
  }

  /** The loop is between two ticks after every iteration, and gone after a
      question that raised. */
  lemma {:induction false} LoopPlaces(conditions: seq<Worker.Conditions>, n: nat)
    requires n <= |conditions| && forall k :: 0 <= k < n - 1 ==> !conditions[k].askRaises
    ensures PlaceAfter(Worker.ActsAfter(conditions, n)) ==
              Some(if n > 0 && conditions[n - 1].askRaises then Gone else Outside)
  {
    if n > 0 {
      LoopPlaces(conditions, n - 1);
      hide PlaceAfter, Worker.ActsOf;
      IterationPlace(Worker.ActsAfter(conditions, n - 1), conditions[n - 1]);
    }
  }

  lemma {:induction false} PrefixHasPlace(acts: seq<Worker.KeyAct>, n: nat)
    requires n <= |acts| && PlaceAfter(acts).Some?
    ensures PlaceAfter(acts[..n]).Some?
    decreases |acts|
  {
    if n == |acts| {
      assert acts[..n] == acts;
    } else {
      PrefixHasPlace(acts[..|acts| - 1], n);
      assert acts[..|acts| - 1][..n] == acts[..n];
    }
  }

  /** What a loop can have done always leaves it somewhere. */
  lemma LoopPrefixHasPlace(acts: seq<Worker.KeyAct>)
    requires IsLoopPrefix(acts)
    ensures PlaceAfter(acts).Some?
  {
    var conditions :| acts <= Worker.Acts(conditions);
    var all := Worker.Acts(conditions);
    var n := Worker.Iterations(conditions);
    LoopPlaces(conditions, if n < |conditions| then n + 1 else n);
    PrefixHasPlace(all, |acts|);
    assert all[..|acts|] == acts;
  }

  /** Conditions under which an iteration does the act, or one with it first. */
  function ConditionsFor(raises: bool, acquires: bool, deleteRaises: bool): Worker.Conditions {
    var found := if acquires then TickLock.Free else TickLock.Taken(0, 0.0);
    Worker.Conditions(raises, found, 0.0, 0.0, false, false, false, {}, map[], TickLock.Free, deleteRaises)
  }

  lemma {:induction false} SameActs(conditions: seq<Worker.Conditions>, more: seq<Worker.Conditions>, n: nat)
    requires n <= |conditions|
    ensures Worker.ActsAfter(conditions + more, n) == Worker.ActsAfter(conditions, n)
  {
    if n > 0 {
      SameActs(conditions, more, n - 1);
    }
  }

  lemma ActsFor(raises: bool, acquires: bool, deleteRaises: bool)
    ensures Worker.ActsOf(ConditionsFor(raises, acquires, deleteRaises)) ==
            if raises then [Worker.SetRaised]
            else if acquires then [Worker.Set(true), Worker.Deleted(deleteRaises)]
            else [Worker.Set(false)]
  {
  }

  lemma IterationsOfLonger(conditions: seq<Worker.Conditions>, c: Worker.Conditions)
    requires Worker.Iterations(conditions) == |conditions|
    ensures Worker.Iterations(conditions + [c]) == if c.askRaises then |conditions| else |conditions| + 1
  {
    hide Worker.Iterations;
    var longer := conditions + [c];
    assert forall k :: 0 <= k < |conditions| ==> longer[k] == conditions[k];
    assert longer[|conditions|] == c;
  }

  lemma UnfoldActs(conditions: seq<Worker.Conditions>, n: nat)
    requires 0 < n <= |conditions|
    ensures Worker.ActsAfter(conditions, n) == Worker.ActsAfter(conditions, n - 1) + Worker.ActsOf(conditions[n - 1])
  {
  }

  lemma OneMoreIteration(conditions: seq<Worker.Conditions>, c: Worker.Conditions)
    requires Worker.Iterations(conditions) == |conditions|
    ensures Worker.Acts(conditions + [c]) == Worker.Acts(conditions) + Worker.ActsOf(c)
    ensures !c.askRaises ==> Worker.Iterations(conditions + [c]) == |conditions| + 1
  {
    hide Worker.Iterations, Worker.ActsAfter, Worker.ActsOf;
    var longer, n := conditions + [c], |conditions|;
    SameActs(conditions, [c], n);
    IterationsOfLonger(conditions, c);
    UnfoldActs(longer, n + 1);
    assert Worker.Acts(longer) == Worker.ActsAfter(longer, n + 1);
  }

  lemma TookTheLock(acts: seq<Worker.KeyAct>)
    requires PlaceAfter(acts) == Some(Within)
    ensures var n := |acts| - 1; n >= 0 && acts[n] == Worker.Set(true) && PlaceAfter(acts[..n]) == Some(Outside)
  {
  }

  lemma LastAct(acts: seq<Worker.KeyAct>)
    requires acts != [] && PlaceAfter(acts) == Some(Outside)
    ensures var n := |acts| - 1;
            if acts[n].Deleted? then
              n > 0 && PlaceAfter(acts[..n - 1]) == Some(Outside) && acts == acts[..n - 1] + [Worker.Set(true), acts[n]]
            else
              PlaceAfter(acts[..n]) == Some(Outside) && acts == acts[..n] + [Worker.Set(false)]
  {
    hide PlaceAfter;
    var n := |acts| - 1;
    assert acts == acts[..n] + [acts[n]];
    PlaceStep(acts[..n], acts[n]);
    if acts[n].Deleted? {
      TookTheLock(acts[..n]);
      LastTwo(acts);
    }
  }

  lemma LastTwo(acts: seq<Worker.KeyAct>)
    ensures var n := |acts| - 1;
            n > 0 ==>
              && acts == acts[..n - 1] + [acts[n - 1], acts[n]]
              && acts[..n][n - 1] == acts[n - 1]
              && acts[..n][..n - 1] == acts[..n - 1]
  {
  }

  /** Acts that end outside a tick are those of a whole run. */
  lemma {:induction false} LoopOf(acts: seq<Worker.KeyAct>) returns (conditions: seq<Worker.Conditions>)
    requires PlaceAfter(acts) == Some(Outside)
    ensures Worker.Iterations(conditions) == |conditions| && Worker.Acts(conditions) == acts
    decreases |acts|
  {
    if acts == [] {
      conditions := [];
    } else {
      hide Worker.Iterations, Worker.Acts, Worker.ActsOf, PlaceAfter;
      LastAct(acts);
      var n := |acts| - 1;
      if acts[n].Deleted? {
        conditions := LoopOf(acts[..n - 1]);
        ActsFor(false, true, acts[n].raised);
        OneMoreIteration(conditions, ConditionsFor(false, true, acts[n].raised));
        conditions := conditions + [ConditionsFor(false, true, acts[n].raised)];
      } else {
        conditions := LoopOf(acts[..n]);
        ActsFor(false, false, false);
        OneMoreIteration(conditions, ConditionsFor(false, false, false));
        conditions := conditions + [ConditionsFor(false, false, false)];
      }
    }
  }

  /** The acts that leave a process somewhere are exactly those a loop can have
      done. */
  lemma LoopPrefixIff(acts: seq<Worker.KeyAct>)
    ensures IsLoopPrefix(acts) <==> PlaceAfter(acts).Some?
  {
    hide Worker.Iterations, Worker.Acts, Worker.ActsOf;
    if IsLoopPrefix(acts) {
      LoopPrefixHasPlace(acts);
    }
    if PlaceAfter(acts) == Some(Outside) {
      var conditions := LoopOf(acts);
      assert acts <= Worker.Acts(conditions);
    } else if PlaceAfter(acts).Some? {
      var n := |acts| - 1;
      var raises := acts[n].SetRaised?;
      var conditions := LoopOf(acts[..n]);
      ActsFor(raises, true, false);
      OneMoreIteration(conditions, ConditionsFor(raises, true, false));
      assert acts == acts[..n] + [acts[n]];
      assert acts <= Worker.Acts(conditions + [ConditionsFor(raises, true, false)]);
    }
  }

  // ---------- all of them ----------

  /** The acts of the process that now runs as worker `w`, if one does. */
  function Own(events: seq<Event>, k: nat, w: nat): Option<seq<Worker.KeyAct>>
    requires k <= |events|
  {
    if k == 0 then None
    else
      var before := Own(events, k - 1, w);
      match events[k - 1]
      case Began(v) => if v == w then Some([]) else before
      case Killed(v) => if v == w then None else before
      case Passed(_) => before
      case Did(v, act) =>
        if v != w then before
        else if before.None? || act.SetRaised? then None
        else Some(before.value + [act])
  }

  function StepOf(e: Event): TickLock.Step {
    match e
    case Began(w) => TickLock.Start(w)
    case Killed(w) => TickLock.Crash(w)
    case Passed(seconds) => TickLock.Pass(seconds)
    case Did(w, Set(_)) => TickLock.Take(w)
    case Did(w, SetRaised) => TickLock.TakeRaises(w)
    case Did(w, Deleted(raised)) => if raised then TickLock.ReleaseRaises(w) else TickLock.Release(w)
  }

  function Steps(events: seq<Event>): (steps: seq<TickLock.Step>)
    ensures |steps| == |events| && forall i :: 0 <= i < |events| ==> steps[i] == StepOf(events[i])
  {
    seq(|events|, i requires 0 <= i < |events| => StepOf(events[i]))
  }

  function LockAfter(events: seq<Event>, k: nat): TickLock.State
    requires k <= |events|
  {
    TickLock.After(Steps(events), k)
  }

  /** The next event can happen: only a stopped worker begins and only a running
      one is killed, a worker goes on with its loop, and Redis answers truly. */
  ghost predicate CanHappen(events: seq<Event>, k: nat)
    requires k < |events|
  {
    match events[k]
    case Began(w) => Own(events, k, w).None?
    case Killed(w) => Own(events, k, w).Some?
    case Passed(seconds) => seconds >= 0.0
    case Did(w, act) =>
      && Own(events, k, w).Some?
      && IsLoopPrefix(Own(events, k, w).value + [act])
      && (act.Set? ==> (act.acquired <==> !TickLock.Live(LockAfter(events, k).lock, LockAfter(events, k).now)))
  }

  ghost predicate Interleaving(events: seq<Event>, k: nat)
    requires k <= |events|
  {
    k == 0 || (Interleaving(events, k - 1) && CanHappen(events, k - 1))
  }

  /** The protocol has a worker where its loop is. */
  ghost predicate Agrees(phase: TickLock.Phase, own: Option<seq<Worker.KeyAct>>) {
    match own
    case None => phase.Dead?
    case Some(acts) =>
      match PlaceAfter(acts)
      case Some(Outside) => phase.Idle?
      case Some(Within) => phase.Ticking?
      case _ => false
  }

  lemma StepAgrees(events: seq<Event>, k: nat, w: nat)
    requires k < |events| && CanHappen(events, k)
    requires forall v :: Agrees(TickLock.PhaseOf(LockAfter(events, k), v), Own(events, k, v))
    ensures TickLock.Enabled(LockAfter(events, k), Steps(events)[k])
    ensures Agrees(TickLock.PhaseOf(LockAfter(events, k + 1), w), Own(events, k + 1, w))
  {
    var s, e := LockAfter(events, k), events[k];
    assert LockAfter(events, k + 1) == TickLock.Apply(s, StepOf(e));
    assert Agrees(TickLock.PhaseOf(s, w), Own(events, k, w));
    match e
    case Began(v) => assert Agrees(TickLock.PhaseOf(s, v), Own(events, k, v));
    case Killed(v) => assert Agrees(TickLock.PhaseOf(s, v), Own(events, k, v));
    case Passed(_) =>
    case Did(v, act) =>
      assert Agrees(TickLock.PhaseOf(s, v), Own(events, k, v));
      var acts := Own(events, k, v).value;
      LoopPrefixHasPlace(acts + [act]);
      PlaceStep(acts, act);
  }

  /** Every interleaving of loops is a run of the protocol, with every worker
      inside a tick there exactly when it is inside one of its own. */
  lemma {:induction false} InterleavingIsRun(events: seq<Event>, k: nat)
    requires k <= |events| && Interleaving(events, k)
    ensures TickLock.Run(Steps(events), k)
    ensures forall w :: Agrees(TickLock.PhaseOf(LockAfter(events, k), w), Own(events, k, w))
  {
    if k > 0 {
      InterleavingIsRun(events, k - 1);
      forall w ensures Agrees(TickLock.PhaseOf(LockAfter(events, k), w), Own(events, k, w)) {
        StepAgrees(events, k - 1, w);
      }
      StepAgrees(events, k - 1, 0);
    }
  }

  /** The worker's loop took the lock and has not come to its delete. */
  predicate InsideTick(events: seq<Event>, w: nat) {
    var own := Own(events, |events|, w);
    own.Some? && PlaceAfter(own.value) == Some(Within)
  }

  /** While ticks end within the TTL, no two loops are inside a tick. */
  lemma OneLoopTicks(events: seq<Event>, v: nat, w: nat)
    requires Interleaving(events, |events|) && TickLock.TimelyThroughout(Steps(events), |events|)
    requires InsideTick(events, v) && InsideTick(events, w)
    ensures v == w
  {
    InterleavingIsRun(events, |events|);
    TickLock.MutualExclusion(Steps(events));
    assert Agrees(TickLock.PhaseOf(LockAfter(events, |events|), v), Own(events, |events|, v));
    assert Agrees(TickLock.PhaseOf(LockAfter(events, |events|), w), Own(events, |events|, w));
    assert TickLock.Inside(LockAfter(events, |events|), v) && TickLock.Inside(LockAfter(events, |events|), w);
  }
}
