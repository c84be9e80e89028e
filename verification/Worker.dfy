/** The background worker, `src/geekvpn/entrypoints/worker.py`: the loop with its
    three counters, the guarded tick and the table of periodic jobs.

    Everything the process cannot decide for itself - the clocks, what the other
    processes did to the lock, which jobs raise and how long they take - is in
    `Conditions`, one for each iteration of the loop; a stop request ends the
    sequence. */
module Worker {
  import opened Options
  import Countdown
  import DivMod
  import TickLock

  const TICK_SECONDS := 30
  const PROVISIONING_INTERVAL_SECONDS := 45
  const USAGE_SYNC_INTERVAL_SECONDS := 600
  const EXPIRY_SWEEP_INTERVAL_SECONDS := 300

  datatype Job = Job(name: string, interval: real)

  const PERIODIC: seq<Job> := [
    Job("auto_renew", 900.0),
    Job("backup", 600.0),
    Job("cleanup", 3600.0),
    Job("newcomer_gift", 3600.0),
    Job("trial_followup", 3600.0),
    Job("gateway_verify", 30.0),
    Job("daily_report", 600.0),
    Job("release_notice", 3600.0)
  ]

  type Stamps = map<string, real>

  /** `_next_run.get(name, 0.0)` */
  function Stamp(stamps: Stamps, name: string): real {
    if name in stamps then stamps[name] else 0.0
  }

  // ---------- one pass over the table ----------

  predicate DistinctNames(jobs: seq<Job>) {
    forall i, j :: 0 <= i < j < |jobs| ==> jobs[i].name != jobs[j].name
  }

  predicate IsDue(job: Job, stamps: Stamps, now: real) {
    Stamp(stamps, job.name) <= now
  }

  type Seconds = r: real | 0.0 <= r

  /** How long each job takes when it is run. */
  type Durations = map<string, Seconds>

  function Took(durations: Durations, name: string): Seconds {
    if name in durations then durations[name] else 0.0
  }

  /** A job's start, by the clock. */
  datatype Start = Start(name: string, at: real)

  /** How long the due jobs of the table take, one after another. */
  function Elapsed(jobs: seq<Job>, stamps: Stamps, now: real, durations: Durations): Seconds {
    if jobs == [] then 0.0
    else
      var last := jobs[|jobs| - 1];
      Elapsed(jobs[..|jobs| - 1], stamps, now, durations) + if IsDue(last, stamps, now) then Took(durations, last.name)
          else 0.0
  }

  /** The jobs whose stamp has passed, in table order, each when those before it
      are done. */
  function Starts(jobs: seq<Job>, stamps: Stamps, now: real, durations: Durations): seq<Start> {
    if jobs == [] then []
    else
      var last, init := jobs[|jobs| - 1], jobs[..|jobs| - 1];
      Starts(init, stamps, now, durations)
      + if IsDue(last, stamps, now) then [Start(last.name, now + Elapsed(init, stamps, now, durations))] else []
  }

  /** The stamps with every due job's moved on by its interval. */
  function Restamped(jobs: seq<Job>, stamps: Stamps, now: real): Stamps {
    if jobs == [] then stamps
    else
      var last := jobs[|jobs| - 1];
      var before := Restamped(jobs[..|jobs| - 1], stamps, now);
      if IsDue(last, stamps, now) then before[last.name := now + last.interval] else before
  }

  lemma {:induction false} DueJobsAreDue(jobs: seq<Job>, stamps: Stamps, now: real, durations: Durations, j: nat,
          at: real)
    requires DistinctNames(jobs) && j < |jobs|
    ensures Start(jobs[j].name, at) in Starts(jobs, stamps, now, durations) <==>
            Stamp(stamps, jobs[j].name) <= now && at == now + Elapsed(jobs[..j], stamps, now, durations)
    ensures Stamp(Restamped(jobs, stamps, now), jobs[j].name) ==
            if Stamp(stamps, jobs[j].name) <= now then now + jobs[j].interval else Stamp(stamps, jobs[j].name)
  {
    var init := jobs[..|jobs| - 1];
    var last, start := jobs[|jobs| - 1], Start(jobs[j].name, at);
    var before, stamped := Starts(init, stamps, now, durations), Restamped(init, stamps, now);
    var next := Start(last.name, now + Elapsed(init, stamps, now, durations));
    assert start in Starts(jobs, stamps, now, durations) <==>
        start in before || (IsDue(last, stamps, now) && start == next);
    assert Restamped(jobs, stamps, now) ==
        if IsDue(last, stamps, now) then stamped[last.name := now + last.interval] else stamped;
    assert j < |init| ==> jobs[j].name != last.name && DistinctNames(init);
    hide Starts, Elapsed, Restamped, DistinctNames;
    if j < |init| {
      DueJobsAreDue(init, stamps, now, durations, j, at);
      assert init[..j] == jobs[..j];
    } else {
      OthersUntouched(init, stamps, now, durations, jobs[j].name, at);
    }
  }

  lemma {:induction false} OthersUntouched(jobs: seq<Job>, stamps: Stamps, now: real, durations: Durations,
          name: string, at: real)
    requires forall job <- jobs :: job.name != name
    ensures Start(name, at) !in Starts(jobs, stamps, now, durations)
    ensures Stamp(Restamped(jobs, stamps, now), name) == Stamp(stamps, name)
  {
    if jobs != [] {
      OthersUntouched(jobs[..|jobs| - 1], stamps, now, durations, name, at);
    }
  }

  /** What a pass starts is done one after another: the first at once, each of the
      others as long after the one before it as that one takes. */
  predicate OneAfterAnother(starts: seq<Start>, now: real, durations: Durations) {
    && (starts != [] ==> starts[0].at == now)
    && forall a :: 0 < a < |starts| ==>
         starts[a].at == starts[a - 1].at +
             if starts[a - 1].name in durations then durations[starts[a - 1].name] else 0.0
  }

  /** And in the order of the table: whatever of two jobs comes first there. */
  predicate InTableOrder(starts: seq<Start>, jobs: seq<Job>, i: nat, j: nat)
    requires i < |jobs| && j < |jobs|
  {
    forall a, b :: 0 <= a < |starts| && 0 <= b < |starts| ==>
      starts[a].name == jobs[i].name && starts[b].name == jobs[j].name ==> a < b
  }

  lemma {:induction false} StartsInOrder(jobs: seq<Job>, stamps: Stamps, now: real, durations: Durations, i: nat,
          j: nat)
    requires DistinctNames(jobs) && i < j < |jobs|
    ensures InTableOrder(Starts(jobs, stamps, now, durations), jobs, i, j)
  {
    var n := |jobs| - 1;
    var before := Starts(jobs[..n], stamps, now, durations);
    forall a | 0 <= a < |before| ensures before[a].name != jobs[n].name {
      OthersUntouched(jobs[..n], stamps, now, durations, jobs[n].name, before[a].at);
    }
    if j < n {
      StartsInOrder(jobs[..n], stamps, now, durations, i, j);
    }
  }

  /** When the last of them is done. */
  function EndOf(starts: seq<Start>, now: real, durations: Durations): real {
    if starts == [] then now else starts[|starts| - 1].at + Took(durations, starts[|starts| - 1].name)
  }

  lemma {:induction false} StartsInTurn(jobs: seq<Job>, stamps: Stamps, now: real, durations: Durations)
    ensures OneAfterAnother(Starts(jobs, stamps, now, durations), now, durations)
    ensures now + Elapsed(jobs, stamps, now, durations) == EndOf(Starts(jobs, stamps, now, durations), now, durations)
  {
    if jobs != [] {
      var last, init := jobs[|jobs| - 1], jobs[..|jobs| - 1];
      OneMoreJob(init, last, stamps, now, durations);
      assert jobs == init + [last];
      hide Starts, Elapsed, OneAfterAnother, EndOf, Took, IsDue;
      StartsInTurn(init, stamps, now, durations);
      var next := Start(last.name, now + Elapsed(init, stamps, now, durations));
      OneMoreStart(Starts(init, stamps, now, durations), next, now, durations);
    }
  }

  lemma OneMoreJob(init: seq<Job>, last: Job, stamps: Stamps, now: real, durations: Durations)
    ensures var spent := Elapsed(init, stamps, now, durations);
            && Starts(init + [last], stamps, now, durations) == Starts(init, stamps, now, durations) +
               (if IsDue(last, stamps, now) then [Start(last.name, now + spent)] else [])
            && Elapsed(init + [last], stamps, now, durations) ==
               spent + if IsDue(last, stamps, now) then Took(durations, last.name) else 0.0
  {
    assert (init + [last])[..|init|] == init;
  }

  lemma OneMoreStart(before: seq<Start>, next: Start, now: real, durations: Durations)
    requires OneAfterAnother(before, now, durations) && next.at == EndOf(before, now, durations)
    ensures OneAfterAnother(before + [next], now, durations)
    ensures EndOf(before + [next], now, durations) == next.at + Took(durations, next.name)
  {
  }

  // ---------- one iteration of the loop ----------

  datatype Flags = Flags(provisioning: bool, usageSync: bool, expirySweep: bool)

  /** What one iteration meets. */
  datatype Conditions = Conditions(
    askRaises: bool,             // Redis unreachable: `set nx` raises
    found: TickLock.Lock,        // the key as the other processes left it
    asked: real,                 // when `set nx` reaches Redis
    clock: real,                 // the monotonic clock when the table is read
    provisioningRaises: bool,
    usageSyncRaises: bool,
    expirySweepRaises: bool,
    failing: set<string>,        // the periodic jobs that raise
    durations: Durations,        // how long they take
    held: TickLock.Lock,         // the key when the delete reaches Redis
    deleteRaises: bool)

  /** What one iteration did: which of the three sweeps it started, the periodic
      jobs it started if it got that far, and whether the scheduler ran. */
  datatype Tick = Skipped | Ticked(ran: Flags, periodic: Option<seq<Start>>, scheduled: bool)

  /** What a worker does to the key, and how it went. */
  datatype KeyAct = Set(acquired: bool) | SetRaised | Deleted(raised: bool)

  predicate Acquired(c: Conditions) {
    !TickLock.Live(c.found, c.asked)
  }

  /** Whether the three sweeps before the table all come through: a sweep that
      raises takes the rest of the tick with it. */
  predicate SweepsPass(flags: Flags, c: Conditions) {
    && !(flags.provisioning && c.provisioningRaises)
    && !(flags.usageSync && c.usageSyncRaises)
    && !(flags.expirySweep && c.expirySweepRaises)
  }

  predicate ReachesTable(flags: Flags, c: Conditions) {
    Acquired(c) && SweepsPass(flags, c)
  }

  function TickOf(jobs: seq<Job>, flags: Flags, c: Conditions, stamps: Stamps): Tick {
    if !Acquired(c) then Skipped
    else
      var usage := flags.usageSync && !(flags.provisioning && c.provisioningRaises);
      var expiry := flags.expirySweep && !(flags.provisioning && c.provisioningRaises) && !(usage && c.usageSyncRaises);
      Ticked(Flags(flags.provisioning, usage, expiry),
             if SweepsPass(flags, c) then Some(Starts(jobs, stamps, c.clock, c.durations)) else None,
             SweepsPass(flags, c))
  }

  function StampsOf(jobs: seq<Job>, flags: Flags, c: Conditions, stamps: Stamps): Stamps {
    if ReachesTable(flags, c) then Restamped(jobs, stamps, c.clock) else stamps
  }

  function ActsOf(c: Conditions): seq<KeyAct> {
    if c.askRaises then [SetRaised]
    else if Acquired(c) then [Set(true), Deleted(c.deleteRaises)]
    else [Set(false)]
  }

  /** The Redis key, as `set nx ex` and `delete` treat it. */
  class Redis {
    var key: TickLock.Lock

    constructor ()
      ensures key == TickLock.Free
    {
      key := TickLock.Free;
    }

    method SetNx(owner: nat, now: real) returns (acquired: bool)
      modifies this
      ensures acquired <==> !TickLock.Live(old(key), now)
      ensures key == if acquired then TickLock.Taken(owner, now) else old(key)
    {
      acquired := !TickLock.Live(key, now);
      if acquired {
        key := TickLock.Taken(owner, now);
      }
    }

    method Delete(raises: bool)
      modifies this
      ensures key == if raises then old(key) else TickLock.Free
    {
      if !raises {
        key := TickLock.Free;
      }
    }
  }

  class Worker {
    const id: nat
    const redis: Redis
    const periodic: seq<Job>
    var nextRun: Stamps
    var log: seq<Tick>
    var acts: seq<KeyAct>

    constructor (id: nat, redis: Redis, startedAt: real)
      ensures this.id == id && this.redis == redis && log == [] && acts == []
      ensures periodic == PERIODIC
      ensures DistinctNames(periodic) && forall j :: 0 <= j < |periodic| ==> periodic[j].interval >= 0.0
      ensures nextRun == map["auto_renew" := startedAt + 600.0]
    {
      this.id := id;
      this.redis := redis;
      periodic := PERIODIC;
      nextRun := map["auto_renew" := startedAt + USAGE_SYNC_INTERVAL_SECONDS as real];
      log, acts := [], [];
      PeriodicIsDistinct();
    }

    /** A job of the table; what it does is its own business. */
    method RunJob(name: string, c: Conditions) returns (raised: bool, took: Seconds)
      ensures raised <==> name in c.failing
      ensures took == Took(c.durations, name)
    {
      raised, took := name in c.failing, Took(c.durations, name);
    }

    /** Every due job once, in table order, whichever of them raise.  The clock is
        read once: what a job is stamped with does not depend on how long those
        before it took, but when it starts does. */
    method RunPeriodic(c: Conditions) returns (started: seq<Start>)
      requires DistinctNames(periodic)
      modifies this`nextRun
      ensures started == Starts(periodic, old(nextRun), c.clock, c.durations)
      ensures nextRun == Restamped(periodic, old(nextRun), c.clock)
      ensures OneAfterAnother(started, c.clock, c.durations)
      ensures forall i, j :: 0 <= i < j < |periodic| ==> InTableOrder(started, periodic, i, j)
    {
      hide OneAfterAnother, InTableOrder;
      var now := c.clock;
      var at := now;
      started := [];
      for i := 0 to |periodic|
        invariant at == now + Elapsed(periodic[..i], old(nextRun), now, c.durations)
        invariant started == Starts(periodic[..i], old(nextRun), now, c.durations)
        invariant nextRun == Restamped(periodic[..i], old(nextRun), now)
      {
        var job := periodic[i];
        assert periodic[..i + 1][..i] == periodic[..i];
        OthersUntouched(periodic[..i], old(nextRun), now, c.durations, job.name, at);
        if Stamp(nextRun, job.name) > now {
          continue;
        }
        nextRun := nextRun[job.name := now + job.interval];
        started := started + [Start(job.name, at)];
        var _, took := RunJob(job.name, c);
        at := at + took;
      }
      assert periodic[..|periodic|] == periodic;
      StartsInTurn(periodic, old(nextRun), now, c.durations);
      forall i, j | 0 <= i < j < |periodic| ensures InTableOrder(started, periodic, i, j) {
        StartsInOrder(periodic, old(nextRun), now, c.durations, i, j);
      }
    }

    /** Takes the lock, ticks, and deletes the key whatever happened between, to
        the tick or to the key: on the key, the steps of the lock's protocol. */
    method GuardedTick(flags: Flags, c: Conditions) returns (raised: bool, tick: Tick)
      requires DistinctNames(periodic) && redis.key == c.found
      modifies this`nextRun, this`acts, redis
      ensures raised == c.askRaises && acts == old(acts) + ActsOf(c)
      ensures raised ==> acts == old(acts) + [SetRaised]
      ensures !raised && !tick.Ticked? ==> acts == old(acts) + [Set(false)]
      ensures !raised && tick.Ticked? ==> acts == old(acts) + [Set(true), Deleted(c.deleteRaises)]
      ensures raised ==> nextRun == old(nextRun) && redis.key == c.found
      ensures !raised ==> tick == TickOf(periodic, flags, c, old(nextRun))
      ensures !raised ==> nextRun == StampsOf(periodic, flags, c, old(nextRun))
      ensures !raised && tick.Ticked? ==>
                && (tick.scheduled <==> tick.periodic.Some?)
                && (tick.periodic.Some? <==>
                      && !(flags.provisioning && c.provisioningRaises)
                      && !(flags.usageSync && c.usageSyncRaises)
                      && !(flags.expirySweep && c.expirySweepRaises))
      ensures !Acquired(c) ==> redis.key == c.found
      ensures !raised && Acquired(c) ==>
                var inside := map[id := TickLock.Ticking(c.asked)];
                var leave := if c.deleteRaises then TickLock.ReleaseRaises(id) else TickLock.Release(id);
                redis.key == TickLock.Apply(TickLock.State(c.asked, c.held, inside), leave).lock
    {
      if c.askRaises {
        acts := acts + [SetRaised];
        return true, Skipped;
      }
      var acquired := redis.SetNx(id, c.asked);
      acts := acts + [Set(acquired)];
      if !acquired {
        return false, Skipped;
      }
      var usage, expiry, table, scheduled := false, false, None, false;
      var failed := false;
      if flags.provisioning {
        failed := c.provisioningRaises;
      }
      if !failed && flags.usageSync {
        usage := true;
        failed := c.usageSyncRaises;
      }
      if !failed && flags.expirySweep {
        expiry := true;
        failed := c.expirySweepRaises;
      }
      if !failed {
        var started := RunPeriodic(c);
        table := Some(started);
        scheduled := true;
      }
      redis.key := c.held;
      redis.Delete(c.deleteRaises);
      acts := acts + [Deleted(c.deleteRaises)];
      return false, Ticked(Flags(flags.provisioning, usage, expiry), table, scheduled);
    }

    /** The loop, until the stop request that ends `conditions` or an iteration
        that cannot ask for the lock, which ends the process. */
    method Run(conditions: seq<Conditions>) returns (raised: bool)
      requires DistinctNames(periodic)
      modifies this`nextRun, this`log, this`acts, redis
      ensures raised <==> Iterations(conditions) < |conditions|
      ensures log == old(log) + Ticks(periodic, old(nextRun), conditions, Iterations(conditions))
      ensures nextRun == StampsAfter(periodic, old(nextRun), conditions, Iterations(conditions))
      ensures acts == old(acts) + Acts(conditions)
    {
      hide Acquired, ActsOf, Asked, Iterations, StampsOf, TickOf, TickLock.Apply;
      var provisioningDue, usageDue, expiryDue := 0, 0, 0;
      for n := 0 to |conditions|
        invariant n <= Iterations(conditions)
        invariant provisioningDue == Countdown.Due(PROVISIONING_INTERVAL_SECONDS, TICK_SECONDS, n)
        invariant usageDue == Countdown.Due(USAGE_SYNC_INTERVAL_SECONDS, TICK_SECONDS, n)
        invariant expiryDue == Countdown.Due(EXPIRY_SWEEP_INTERVAL_SECONDS, TICK_SECONDS, n)
        invariant log == old(log) + Ticks(periodic, old(nextRun), conditions, n)
        invariant nextRun == StampsAfter(periodic, old(nextRun), conditions, n)
        invariant acts == old(acts) + ActsAfter(conditions, n)
      {
        redis.key := conditions[n].found;
        AskedIsDue(n);
        var ended, tick := GuardedTick(Flags(provisioningDue <= 0, usageDue <= 0, expiryDue <= 0), conditions[n]);
        if ended {
          return true;
        }
        provisioningDue := if provisioningDue <= 0 then PROVISIONING_INTERVAL_SECONDS
            else provisioningDue - TICK_SECONDS;
        usageDue := if usageDue <= 0 then USAGE_SYNC_INTERVAL_SECONDS else usageDue - TICK_SECONDS;
        expiryDue := if expiryDue <= 0 then EXPIRY_SWEEP_INTERVAL_SECONDS else expiryDue - TICK_SECONDS;
        log := log + [tick];
      }
      return false;
    }
  }

  // ---------- whole runs ----------

  /** What the `n`th iteration asks for: every 3rd, 21st and 11th. */
  function Asked(n: nat): Flags {
    Flags(n % 3 == 0, n % 21 == 0, n % 11 == 0)
  }

  /** The three counters of the loop come to exactly that, whether or not the
      ticks before got the lock or came through. */
  lemma AskedIsDue(n: nat)
    ensures Asked(n) == Flags(Countdown.Due(PROVISIONING_INTERVAL_SECONDS, TICK_SECONDS, n) <= 0,
                              Countdown.Due(USAGE_SYNC_INTERVAL_SECONDS, TICK_SECONDS, n) <= 0,
                              Countdown.Due(EXPIRY_SWEEP_INTERVAL_SECONDS, TICK_SECONDS, n) <= 0)
  {
    Countdown.FiresOnMultiples(PROVISIONING_INTERVAL_SECONDS, TICK_SECONDS, n);
    Countdown.FiresOnMultiples(USAGE_SYNC_INTERVAL_SECONDS, TICK_SECONDS, n);
    Countdown.FiresOnMultiples(EXPIRY_SWEEP_INTERVAL_SECONDS, TICK_SECONDS, n);
  }

  /** The iterations before the first that cannot ask for the lock. */
  function Iterations(conditions: seq<Conditions>): (n: nat)
    ensures n <= |conditions|
    ensures forall k :: 0 <= k < n ==> !conditions[k].askRaises
    ensures n < |conditions| ==> conditions[n].askRaises
  {
    if conditions == [] || conditions[0].askRaises then 0 else 1 + Iterations(conditions[1..])
  }

  /** What the first `n` iterations did to the key. */
  function ActsAfter(conditions: seq<Conditions>, n: nat): seq<KeyAct>
    requires n <= |conditions|
  {
    if n == 0 then [] else ActsAfter(conditions, n - 1) + ActsOf(conditions[n - 1])
  }

  /** And what the whole run did, up to the question that raised if one did. */
  function Acts(conditions: seq<Conditions>): seq<KeyAct> {
    var n := Iterations(conditions);
    ActsAfter(conditions, if n < |conditions| then n + 1 else n)
  }

  function StampsAfter(jobs: seq<Job>, stamps: Stamps, conditions: seq<Conditions>, n: nat): Stamps
    requires n <= |conditions|
  {
    if n == 0 then stamps
    else StampsOf(jobs, Asked(n - 1), conditions[n - 1], StampsAfter(jobs, stamps, conditions, n - 1))
  }

  /** The ticks of the first `n` iterations. */
  function Ticks(jobs: seq<Job>, stamps: Stamps, conditions: seq<Conditions>, n: nat): (ticks: seq<Tick>)
    requires n <= |conditions|
    ensures |ticks| == n
  {
    if n == 0 then []
    else Ticks(jobs, stamps, conditions, n - 1)
         + [TickOf(jobs, Asked(n - 1), conditions[n - 1], StampsAfter(jobs, stamps, conditions, n - 1))]
  }

  lemma {:induction false} TickAt(jobs: seq<Job>, stamps: Stamps, conditions: seq<Conditions>, n: nat, k: nat)
    requires k < n <= |conditions|
    ensures Ticks(jobs, stamps, conditions, n)[k] ==
            TickOf(jobs, Asked(k), conditions[k], StampsAfter(jobs, stamps, conditions, k))
  {
    if k < n - 1 {
      TickAt(jobs, stamps, conditions, n - 1, k);
    }
  }

  /** What becomes of an iteration, from its number and what it meets: it ticks if
      the key is not there or older than the TTL, and then the table and the
      scheduler are reached exactly if no sweep whose turn it is raises. */
  lemma ReachesTheTableIff(jobs: seq<Job>, stamps: Stamps, conditions: seq<Conditions>, k: nat)
    requires k < Iterations(conditions)
    ensures var c, tick := conditions[k], Ticks(jobs, stamps, conditions, Iterations(conditions))[k];
            && (tick.Ticked? <==> !(c.found.Taken? && c.asked < c.found.since + 300.0))
            && (tick.Ticked? ==>
                  && (tick.scheduled <==> tick.periodic.Some?)
                  && (tick.periodic.Some? <==>
                        && !(k % 3 == 0 && c.provisioningRaises)
                        && !(k % 21 == 0 && c.usageSyncRaises)
                        && !(k % 11 == 0 && c.expirySweepRaises)))
  {
    TickAt(jobs, stamps, conditions, Iterations(conditions), k);
  }

  // ---------- starvation ----------

  /** With the lock obtained, a tick misses the table only on the 3rd and the
      11th iterations, and misses it there if every sweep raises. */
  lemma StarvedTicks(jobs: seq<Job>, stamps: Stamps, c: Conditions, n: nat)
    requires Acquired(c)
    ensures var tick := TickOf(jobs, Asked(n), c, stamps);
            && (tick.periodic.None? ==> n % 3 == 0 || n % 11 == 0)
            && (c.provisioningRaises && c.usageSyncRaises && c.expirySweepRaises ==>
                  (tick.periodic.None? <==> n % 3 == 0 || n % 11 == 0))
            && (tick.scheduled <==> tick.periodic.Some?)
  {
    EveryTwentyFirst(n);
  }

  lemma EveryTwentyFirst(n: nat)
    ensures n % 21 == 0 ==> n % 3 == 0
  {
    assert n == 21 * (n / 21) + n % 21;
    if n % 21 == 0 {
      assert n == 3 * (7 * (n / 21));
    }
  }

  predicate WentThrough(tick: Tick) {
    tick.Ticked? && tick.periodic.Some? && tick.scheduled
  }

  /** Whatever raises, of any three iterations in a row that get the lock one at
      least reaches the periodic jobs and the scheduler. */
  lemma BoundedStarvation(jobs: seq<Job>, stamps: Stamps, conditions: seq<Conditions>, n: nat)
    requires n + 3 <= Iterations(conditions)
    requires forall k :: n <= k < n + 3 ==> Acquired(conditions[k])
    ensures exists k :: n <= k < n + 3 && WentThrough(Ticks(jobs, stamps, conditions, Iterations(conditions))[k])
  {
    var ticks := Ticks(jobs, stamps, conditions, Iterations(conditions));
    forall k | n <= k < n + 3
      ensures ticks[k].Ticked? && (ticks[k].periodic.None? ==> k % 3 == 0 || k % 11 == 0)
      ensures ticks[k].scheduled <==> ticks[k].periodic.Some?
    {
      TickAt(jobs, stamps, conditions, Iterations(conditions), k);
      StarvedTicks(jobs, StampsAfter(jobs, stamps, conditions, k), conditions[k], k);
    }
    OneOfThree(n);
    var k :| n <= k < n + 3 && k % 3 != 0 && k % 11 != 0;
    assert WentThrough(ticks[k]);
  }

  lemma OneOfThree(n: nat)
    ensures exists k :: n <= k < n + 3 && k % 3 != 0 && k % 11 != 0
  {
    assert (n % 3 != 0 && n % 11 != 0) || ((n + 1) % 3 != 0 && (n + 1) % 11 != 0) ||
        ((n + 2) % 3 != 0 && (n + 2) % 11 != 0);
  }

  /** Usage is only ever read in a tick whose provisioning sweep came through
      first: its turns are all provisioning turns too.  While provisioning
      keeps raising, no usage is read at all.  The expiry sweep waits for both
      only where their turns meet. */
  lemma UsageSyncBehindProvisioning(jobs: seq<Job>, stamps: Stamps, conditions: seq<Conditions>, k: nat)
    requires k < Iterations(conditions)
    ensures var tick := Ticks(jobs, stamps, conditions, Iterations(conditions))[k];
            tick.Ticked? ==>
              && (tick.ran.provisioning <==> k % 3 == 0)
              && (tick.ran.usageSync <==> k % 21 == 0 && !conditions[k].provisioningRaises)
              && (tick.ran.expirySweep <==>
                    && k % 11 == 0
                    && !(k % 3 == 0 && conditions[k].provisioningRaises)
                    && !(k % 21 == 0 && conditions[k].usageSyncRaises))
  {
    TickAt(jobs, stamps, conditions, Iterations(conditions), k);
    EveryTwentyFirst(k);
  }

  /** A turn that falls on a tick the lock refuses is not made up for: the
      worker provisions on exactly its every third iteration, if it got in. */
  lemma LostTurnsStayLost(jobs: seq<Job>, stamps: Stamps, conditions: seq<Conditions>, k: nat)
    requires k < Iterations(conditions)
    ensures var tick := Ticks(jobs, stamps, conditions, Iterations(conditions))[k];
            (tick.Ticked? && tick.ran.provisioning) <==>
                (k % 3 == 0 && !TickLock.Live(conditions[k].found, conditions[k].asked))
  {
    TickAt(jobs, stamps, conditions, Iterations(conditions), k);
  }

  // ---------- the table over a run ----------

  predicate Reached(conditions: seq<Conditions>, k: nat)
    requires k < |conditions|
  {
    ReachesTable(Asked(k), conditions[k])
  }

  /** The iteration's pass starts the job, `at` by the clock. */
  predicate StartsAt(jobs: seq<Job>, stamps: Stamps, conditions: seq<Conditions>, k: nat, name: string, at: real)
    requires k < |conditions|
  {
    var tick := TickOf(jobs, Asked(k), conditions[k], StampsAfter(jobs, stamps, conditions, k));
    tick.Ticked? && tick.periodic.Some? && Start(name, at) in tick.periodic.value
  }

  /** How long the pass keeps the `j`th job waiting: what the due jobs before it
      in the table take. */
  function Delay(jobs: seq<Job>, stamps: Stamps, conditions: seq<Conditions>, k: nat, j: nat): Seconds
    requires k < |conditions| && j < |jobs|
  {
    Elapsed(jobs[..j], StampsAfter(jobs, stamps, conditions, k), conditions[k].clock, conditions[k].durations)
  }

  predicate Started(jobs: seq<Job>, stamps: Stamps, conditions: seq<Conditions>, k: nat, j: nat)
    requires k < |conditions| && j < |jobs|
  {
    StartsAt(jobs, stamps, conditions, k, jobs[j].name, conditions[k].clock + Delay(jobs, stamps, conditions, k, j))
  }

  /** Nothing in the run so far keeps a pass that reads the clock at `now` from
      starting the job. */
  ghost predicate NothingHolds(jobs: seq<Job>, stamps: Stamps, conditions: seq<Conditions>, k: nat, j: nat, now: real)
    requires k <= |conditions| && j < |jobs|
  {
    && Stamp(stamps, jobs[j].name) <= now
    && forall a :: 0 <= a < k && Started(jobs, stamps, conditions, a, j) ==>
         conditions[a].clock + jobs[j].interval <= now
  }

  lemma NothingHoldsStep(jobs: seq<Job>, stamps: Stamps, conditions: seq<Conditions>, k: nat, j: nat, now: real)
    requires 0 < k <= |conditions| && j < |jobs|
    ensures NothingHolds(jobs, stamps, conditions, k, j, now) <==>
            && NothingHolds(jobs, stamps, conditions, k - 1, j, now)
            && (Started(jobs, stamps, conditions, k - 1, j) ==> conditions[k - 1].clock + jobs[j].interval <= now)
  {
    hide Started;
  }

  lemma {:induction false} StampSumsUpTheRun(jobs: seq<Job>, stamps: Stamps, conditions: seq<Conditions>, k: nat,
          j: nat, now: real)
    requires DistinctNames(jobs) && k <= |conditions| && j < |jobs| && jobs[j].interval >= 0.0
    ensures Stamp(StampsAfter(jobs, stamps, conditions, k), jobs[j].name) <= now
            <==> NothingHolds(jobs, stamps, conditions, k, j, now)
  {
    if k > 0 {
      hide StampsAfter, Started, NothingHolds;
      StampSumsUpTheRun(jobs, stamps, conditions, k - 1, j, now);
      StampSumsUpTheRun(jobs, stamps, conditions, k - 1, j, conditions[k - 1].clock);
      StampStep(jobs, stamps, conditions, k, j);
      NothingHoldsStep(jobs, stamps, conditions, k, j, now);
    }
  }

  /** One iteration moves a job's stamp exactly when it starts the job. */
  lemma StampStep(jobs: seq<Job>, stamps: Stamps, conditions: seq<Conditions>, k: nat, j: nat)
    requires DistinctNames(jobs) && 0 < k <= |conditions| && j < |jobs|
    ensures var before := Stamp(StampsAfter(jobs, stamps, conditions, k - 1), jobs[j].name);
            var clock := conditions[k - 1].clock;
            var started := Started(jobs, stamps, conditions, k - 1, j);
            && (started <==> Reached(conditions, k - 1) && before <= clock)
            && Stamp(StampsAfter(jobs, stamps, conditions, k), jobs[j].name) ==
               if started then clock + jobs[j].interval else before
  {
    var c := conditions[k - 1];
    DueJobsAreDue(jobs, StampsAfter(jobs, stamps, conditions, k - 1), c.clock, c.durations, j,
                  c.clock + Delay(jobs, stamps, conditions, k - 1, j));
    hide Starts, Elapsed, Restamped;
  }

  /** A pass that reads the clock starts a job exactly when the job's interval has
      passed since every earlier reading that started it, and its first wait
      since the worker's own; and it starts it when the due jobs before it in the
      table are done. */
  lemma JobStartsIff(jobs: seq<Job>, stamps: Stamps, conditions: seq<Conditions>, k: nat, j: nat, at: real)
    requires DistinctNames(jobs) && k < |conditions| && j < |jobs| && jobs[j].interval >= 0.0
    ensures StartsAt(jobs, stamps, conditions, k, jobs[j].name, at) <==>
            && Reached(conditions, k)
            && NothingHolds(jobs, stamps, conditions, k, j, conditions[k].clock)
            && at == conditions[k].clock + Delay(jobs, stamps, conditions, k, j)
  {
    StampSumsUpTheRun(jobs, stamps, conditions, k, j, conditions[k].clock);
    DueJobsAreDue(jobs, StampsAfter(jobs, stamps, conditions, k), conditions[k].clock, conditions[k].durations, j, at);
    hide NothingHolds, Starts, Elapsed, StampsAfter;
  }

  /** Bounded starvation of the jobs themselves: of any three iterations in a row
      that get the lock, with a clock that does not go back, one starts a job that
      nothing held at the first of them, whatever raises. */
  lemma HeldUpForTwoTicks(jobs: seq<Job>, stamps: Stamps, conditions: seq<Conditions>, n: nat, j: nat)
    requires DistinctNames(jobs) && n + 3 <= |conditions| && j < |jobs| && jobs[j].interval >= 0.0
    requires forall k :: n <= k < n + 3 ==> Acquired(conditions[k]) && conditions[n].clock <= conditions[k].clock
    requires NothingHolds(jobs, stamps, conditions, n, j, conditions[n].clock)
    ensures exists k :: n <= k < n + 3 && Started(jobs, stamps, conditions, k, j)
  {
    hide Started;
    OneOfThree(n);
    var k :| n <= k < n + 3 && k % 3 != 0 && k % 11 != 0;
    EveryTwentyFirst(k);
    assert Reached(conditions, k);
    if forall a :: n <= a < k ==> !Started(jobs, stamps, conditions, a, j) {
      assert NothingHolds(jobs, stamps, conditions, k, j, conditions[k].clock);
      StartsWhenNothingHolds(jobs, stamps, conditions, k, j);
    }
  }

  lemma StartsWhenNothingHolds(jobs: seq<Job>, stamps: Stamps, conditions: seq<Conditions>, k: nat, j: nat)
    requires DistinctNames(jobs) && k < |conditions| && j < |jobs| && jobs[j].interval >= 0.0
    ensures Started(jobs, stamps, conditions, k, j) <==>
            Reached(conditions, k) && NothingHolds(jobs, stamps, conditions, k, j, conditions[k].clock)
  {
    hide NothingHolds, Reached, StartsAt;
    JobStartsIff(jobs, stamps, conditions, k, j, conditions[k].clock + Delay(jobs, stamps, conditions, k, j));
  }

  /** Two readings that start one job are at least its interval apart. */
  lemma PassSpacing(jobs: seq<Job>, stamps: Stamps, conditions: seq<Conditions>, a: nat, b: nat, j: nat)
    requires a < b < |conditions| && j < |jobs|
    ensures Started(jobs, stamps, conditions, a, j) &&
              NothingHolds(jobs, stamps, conditions, b, j, conditions[b].clock) ==>
              conditions[b].clock >= conditions[a].clock + jobs[j].interval
  {
    hide Started;
  }

  /** So two starts of one job may be closer than its interval, by no more than
      the wait of the earlier one; and they are a full interval apart exactly
      when that wait is no longer than the wait of the later one and the time by
      which the later reading was past due. */
  lemma JobSpacing(jobs: seq<Job>, stamps: Stamps, conditions: seq<Conditions>, a: nat, b: nat, j: nat, first: real,
          second: real)
    requires DistinctNames(jobs) && a < b < |conditions| && j < |jobs| && jobs[j].interval >= 0.0
    requires StartsAt(jobs, stamps, conditions, a, jobs[j].name, first)
    requires StartsAt(jobs, stamps, conditions, b, jobs[j].name, second)
    ensures var interval, wait := jobs[j].interval, Delay(jobs, stamps, conditions, a, j);
            var pastDue := conditions[b].clock - (conditions[a].clock + interval);
            && pastDue >= 0.0
            && second - first >= interval - wait
            && (second - first >= interval <==> wait <= Delay(jobs, stamps, conditions, b, j) + pastDue)
  {
    hide StartsAt, Delay, NothingHolds, Reached;
    JobStartsIff(jobs, stamps, conditions, a, j, first);
    JobStartsIff(jobs, stamps, conditions, b, j, second);
    PassSpacing(jobs, stamps, conditions, a, b, j);
  }

  /** The first job of the table never waits, so its starts always are. */
  lemma FirstJobSpacing(jobs: seq<Job>, stamps: Stamps, conditions: seq<Conditions>, a: nat, b: nat, first: real,
          second: real)
    requires DistinctNames(jobs) && a < b < |conditions| && jobs != [] && jobs[0].interval >= 0.0
    ensures StartsAt(jobs, stamps, conditions, a, jobs[0].name, first) &&
              StartsAt(jobs, stamps, conditions, b, jobs[0].name, second) ==>
              second - first >= jobs[0].interval
  {
    hide StartsAt;
    if StartsAt(jobs, stamps, conditions, a, jobs[0].name, first) &&
        StartsAt(jobs, stamps, conditions, b, jobs[0].name, second) {
      JobSpacing(jobs, stamps, conditions, a, b, 0, first, second);
    }
  }

  // ---------- a steady clock ----------

  /** The loop's iterations are 30 seconds apart by the clock, and the first `n` of
      them reach the table. */
  ghost predicate IsSteady(conditions: seq<Conditions>, startedAt: real, n: nat) {
    && n <= |conditions|
    && forall i :: 0 <= i < n ==> Reached(conditions, i) && conditions[i].clock == startedAt + 30.0 * i as real
  }

  /** How many iterations there are from the `m`th to the next multiple. */
  function UpToNext(m: nat, period: nat): nat
    requires period > 0
  {
    if m % period == 0 then 0 else period - m % period
  }

  /** The stamp is first found to have passed in the iteration `first`. */
  predicate FirstDue(stamp: real, startedAt: real, first: nat) {
    stamp <= startedAt + 30.0 * first as real && (first > 0 ==> stamp > startedAt + 30.0 * (first - 1) as real)
  }

  /** The stamp after `n` iterations of a job first due in the iteration `first`. */
  predicate IsSteadyStamp(stamp: real, initial: real, startedAt: real, n: nat, first: nat, period: nat)
    requires period > 0
  {
    if n <= first then stamp == initial else stamp == startedAt + 30.0 * (n + UpToNext(n - first, period)) as real
  }

  lemma SteadyStep(before: real, after: real, initial: real, startedAt: real, n: nat, first: nat, period: nat)
    requires n > 0 && period > 0 && FirstDue(initial, startedAt, first)
    requires IsSteadyStamp(before, initial, startedAt, n - 1, first, period)
    requires var clock := startedAt + 30.0 * (n - 1) as real;
             after == if before <= clock then clock + 30.0 * period as real else before
    ensures IsSteadyStamp(after, initial, startedAt, n, first, period)
  {
    if n > first {
      DivMod.RemainderStep(n - first, period);
    }
  }

  lemma {:induction false} SteadyStamp(jobs: seq<Job>, stamps: Stamps, conditions: seq<Conditions>, startedAt: real,
          n: nat, j: nat, first: nat, period: nat)
    requires DistinctNames(jobs) && j < |jobs| && period > 0 && jobs[j].interval == 30.0 * period as real
    requires IsSteady(conditions, startedAt, n) && FirstDue(Stamp(stamps, jobs[j].name), startedAt, first)
    ensures IsSteadyStamp(Stamp(StampsAfter(jobs, stamps, conditions, n), jobs[j].name), Stamp(stamps, jobs[j].name),
                          startedAt, n, first, period)
  {
    if n > 0 {
      OnTime(conditions, startedAt, n - 1);
      SteadyStamp(jobs, stamps, conditions, startedAt, n - 1, j, first, period);
      StampStep(jobs, stamps, conditions, n, j);
      hide StampsAfter, Started, IsSteadyStamp, FirstDue, Stamp, DistinctNames, Reached, IsSteady;
      SteadyStep(Stamp(StampsAfter(jobs, stamps, conditions, n - 1), jobs[j].name),
                 Stamp(StampsAfter(jobs, stamps, conditions, n), jobs[j].name), Stamp(stamps, jobs[j].name), startedAt,
                 n, first, period);
    }
  }

  lemma OnTime(conditions: seq<Conditions>, startedAt: real, i: nat)
    requires IsSteady(conditions, startedAt, i + 1)
    ensures Reached(conditions, i) && conditions[i].clock == startedAt + 30.0 * i as real
    ensures IsSteady(conditions, startedAt, i)
  {
  }

  /** A job of so many iterations' interval starts in the iteration it is first due
      in, and then in every `period`th. */
  lemma SteadyStart(jobs: seq<Job>, stamps: Stamps, conditions: seq<Conditions>, startedAt: real, k: nat, j: nat,
          first: nat, period: nat)
    requires DistinctNames(jobs) && j < |jobs| && period > 0 && jobs[j].interval == 30.0 * period as real
    requires IsSteady(conditions, startedAt, k + 1) && FirstDue(Stamp(stamps, jobs[j].name), startedAt, first)
    ensures Started(jobs, stamps, conditions, k, j) <==> k >= first && (k - first) % period == 0
  {
    hide StampsAfter, Started, Stamp, DistinctNames;
    OnTime(conditions, startedAt, k);
    hide IsSteady;
    SteadyStamp(jobs, stamps, conditions, startedAt, k, j, first, period);
    StampStep(jobs, stamps, conditions, k + 1, j);
  }

  function FirstStamps(startedAt: real): Stamps {
    map["auto_renew" := startedAt + 600.0]
  }

  /** The `k`th iteration's pass starts the job, at whatever time. */
  ghost predicate Runs(conditions: seq<Conditions>, startedAt: real, k: nat, name: string)
    requires k < |conditions|
  {
    exists at :: StartsAt(PERIODIC, FirstStamps(startedAt), conditions, k, name, at)
  }

  lemma RunsIffStarted(conditions: seq<Conditions>, startedAt: real, k: nat, j: nat)
    requires k < |conditions| && j < |PERIODIC|
    ensures Runs(conditions, startedAt, k, PERIODIC[j].name) <==>
            Started(PERIODIC, FirstStamps(startedAt), conditions, k, j)
  {
    PeriodicIsDistinct();
    var stamps := FirstStamps(startedAt);
    if at :| StartsAt(PERIODIC, stamps, conditions, k, PERIODIC[j].name, at) {
      JobStartsIff(PERIODIC, stamps, conditions, k, j, at);
    }
    hide StartsAt;
  }

  /** With a steady clock and no sweep in the way every job keeps its cadence in
      iterations: gateways every one, what is checked every ten minutes every
      20th, the hourly jobs every 120th, all from the first on, and renewals
      every 30th from ten minutes after the start. */
  lemma SteadyCadence(conditions: seq<Conditions>, startedAt: real, k: nat)
    requires startedAt >= 0.0 && k < |conditions| && IsSteady(conditions, startedAt, k + 1)
    ensures Runs(conditions, startedAt, k, "gateway_verify")
    ensures forall name <- {"backup", "daily_report"} :: Runs(conditions, startedAt, k, name) <==> k % 20 == 0
    ensures forall name <- {"cleanup", "newcomer_gift", "trial_followup", "release_notice"} ::
              Runs(conditions, startedAt, k, name) <==> k % 120 == 0
    ensures Runs(conditions, startedAt, k, "auto_renew") <==> k >= 20 && (k - 20) % 30 == 0
  {
    hide Runs, IsSteady;
    JobRuns(conditions, startedAt, k, 0, 20, 30);
    JobRuns(conditions, startedAt, k, 1, 0, 20);
    JobRuns(conditions, startedAt, k, 2, 0, 120);
    JobRuns(conditions, startedAt, k, 3, 0, 120);
    JobRuns(conditions, startedAt, k, 4, 0, 120);
    JobRuns(conditions, startedAt, k, 5, 0, 1);
    JobRuns(conditions, startedAt, k, 6, 0, 20);
    JobRuns(conditions, startedAt, k, 7, 0, 120);
    TableIs();
  }

  lemma TableIs()
    ensures PERIODIC[0] == Job("auto_renew", 900.0) && PERIODIC[1] == Job("backup", 600.0)
    ensures PERIODIC[2] == Job("cleanup", 3600.0) && PERIODIC[3] == Job("newcomer_gift", 3600.0)
    ensures PERIODIC[4] == Job("trial_followup", 3600.0) && PERIODIC[5] == Job("gateway_verify", 30.0)
    ensures PERIODIC[6] == Job("daily_report", 600.0) && PERIODIC[7] == Job("release_notice", 3600.0)
  {
  }

  lemma JobRuns(conditions: seq<Conditions>, startedAt: real, k: nat, j: nat, first: nat, period: nat)
    requires k < |conditions| && IsSteady(conditions, startedAt, k + 1) && j < |PERIODIC| && period > 0
    requires PERIODIC[j].interval == 30.0 * period as real
    requires FirstDue(Stamp(FirstStamps(startedAt), PERIODIC[j].name), startedAt, first)
    ensures Runs(conditions, startedAt, k, PERIODIC[j].name) <==> k >= first && (k - first) % period == 0
  {
    PeriodicIsDistinct();
    RunsIffStarted(conditions, startedAt, k, j);
    SteadyStart(PERIODIC, FirstStamps(startedAt), conditions, startedAt, k, j, first, period);
    hide Runs, Started;
  }

  /** Whatever the iterations before came to, payments at a gateway are looked at in
      every one that reaches the table, as long as ticks are half a minute apart. */
  lemma GatewaysEveryTick(conditions: seq<Conditions>, startedAt: real, k: nat)
    requires k < |conditions| && conditions[k].clock >= 0.0
    requires forall a :: 0 <= a < k ==> conditions[a].clock + 30.0 <= conditions[k].clock
    ensures Runs(conditions, startedAt, k, "gateway_verify") <==> Reached(conditions, k)
  {
    hide Runs, Started;
    PeriodicIsDistinct();
    RunsIffStarted(conditions, startedAt, k, 5);
    assert PERIODIC[5] == Job("gateway_verify", 30.0);
    assert Stamp(FirstStamps(startedAt), "gateway_verify") == 0.0;
    StartsWhenNothingHolds(PERIODIC, FirstStamps(startedAt), conditions, k, 5);
  }

  // ---------- a slow backup ----------

  /** A pass in which the backup takes `upload` and everything else no time. */
  function BackupPass(clock: real, upload: Seconds): Conditions {
    Conditions(false, TickLock.Free, clock, clock, false, false, false, {}, map["backup" := upload],
        TickLock.Taken(0, clock), false)
  }

  const STARTED_AT_ZERO := FirstStamps(0.0)

  /** The backup is second in the table and the cleanup third.  A backup of two
      minutes in the first pass and a quick one in the pass an hour later leave
      the cleanup, due every 3600 seconds, 3480 between its starts, whatever the
      ticks between the two do. */
  lemma SlowBackup(conditions: seq<Conditions>, k: nat)
    requires 0 < k < |conditions| && conditions[0] == BackupPass(0.0, 120.0) && conditions[k] == BackupPass(3600.0, 0.0)
    requires forall i :: 0 < i < k ==> conditions[i].clock < 3600.0
    ensures StartsAt(PERIODIC, STARTED_AT_ZERO, conditions, 0, "cleanup", 120.0)
    ensures StartsAt(PERIODIC, STARTED_AT_ZERO, conditions, k, "cleanup", 3600.0)
    ensures forall i :: 0 < i < k ==> !Started(PERIODIC, STARTED_AT_ZERO, conditions, i, 2)
  {
    hide Started, StartsAt, StampsAfter;
    PeriodicIsDistinct();
    FirstPass(conditions);
    forall i | 0 < i < k ensures !Started(PERIODIC, STARTED_AT_ZERO, conditions, i, 2) {
      StartsWhenNothingHolds(PERIODIC, STARTED_AT_ZERO, conditions, i, 2);
    }
    FirstTwo(StampsAfter(PERIODIC, STARTED_AT_ZERO, conditions, k), 3600.0, map["backup" := 0.0]);
    assert Delay(PERIODIC, STARTED_AT_ZERO, conditions, k, 2) == 0.0;
    JobStartsIff(PERIODIC, STARTED_AT_ZERO, conditions, k, 2, 3600.0);
  }

  lemma FirstPass(conditions: seq<Conditions>)
    requires conditions != [] && conditions[0] == BackupPass(0.0, 120.0)
    ensures StartsAt(PERIODIC, STARTED_AT_ZERO, conditions, 0, "cleanup", 120.0)
    ensures Started(PERIODIC, STARTED_AT_ZERO, conditions, 0, 2)
  {
    PeriodicIsDistinct();
    FirstTwo(STARTED_AT_ZERO, 0.0, map["backup" := 120.0]);
    assert Delay(PERIODIC, STARTED_AT_ZERO, conditions, 0, 2) == 120.0;
    JobStartsIff(PERIODIC, STARTED_AT_ZERO, conditions, 0, 2, 120.0);
    hide StartsAt, Delay;
  }

  lemma FirstTwo(stamps: Stamps, now: real, durations: Durations)
    ensures Elapsed(PERIODIC[..2], stamps, now, durations) ==
            (if IsDue(PERIODIC[0], stamps, now) then Took(durations, "auto_renew") else 0.0) +
            (if IsDue(PERIODIC[1], stamps, now) then Took(durations, "backup") else 0.0)
  {
    assert PERIODIC[..2][..1] == PERIODIC[..1] && PERIODIC[..1][..0] == [];
    assert Elapsed(PERIODIC[..1], stamps, now, durations) ==
        if IsDue(PERIODIC[0], stamps, now) then Took(durations, "auto_renew") else 0.0;
  }

  lemma PeriodicIsDistinct()
    ensures DistinctNames(PERIODIC)
    ensures forall j :: 0 <= j < |PERIODIC| ==> PERIODIC[j].interval >= 0.0
  {
  }
}
