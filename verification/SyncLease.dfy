/** The sync lease of one data source as a protocol: any number of processes, each with its
    in-flight mark, share one lease row with a time to live. Instants are integers and the
    clock never goes back. A statement may run later than the instant it was computed from. */
module SyncLease {
  import opened Options

  /** `granularity`: the resolution of updated_at (1 when exact). `doubt`: by less than this may
      the store misjudge two instants (0 when exact; below one second for text timestamps).
      `gapless`: endSync drops the mark and the row, and stops renewal, in one step.
      `checked`: a forced release reads the row and deletes it in one step. */
  datatype Config = Config(ttl: nat, staleAfter: nat, granularity: nat, doubt: nat, gapless: bool, checked: bool) {
    ghost predicate Valid() { ttl > 0 && granularity > 0 }
  }

  datatype Lease = Lease(owner: string, until: int, updatedAt: int)

  /** One call of beginSync: it has marked the process, read the clock, holds the lease it last
      wrote until `last`, or has dropped the mark but not yet the row. */
  datatype Phase = Marked | Acquiring(now: int) | Syncing(last: int) | Ending

  datatype Session = Session(process: string, phase: Phase)

  datatype State = State(
    clock: int, row: Option<Lease>, inFlight: set<string>, sessions: map<nat, Session>, condemned: nat)

  datatype Step =
    | Tick(elapsed: nat)
    | Begin(id: nat, process: string)
    | ReadClock(id: nat)
    | Acquire(id: nat, expired: bool)
    | Renew(id: nat, now: int)
    | End(id: nat)
    | EndLocal(id: nat)
    | EndRow(id: nat)
    | Crash(id: nat)
    | ForceRelease
    | ForceCheck
    | ForceDelete

  /** The store may find `until` expired at `now`, or still running. */
  predicate MayExpire(c: Config, until: int, now: int) { until <= now || until < now + c.doubt }
  predicate MayRun(c: Config, until: int, now: int) { now < until || now < until + c.doubt }

  function Stamp(c: Config, clock: int): int
    requires c.granularity > 0
  {
    clock - clock % c.granularity
  }

  function Start(clock: int): State { State(clock, None, {}, map[], 0) }

  predicate Enabled(c: Config, s: State, step: Step)
    requires c.granularity > 0
  {
    match step
    case Tick(_) => true
    case Begin(id, process) => id !in s.sessions && process !in s.inFlight
    case ReadClock(id) => id in s.sessions && s.sessions[id].phase.Marked?
    case Acquire(id, expired) =>
      id in s.sessions && s.sessions[id].phase.Acquiring? &&
      (s.row.Some? ==> if expired then MayExpire(c, s.row.value.until, s.sessions[id].phase.now)
                       else MayRun(c, s.row.value.until, s.sessions[id].phase.now))
    case Renew(id, now) => id in s.sessions && s.sessions[id].phase.Syncing? && now <= s.clock
    case End(id) => c.gapless && id in s.sessions && s.sessions[id].phase.Syncing?
    case EndLocal(id) => !c.gapless && id in s.sessions && s.sessions[id].phase.Syncing?
    case EndRow(id) => id in s.sessions && s.sessions[id].phase.Ending?
    case Crash(id) => id in s.sessions
    case ForceRelease => c.checked && s.row.Some? && s.clock - s.row.value.updatedAt >= c.staleAfter
    case ForceCheck => !c.checked && s.row.Some? && s.clock - s.row.value.updatedAt >= c.staleAfter
    case ForceDelete => s.condemned > 0
  }

  /** DELETE ... WHERE owner_id = ? */
  function Released(row: Option<Lease>, process: string): Option<Lease> {
    if row.Some? && row.value.owner == process then None else row
  }

  function Next(c: Config, s: State, step: Step): State
    requires c.granularity > 0 && Enabled(c, s, step)
  {
    match step
    case Tick(elapsed) => s.(clock := s.clock + elapsed)
    case Begin(id, process) =>
      s.(inFlight := s.inFlight + {process}, sessions := s.sessions[id := Session(process, Marked)])
    case ReadClock(id) => s.(sessions := s.sessions[id := Session(s.sessions[id].process, Acquiring(s.clock))])
    case Acquire(id, expired) =>
      var p, until := s.sessions[id].process, s.sessions[id].phase.now + c.ttl;
      if s.row.None? || s.row.value.owner == p || expired then
        s.(row := Some(Lease(p, until, Stamp(c, s.clock))), sessions := s.sessions[id := Session(p, Syncing(until))])
      else
        s.(inFlight := s.inFlight - {p}, sessions := s.sessions - {id})
    case Renew(id, now) =>
      var p, until := s.sessions[id].process, now + c.ttl;
      if s.row.Some? && s.row.value.owner == p then
        s.(row := Some(Lease(p, until, Stamp(c, s.clock))), sessions := s.sessions[id := Session(p, Syncing(until))])
      else s
    case End(id) =>
      var p := s.sessions[id].process;
      s.(row := Released(s.row, p), inFlight := s.inFlight - {p}, sessions := s.sessions - {id})
    case EndLocal(id) =>
      var p := s.sessions[id].process;
      s.(inFlight := s.inFlight - {p}, sessions := s.sessions[id := Session(p, Ending)])
    case EndRow(id) => s.(row := Released(s.row, s.sessions[id].process), sessions := s.sessions - {id})
    case Crash(id) =>
      var p := s.sessions[id].process;
      s.(inFlight := if s.sessions[id].phase.Ending? then s.inFlight else s.inFlight - {p},
         sessions := s.sessions - {id})
    case ForceRelease => s.(row := None)
    case ForceCheck => s.(condemned := s.condemned + 1)
    case ForceDelete => s.(row := None, condemned := s.condemned - 1)
  }

  function After(c: Config, clock: int, steps: seq<Step>): Option<State>
    requires c.granularity > 0
  {
    if steps == [] then Some(Start(clock))
    else
      var p := After(c, clock, steps[..|steps| - 1]);
      var step := steps[|steps| - 1];
      if p.None? || !Enabled(c, p.value, step) then None else Some(Next(c, p.value, step))
  }

  // ---------------------------------------------------------------- safety

  predicate Active(s: State, id: nat) {
    id in s.sessions && !s.sessions[id].phase.Ending?
  }

  /** Inside a sync, strictly before the lease end it last wrote. */
  predicate Inside(s: State, id: nat) {
    id in s.sessions && s.sessions[id].phase.Syncing? && s.clock < s.sessions[id].phase.last
  }

  /** The same, and clear of the doubt before that end. */
  predicate Holding(c: Config, s: State, id: nat) {
    id in s.sessions && s.sessions[id].phase.Syncing? &&
    s.clock < s.sessions[id].phase.last && s.clock + c.doubt <= s.sessions[id].phase.last
  }

  /** How long before its end a lease counts as lapsed: one instant, or the whole doubt. */
  function Margin(c: Config): nat { if c.doubt > 1 then c.doubt else 1 }

  /** Ending a sync and forcing a release are single steps, and a row counts as stale no earlier
      than its lease counts as lapsed. */
  predicate Guarded(c: Config) {
    c.gapless && c.checked && c.staleAfter >= c.ttl + c.granularity - Margin(c)
  }

  /** Guarded, or with leases too short for anyone to rely on one. */
  predicate Safe(c: Config) {
    c.ttl < Margin(c) || Guarded(c)
  }

  ghost predicate OnePerProcess(s: State) {
    && (forall a, b | Active(s, a) && Active(s, b) && s.sessions[a].process == s.sessions[b].process :: a == b)
    && (forall a | Active(s, a) :: s.sessions[a].process in s.inFlight)
  }

  /** At most one active session per process, and at most one session anywhere inside a sync
      before its lease end. */
  ghost predicate Exclusive(s: State) {
    && (forall a, b | Active(s, a) && Active(s, b) && s.sessions[a].process == s.sessions[b].process :: a == b)
    && (forall a, b | Inside(s, a) && Inside(s, b) :: a == b)
  }

  /** The same, except that the doubt before a lease end does not count. */
  ghost predicate ExclusiveUpTo(c: Config, s: State) {
    && (forall a, b | Active(s, a) && Active(s, b) && s.sessions[a].process == s.sessions[b].process :: a == b)
    && (forall a, b | Holding(c, s, a) && Holding(c, s, b) :: a == b)
  }

  /** A session inside a sync owns the row with the end it last wrote, unless that has lapsed. */
  ghost predicate HeldOrLapsed(c: Config, s: State) {
    forall a | a in s.sessions && s.sessions[a].phase.Syncing? ::
      || (s.row.Some? && s.row.value.owner == s.sessions[a].process && s.row.value.until == s.sessions[a].phase.last)
      || !Holding(c, s, a)
  }

  ghost predicate ClocksPast(c: Config, s: State)
    requires c.granularity > 0
  {
    && (forall a | a in s.sessions && s.sessions[a].phase.Acquiring? :: s.sessions[a].phase.now <= s.clock)
    && (forall a | a in s.sessions && s.sessions[a].phase.Syncing? :: s.sessions[a].phase.last <= s.clock + c.ttl)
    && (s.row.Some? ==> s.row.value.until <= s.row.value.updatedAt + c.granularity - 1 + c.ttl)
  }

  ghost predicate Inv(c: Config, s: State)
    requires c.granularity > 0
  {
    && OnePerProcess(s) && HeldOrLapsed(c, s) && ClocksPast(c, s) && s.condemned == 0
    && forall a | a in s.sessions :: !s.sessions[a].phase.Ending?
  }

  lemma OnePerProcessNext(c: Config, s: State, step: Step)
    requires c.Valid() && OnePerProcess(s) && Enabled(c, s, step)
    ensures OnePerProcess(Next(c, s, step))
  {}

  lemma ClocksPastNext(c: Config, s: State, step: Step)
    requires c.Valid() && ClocksPast(c, s) && Enabled(c, s, step)
    ensures ClocksPast(c, Next(c, s, step))
  {}

  lemma HeldOrLapsedNext(c: Config, s: State, step: Step)
    requires c.Valid() && Guarded(c)
    requires Inv(c, s) && Enabled(c, s, step)
    ensures HeldOrLapsed(c, Next(c, s, step))
  {}

  lemma InvNext(c: Config, s: State, step: Step)
    requires c.Valid() && Guarded(c)
    requires Inv(c, s) && Enabled(c, s, step)
    ensures Inv(c, Next(c, s, step))
  {
    OnePerProcessNext(c, s, step);
    ClocksPastNext(c, s, step);
    HeldOrLapsedNext(c, s, step);
    hide OnePerProcess, ClocksPast, HeldOrLapsed;
  }

  lemma {:induction false} InvHolds(c: Config, clock: int, steps: seq<Step>)
    requires c.Valid() && Guarded(c) && After(c, clock, steps).Some?
    ensures Inv(c, After(c, clock, steps).value)
  {
    if steps != [] {
      InvHolds(c, clock, steps[..|steps| - 1]);
      InvNext(c, After(c, clock, steps[..|steps| - 1]).value, steps[|steps| - 1]);
    }
  }

  /** Whatever the configuration: one active session per process, and no lease end further away
      than the time to live. */
  lemma {:induction false} BasicsHold(c: Config, clock: int, steps: seq<Step>)
    requires c.Valid() && After(c, clock, steps).Some?
    ensures OnePerProcess(After(c, clock, steps).value) && ClocksPast(c, After(c, clock, steps).value)
  {
    if steps != [] {
      BasicsHold(c, clock, steps[..|steps| - 1]);
      var s := After(c, clock, steps[..|steps| - 1]).value;
      OnePerProcessNext(c, s, steps[|steps| - 1]);
      ClocksPastNext(c, s, steps[|steps| - 1]);
      hide Enabled, Next, OnePerProcess, ClocksPast;
    }
  }

  /** Lease exclusion over every run: at most one session anywhere is inside a sync, up to the
      comparison's doubt before the lease end it last wrote, and at most one per process is active
      at all. */
  lemma LeaseExclusion(c: Config, clock: int, steps: seq<Step>)
    requires c.Valid() && Safe(c) && After(c, clock, steps).Some?
    ensures ExclusiveUpTo(c, After(c, clock, steps).value)
  {
    BasicsHold(c, clock, steps);
    if Guarded(c) {
      InvHolds(c, clock, steps);
    }
    hide After;
  }

  predicate Forced(step: Step) {
    step.ForceRelease? || step.ForceCheck? || step.ForceDelete?
  }

  /** The same run under a configuration that only allows safe forced releases. */
  function Unforced(c: Config): Config {
    c.(staleAfter := c.ttl + c.granularity, checked := true)
  }

  lemma UnforcedStep(c: Config, s: State, step: Step)
    requires c.Valid() && !Forced(step)
    ensures Enabled(c, s, step) == Enabled(Unforced(c), s, step)
    ensures Enabled(c, s, step) ==> Next(c, s, step) == Next(Unforced(c), s, step)
  {}

  lemma {:induction false} UnforcedRun(c: Config, clock: int, steps: seq<Step>)
    requires c.Valid() && forall step | step in steps :: !Forced(step)
    ensures After(c, clock, steps) == After(Unforced(c), clock, steps)
  {
    if steps != [] {
      UnforcedRun(c, clock, steps[..|steps| - 1]);
      var p := After(c, clock, steps[..|steps| - 1]);
      if p.Some? {
        UnforcedStep(c, p.value, steps[|steps| - 1]);
      }
      hide Enabled, Next;
    }
  }

  /** In a run without forced releases, a gapless endSync alone gives exclusion. */
  lemma ExclusionUnforced(c: Config, clock: int, steps: seq<Step>)
    requires c.Valid() && c.gapless && After(c, clock, steps).Some?
    requires forall step | step in steps :: !Forced(step)
    ensures ExclusiveUpTo(c, After(c, clock, steps).value)
  {
    UnforcedRun(c, clock, steps);
    LeaseExclusion(Unforced(c), clock, steps);
    hide After, Active;
    assert forall s: State, id: nat :: Holding(c, s, id) == Holding(Unforced(c), s, id);
  }

  /** A process that finds the row its own and still running is alone: no session of another
      process is inside its lease, up to the comparison's doubt before its end, or up to the end
      itself where the comparison is exact. */
  lemma OwnedIsAlone(c: Config, clock: int, steps: seq<Step>, p: string, id: nat)
    requires c.Valid() && Safe(c) && After(c, clock, steps).Some?
    requires var s := After(c, clock, steps).value;
      s.row.Some? && s.row.value.owner == p && s.clock < s.row.value.until
    ensures var s := After(c, clock, steps).value;
      Holding(c, s, id) || (c.doubt <= 1 && Inside(s, id)) ==> s.sessions[id].process == p
  {
    BasicsHold(c, clock, steps);
    if Guarded(c) {
      InvHolds(c, clock, steps);
    }
    hide After;
  }

  // ---------------------------------------------------------------- when exclusion fails

  lemma Extend(c: Config, clock: int, steps: seq<Step>, s: State, step: Step)
    requires c.granularity > 0 && After(c, clock, steps) == Some(s) && Enabled(c, s, step)
    ensures After(c, clock, steps + [step]) == Some(Next(c, s, step))
  {
    assert (steps + [step])[..|steps|] == steps;
  }

  /** A session of `p` starts and acquires a row that is free, its own, or expired. */
  lemma StartSync(c: Config, clock: int, steps: seq<Step>, s: State, id: nat, p: string, expired: bool)
    returns (more: seq<Step>, t: State)
    requires c.Valid() && After(c, clock, steps) == Some(s)
    requires id !in s.sessions && p !in s.inFlight && (s.row.None? || s.row.value.owner == p || expired)
    requires s.row.Some? ==>
      if expired then MayExpire(c, s.row.value.until, s.clock) else MayRun(c, s.row.value.until, s.clock)
    ensures After(c, clock, more) == Some(t)
    ensures more == steps + [Begin(id, p)] + [ReadClock(id)] + [Acquire(id, expired)]
    ensures t == State(s.clock, Some(Lease(p, s.clock + c.ttl, Stamp(c, s.clock))), s.inFlight + {p},
                       s.sessions[id := Session(p, Syncing(s.clock + c.ttl))], s.condemned)
  {
    hide After;
    var s1 := Next(c, s, Begin(id, p));
    Extend(c, clock, steps, s, Begin(id, p));
    var s2 := Next(c, s1, ReadClock(id));
    Extend(c, clock, steps + [Begin(id, p)], s1, ReadClock(id));
    t := Next(c, s2, Acquire(id, expired));
    Extend(c, clock, steps + [Begin(id, p)] + [ReadClock(id)], s2, Acquire(id, expired));
    more := steps + [Begin(id, p)] + [ReadClock(id)] + [Acquire(id, expired)];
    assert t.sessions == s.sessions[id := Session(p, Syncing(s.clock + c.ttl))];
  }

  lemma StartOfRun(c: Config, clock: int)
    requires c.granularity > 0
    ensures After(c, clock, []) == Some(Start(clock))
  {}

  /** If a stale row may be removed before its lease end, two processes get in. */
  lemma EarlyForceRelease(c: Config) returns (clock: int, steps: seq<Step>)
    requires c.Valid() && c.ttl >= Margin(c) && c.checked && c.staleAfter < c.ttl + c.granularity - Margin(c)
    ensures After(c, clock, steps).Some? && !ExclusiveUpTo(c, After(c, clock, steps).value)
  {
    hide After;
    clock := c.granularity - 1;
    StartOfRun(c, clock);
    var wait := if c.staleAfter <= clock then 0 else c.staleAfter - clock;
    var run1, s1 := StartSync(c, clock, [], Start(clock), 0, "p", false);
    assert Stamp(c, clock) == 0;
    Extend(c, clock, run1, s1, Tick(wait));
    var s2 := Next(c, s1, Tick(wait));
    Extend(c, clock, run1 + [Tick(wait)], s2, ForceRelease);
    var s3 := Next(c, s2, ForceRelease);
    var run4, s4 := StartSync(c, clock, run1 + [Tick(wait)] + [ForceRelease], s3, 1, "q", false);
    steps := run4;
    assert Holding(c, s4, 0) && Holding(c, s4, 1);
  }

  /** If endSync leaves a gap, its late DELETE removes the row a newer sync of the same process
      has re-acquired, and another process gets in. */
  lemma GapInEndSync(c: Config, clock: int) returns (steps: seq<Step>)
    requires c.Valid() && c.ttl >= Margin(c) && !c.gapless
    ensures After(c, clock, steps).Some? && !ExclusiveUpTo(c, After(c, clock, steps).value)
    ensures forall step | step in steps :: !Forced(step)
  {
    hide After;
    StartOfRun(c, clock);
    var run1, s1 := StartSync(c, clock, [], Start(clock), 0, "p", false);
    Extend(c, clock, run1, s1, EndLocal(0));
    var s2 := Next(c, s1, EndLocal(0));
    var run3, s3 := StartSync(c, clock, run1 + [EndLocal(0)], s2, 1, "p", false);
    Extend(c, clock, run3, s3, EndRow(0));
    var s4 := Next(c, s3, EndRow(0));
    var run5, s5 := StartSync(c, clock, run3 + [EndRow(0)], s4, 2, "q", false);
    steps := run5;
    assert Holding(c, s5, 1) && Holding(c, s5, 2);
  }

  /** If a forced release reads the row and deletes it later, it may delete the row of the
      process that took over in between. */
  lemma GapInForceRelease(c: Config) returns (steps: seq<Step>)
    requires c.Valid() && c.ttl >= Margin(c) && !c.checked
    ensures After(c, 0, steps).Some? && !ExclusiveUpTo(c, After(c, 0, steps).value)
  {
    hide After;
    StartOfRun(c, 0);
    var run1, s1 := StartSync(c, 0, [], Start(0), 0, "p", false);
    var wait := c.ttl + c.staleAfter;
    Extend(c, 0, run1, s1, Tick(wait));
    var s2 := Next(c, s1, Tick(wait));
    Extend(c, 0, run1 + [Tick(wait)], s2, ForceCheck);
    var s3 := Next(c, s2, ForceCheck);
    var run4, s4 := StartSync(c, 0, run1 + [Tick(wait)] + [ForceCheck], s3, 1, "q", true);
    Extend(c, 0, run4, s4, ForceDelete);
    var s5 := Next(c, s4, ForceDelete);
    var run6, s6 := StartSync(c, 0, run4 + [ForceDelete], s5, 2, "r", false);
    steps := run6;
    assert Holding(c, s6, 1) && Holding(c, s6, 2);
  }

  /** Exclusion holds in every run exactly when the configuration is safe, for comparisons that
      are exact (no doubt) as for text time stamps (a doubt of one second). */
  lemma ExclusionCondition(c: Config)
    requires c.Valid()
    ensures (forall clock: int, steps ::
               After(c, clock, steps).Some? ==> ExclusiveUpTo(c, After(c, clock, steps).value)) <==>
            Safe(c)
  {
    hide ExclusiveUpTo;
    if Safe(c) {
      forall clock: int, steps | After(c, clock, steps).Some? ensures ExclusiveUpTo(c, After(c, clock, steps).value) {
        LeaseExclusion(c, clock, steps);
      }
    } else if !c.gapless {
      var steps := GapInEndSync(c, 0);
    } else if !c.checked {
      var steps := GapInForceRelease(c);
    } else {
      var clock, steps := EarlyForceRelease(c);
    }
  }

  predicate Unforcing(steps: seq<Step>) {
    forall step | step in steps :: !Forced(step)
  }

  /** Without forced releases it holds in every run exactly when endSync is one step, or leases are
      too short for anyone to rely on one. */
  lemma UnforcedCondition(c: Config)
    requires c.Valid()
    ensures (forall clock: int, steps | Unforcing(steps) ::
               After(c, clock, steps).Some? ==> ExclusiveUpTo(c, After(c, clock, steps).value)) <==>
            c.gapless || c.ttl < Margin(c)
  {
    hide ExclusiveUpTo;
    if c.gapless || c.ttl < Margin(c) {
      forall clock: int, steps | Unforcing(steps) && After(c, clock, steps).Some?
        ensures ExclusiveUpTo(c, After(c, clock, steps).value)
      {
        if c.gapless {
          ExclusionUnforced(c, clock, steps);
        } else {
          LeaseExclusion(c, clock, steps);
        }
      }
    } else {
      var steps := GapInEndSync(c, 0);
      assert Unforcing(steps);
    }
  }

  // ---------------------------------------------------------------- exclusion up to the lease end itself

  /** A comparison that may err by more than an instant finds a lease expired while it still runs,
      and a second process gets in: no forced release, no gap and no late step is needed. */
  lemma EarlyTakeover(c: Config, clock: int) returns (steps: seq<Step>)
    requires c.Valid() && c.doubt > 1
    ensures After(c, clock, steps).Some? && !Exclusive(After(c, clock, steps).value) && Unforcing(steps)
  {
    hide After;
    StartOfRun(c, clock);
    var run1, s1 := StartSync(c, clock, [], Start(clock), 0, "p", false);
    Extend(c, clock, run1, s1, Tick(c.ttl - 1));
    var s2 := Next(c, s1, Tick(c.ttl - 1));
    var run3, s3 := StartSync(c, clock, run1 + [Tick(c.ttl - 1)], s2, 1, "q", true);
    steps := run3;
    assert Inside(s3, 0) && Inside(s3, 1);
  }

  lemma ExactIsStrict(c: Config, s: State)
    ensures Exclusive(s) ==> ExclusiveUpTo(c, s)
    ensures c.doubt <= 1 ==> (Exclusive(s) <==> ExclusiveUpTo(c, s))
  {
    hide Active;
    forall id ensures Holding(c, s, id) ==> Inside(s, id) {}
    forall id | c.doubt <= 1 ensures Holding(c, s, id) <==> Inside(s, id) {}
  }

  /** Exclusion up to the lease end holds in every run exactly when the comparison is exact (errs by
      at most one instant, that is, by nothing) and the configuration is guarded. */
  lemma StrictCondition(c: Config)
    requires c.Valid()
    ensures (forall clock: int, steps :: After(c, clock, steps).Some? ==> Exclusive(After(c, clock, steps).value)) <==>
            c.doubt <= 1 && Guarded(c)
  {
    hide After, Exclusive, ExclusiveUpTo;
    forall s ensures Exclusive(s) ==> ExclusiveUpTo(c, s)
             ensures c.doubt <= 1 ==> (Exclusive(s) <==> ExclusiveUpTo(c, s))
    {
      ExactIsStrict(c, s);
    }
    if c.doubt > 1 {
      var steps := EarlyTakeover(c, 0);
    } else {
      ExclusionCondition(c);
    }
  }

  /** Without forced releases, exactly when the comparison is exact and endSync is one step. */
  lemma StrictUnforcedCondition(c: Config)
    requires c.Valid()
    ensures (forall clock: int, steps | Unforcing(steps) ::
               After(c, clock, steps).Some? ==> Exclusive(After(c, clock, steps).value)) <==>
            c.doubt <= 1 && c.gapless
  {
    hide After, Exclusive, ExclusiveUpTo, Unforcing;
    forall s ensures Exclusive(s) ==> ExclusiveUpTo(c, s)
             ensures c.doubt <= 1 ==> (Exclusive(s) <==> ExclusiveUpTo(c, s))
    {
      ExactIsStrict(c, s);
    }
    if c.doubt > 1 {
      var steps := EarlyTakeover(c, 0);
    } else {
      UnforcedCondition(c);
    }
  }
}
