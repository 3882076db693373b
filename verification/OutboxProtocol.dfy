/** The outbox as a protocol: any number of dispatchers claim, settle (also late, after their
    lease has expired), die, and are raced by replays. What holds in every reachable state. */
module OutboxProtocol {
  import opened Options
  import opened Outbox
  import opened OutboxStore

  /** A claimed row in some dispatcher's hands. `epoch` counts the replays of the row before the
      claim; the program does not know it, and no step depends on it. */
  datatype Token = Token(row: string, epoch: nat, attempt: nat)

  datatype State = State(rows: Table, epochs: map<string, nat>, tokens: set<Token>, enqueued: set<string>)

  datatype Step =
    | Enqueue(id: string, eventId: string, now: int, createdAt: int)
    | Claim(id: string, owner: string, now: int, leaseUntil: int)
    | Settle(token: Token, outcome: Outcome)
    | Lose(token: Token)
    | Replay(id: string, now: int)

  const INIT := State(map[], map[], {}, {})

  predicate Enabled(s: State, step: Step) {
    match step
    case Enqueue(_, _, _, _) => true
    case Claim(id, _, now, _) => id in s.rows && id in s.epochs && Claimable(s.rows[id], now)
    case Settle(token, _) => token in s.tokens && token.row in s.rows
    case Lose(token) => token in s.tokens
    case Replay(id, _) => id in s.rows && id in s.epochs && Replayable(s.rows[id])
  }

  function Next(s: State, step: Step, max: nat): State
    requires Enabled(s, step)
  {
    match step
    case Enqueue(id, eventId, now, createdAt) =>
      if id in s.rows || eventId in EventIds(s.rows) then s
      else s.(rows := s.rows[id := NewRow(eventId, now, createdAt)], epochs := s.epochs[id := 0],
              enqueued := s.enqueued + {eventId})
    case Claim(id, owner, _, leaseUntil) =>
      var r := Claimed(s.rows[id], owner, leaseUntil);
      var token := Token(id, s.epochs[id], r.attempts);
      s.(rows := s.rows[id := r], tokens := s.tokens + {token})
    case Settle(token, outcome) =>
      s.(rows := s.rows[token.row := Settled(s.rows[token.row], token.attempt, outcome, max)],
         tokens := s.tokens - {token})
    case Lose(token) => s.(tokens := s.tokens - {token})
    case Replay(id, now) =>
      s.(rows := s.rows[id := Replayed(s.rows[id], now)], epochs := s.epochs[id := s.epochs[id] + 1])
  }

  /** The state after a run, if every step of it was enabled. */
  function After(steps: seq<Step>, max: nat): Option<State> {
    if steps == [] then Some(INIT)
    else
      var p := After(steps[..|steps| - 1], max);
      var step := steps[|steps| - 1];
      if p.None? || !Enabled(p.value, step) then None else Some(Next(p.value, step, max))
  }

  lemma AfterOneMore(steps: seq<Step>, step: Step, max: nat)
    ensures After(steps + [step], max) ==
            var p := After(steps, max);
            if p.None? || !Enabled(p.value, step) then None else Some(Next(p.value, step, max))
  {
    assert (steps + [step])[..|steps|] == steps;
  }

  // ---------------------------------------------------------------- the table invariant

  /** Lease fields are set exactly while processing; a delivered row carries no error. */
  predicate RowOk(r: Row) {
    && (r.status.Processing? <==> r.leaseOwner.Some?) && (r.leaseOwner.Some? <==> r.leaseUntil.Some?)
    && (r.status.Delivered? ==> r.lastError.None? && r.deliveredAt.Some?)
    && (r.status.DeadLetter? ==> r.lastError.Some?)
  }

  ghost predicate TableOk(s: State) {
    && (forall id | id in s.rows :: RowOk(s.rows[id]))
    && UniqueEvents(s.rows) && EventIds(s.rows) == s.enqueued && s.rows.Keys == s.epochs.Keys
  }

  lemma EventsAfterUpdate(rows: Table, id: string, r: Row)
    requires id in rows && r.eventId == rows[id].eventId
    ensures EventIds(rows[id := r]) == EventIds(rows)
    ensures UniqueEvents(rows) ==> UniqueEvents(rows[id := r])
  {
    var u := rows[id := r];
    forall x | x in rows ensures u[x].eventId == rows[x].eventId {}
  }

  lemma EventsAfterInsert(rows: Table, id: string, r: Row)
    requires id !in rows && r.eventId !in EventIds(rows)
    ensures EventIds(rows[id := r]) == EventIds(rows) + {r.eventId}
    ensures UniqueEvents(rows) ==> UniqueEvents(rows[id := r])
  {
    var u := rows[id := r];
    assert u[id].eventId == r.eventId && forall x | x in rows :: u[x] == rows[x];
  }

  lemma TableOkNext(s: State, step: Step, max: nat)
    requires TableOk(s) && Enabled(s, step)
    ensures TableOk(Next(s, step, max))
  {
    hide UniqueEvents, EventIds;
    match step
    case Enqueue(id, eventId, now, createdAt) =>
      if id !in s.rows && eventId !in EventIds(s.rows) {
        EventsAfterInsert(s.rows, id, NewRow(eventId, now, createdAt));
      }
    case Claim(id, owner, now, leaseUntil) => EventsAfterUpdate(s.rows, id, Claimed(s.rows[id], owner, leaseUntil));
    case Settle(token, outcome) =>
      EventsAfterUpdate(s.rows, token.row, Settled(s.rows[token.row], token.attempt, outcome, max));
    case Lose(token) =>
    case Replay(id, now) => EventsAfterUpdate(s.rows, id, Replayed(s.rows[id], now));
  }

  // ---------------------------------------------------------------- the attempt invariant

  /** A token was handed out by a claim of its row: in a past epoch, or in the current one with
      an attempt number no larger than the row's. */
  predicate Issued(s: State, t: Token) {
    t.row in s.rows && t.row in s.epochs && t.attempt >= 1 &&
    (t.epoch < s.epochs[t.row] || (t.epoch == s.epochs[t.row] && t.attempt <= s.rows[t.row].attempts))
  }

  ghost predicate AttemptsOk(s: State) {
    forall t | t in s.tokens :: Issued(s, t)
  }

  /** What every step keeps. */
  ghost predicate Inv(s: State) {
    TableOk(s) && AttemptsOk(s)
  }

  lemma IssuedStays(s: State, step: Step, max: nat, t: Token)
    requires Enabled(s, step) && Issued(s, t)
    ensures Issued(Next(s, step, max), t)
  {}

  lemma AttemptsOkNext(s: State, step: Step, max: nat)
    requires TableOk(s) && AttemptsOk(s) && Enabled(s, step)
    ensures AttemptsOk(Next(s, step, max))
  {
    var u := Next(s, step, max);
    forall t | Issued(s, t) ensures Issued(u, t) { IssuedStays(s, step, max, t); }
    hide TableOk;
  }

  /** A token that has been issued and handed back does not come again. */
  lemma TokenStaysSpent(s: State, step: Step, max: nat, t: Token)
    requires Enabled(s, step) && Issued(s, t) && t !in s.tokens
    ensures t !in Next(s, step, max).tokens
  {}

  lemma {:induction false} InvHolds(steps: seq<Step>, max: nat)
    requires After(steps, max).Some?
    ensures Inv(After(steps, max).value)
  {
    if steps != [] {
      var init, step := steps[..|steps| - 1], steps[|steps| - 1];
      InvHolds(init, max);
      var p := After(init, max).value;
      assert Enabled(p, step) && After(steps, max).value == Next(p, step, max);
      hide Next, Enabled, TableOk, AttemptsOk;
      TableOkNext(p, step, max);
      AttemptsOkNext(p, step, max);
    }
  }

  // ---------------------------------------------------------------- what holds in every reachable state

  /** Lease fields are set exactly while processing, a live lease excludes every claim, dead
      letters are never claimed, delivered rows are never replayable, and the counters add up
      to the number of distinct event ids ever enqueued. */
  lemma OutboxInvariant(steps: seq<Step>, max: nat, id: string, now: int, coalesced: bool)
    requires After(steps, max).Some?
    ensures var s := After(steps, max).value;
      && (id in s.rows ==>
            var r := s.rows[id];
            && (r.status.Processing? <==> r.leaseOwner.Some?) && (r.status.Processing? <==> r.leaseUntil.Some?)
            && (r.leaseUntil.Some? && now < r.leaseUntil.value ==> !Claimable(r, now))
            && (r.status.DeadLetter? ==> !Claimable(r, now))
            && (r.status.Delivered? ==> !Claimable(r, now) && !Replayable(r))
            && (r.status.Pending? ==> (Claimable(r, now) <==> r.nextAttemptAt <= now))
            && (r.status.Processing? ==> (Claimable(r, now) <==> r.nextAttemptAt <= now && r.leaseUntil.value <= now)))
      && (Statistics(s.rows, coalesced) == NullError <==> s.enqueued == {} && !coalesced)
      && match Statistics(s.rows, coalesced)
         case Counted(n) => n.pending + n.processing + n.delivered + n.deadLetter == |s.enqueued|
         case NullError => true
  {
    InvHolds(steps, max);
    hide Next, AttemptsOk, UniqueEvents, EventIds, Statistics;
    CountersAddUp(After(steps, max).value.rows, coalesced);
  }

  /** The failure at its input: before the first event the SQLite statistics fail, where the
      Postgres ones count four zeros. */
  lemma EmptyStatistics()
    ensures After([], 5) == Some(INIT)
    ensures Statistics(INIT.rows, false) == NullError && Statistics(INIT.rows, true) == Counted(Stats(0, 0, 0, 0))
  {
    assert WithStatus(INIT.rows, Pending) == WithStatus(INIT.rows, Processing) == {};
    assert WithStatus(INIT.rows, Delivered) == WithStatus(INIT.rows, DeadLetter) == {};
  }

  // ---------------------------------------------------------------- attempts over a run

  lemma {:induction false} PrefixRuns(steps: seq<Step>, max: nat, n: nat)
    requires After(steps, max).Some? && n <= |steps|
    ensures After(steps[..n], max).Some?
    ensures n < |steps| ==> Enabled(After(steps[..n], max).value, steps[n])
    ensures n < |steps| ==> After(steps[..n + 1], max) == Some(Next(After(steps[..n], max).value, steps[n], max))
  {
    if n == |steps| {
      assert steps[..n] == steps;
      return;
    }
    var init := steps[..|steps| - 1];
    if n == |init| {
      assert steps[..n] == init && steps[..n + 1] == steps;
    } else {
      PrefixRuns(init, max, n);
      assert init[..n] == steps[..n] && init[..n + 1] == steps[..n + 1] && init[n] == steps[n];
    }
  }

  /** How often a run replays a row. */
  function Replays(steps: seq<Step>, id: string): nat {
    if steps == [] then 0
    else
      var step := steps[|steps| - 1];
      Replays(steps[..|steps| - 1], id) + if step.Replay? && step.id == id then 1 else 0
  }

  /** The epoch of a row is the number of its replays so far. */
  lemma {:induction false} EpochIs(steps: seq<Step>, max: nat, id: string)
    requires After(steps, max).Some?
    ensures var s := After(steps, max).value;
      if id in s.epochs then s.epochs[id] == Replays(steps, id) else Replays(steps, id) == 0
  {
    if steps != [] {
      EpochIs(steps[..|steps| - 1], max, id);
      InvHolds(steps[..|steps| - 1], max);
    }
    hide EventIds, UniqueEvents, AttemptsOk;
  }

  /** A claim takes the next attempt number of its row and hands it out with the row's epoch. */
  lemma ClaimHandsOut(steps: seq<Step>, max: nat, i: nat)
    requires After(steps, max).Some? && i < |steps| && steps[i].Claim?
    ensures After(steps[..i], max).Some? && After(steps[..i + 1], max).Some?
    ensures var id, s, u := steps[i].id, After(steps[..i], max).value, After(steps[..i + 1], max).value;
      && id in s.rows && id in u.rows && u.rows[id].attempts == s.rows[id].attempts + 1
      && u.tokens == s.tokens + {Token(id, Replays(steps[..i], id), u.rows[id].attempts)}
  {
    PrefixRuns(steps, max, i);
    EpochIs(steps[..i], max, steps[i].id);
    hide After, Replays;
  }

  lemma AttemptsStay(s: State, step: Step, max: nat, id: string)
    requires Enabled(s, step) && id in s.rows && !(step.Replay? && step.id == id)
    ensures id in Next(s, step, max).rows && Next(s, step, max).rows[id].attempts >= s.rows[id].attempts
  {
    hide EventIds;
  }

  /** The attempt count of a row in the state after `n` steps of a run. */
  ghost predicate AttemptsAre(steps: seq<Step>, max: nat, n: nat, id: string, attempts: nat)
    requires n <= |steps|
  {
    && After(steps[..n], max).Some? && id in After(steps[..n], max).value.rows
    && After(steps[..n], max).value.rows[id].attempts == attempts
  }

  lemma {:induction false} AttemptsGrow(
    steps: seq<Step>, max: nat, i: nat, j: nat, id: string, a: nat) returns (b: nat)
    requires After(steps, max).Some? && i <= j <= |steps| && AttemptsAre(steps, max, i, id, a)
    requires forall k | i <= k < j :: !(steps[k].Replay? && steps[k].id == id)
    ensures a <= b && AttemptsAre(steps, max, j, id, b)
    decreases j - i
  {
    hide After;
    if i == j {
      return a;
    }
    b := AttemptsGrow(steps, max, i, j - 1, id, a);
    PrefixRuns(steps, max, j - 1);
    var s := After(steps[..j - 1], max).value;
    AttemptsStay(s, steps[j - 1], max, id);
    b := Next(s, steps[j - 1], max).rows[id].attempts;
  }

  /** Between two replays every claim of a row receives a strictly larger attempt number. */
  lemma ClaimsIncrease(steps: seq<Step>, max: nat, i: nat, j: nat, id: string) returns (a: nat, b: nat)
    requires After(steps, max).Some? && i < j < |steps|
    requires steps[i].Claim? && steps[i].id == id && steps[j].Claim? && steps[j].id == id
    requires forall k | i < k < j :: !(steps[k].Replay? && steps[k].id == id)
    ensures a < b && AttemptsAre(steps, max, i + 1, id, a) && AttemptsAre(steps, max, j + 1, id, b)
  {
    ClaimHandsOut(steps, max, i);
    ClaimHandsOut(steps, max, j);
    hide After;
    a := After(steps[..i + 1], max).value.rows[id].attempts;
    b := AttemptsGrow(steps, max, i + 1, j, id, a);
    b := b + 1;
  }

  /** The dispatcher gives the claim up, by settling it or by dying. */
  predicate GivesUp(step: Step, t: Token) {
    (step.Settle? && step.token == t) || (step.Lose? && step.token == t)
  }

  lemma GivenUp(s: State, step: Step, max: nat, t: Token)
    requires AttemptsOk(s) && Enabled(s, step) && GivesUp(step, t)
    ensures t in s.tokens && Issued(Next(s, step, max), t) && t !in Next(s, step, max).tokens
  {
    IssuedStays(s, step, max, t);
    hide Issued;
  }

  lemma {:induction false} StaysGivenUp(steps: seq<Step>, max: nat, i: nat, j: nat, t: Token)
    requires After(steps, max).Some? && i < j <= |steps| && GivesUp(steps[i], t)
    ensures After(steps[..j], max).Some?
    ensures Issued(After(steps[..j], max).value, t) && t !in After(steps[..j], max).value.tokens
    decreases j
  {
    PrefixRuns(steps, max, j - 1);
    hide After, Issued, Next, Enabled, GivesUp, TableOk;
    var s := After(steps[..j - 1], max).value;
    InvHolds(steps[..j - 1], max);
    if j - 1 == i {
      GivenUp(s, steps[i], max, t);
    } else {
      StaysGivenUp(steps, max, i, j - 1, t);
      IssuedStays(s, steps[j - 1], max, t);
      TokenStaysSpent(s, steps[j - 1], max, t);
    }
  }

  /** In every run a claim is settled at most once, and never after the dispatcher has died. */
  lemma SettledOnce(steps: seq<Step>, max: nat, i: nat, j: nat, t: Token)
    requires After(steps, max).Some? && i < j < |steps| && GivesUp(steps[i], t)
    ensures !GivesUp(steps[j], t)
  {
    StaysGivenUp(steps, max, i, j, t);
    PrefixRuns(steps, max, j);
    hide After;
  }

  // ---------------------------------------------------------------- retries

  /** A settling step that came from a claim of the given epoch, failed, and left the row to be
      tried again. */
  predicate IsRetry(after: Option<State>, step: Step, row: string, epoch: nat) {
    && step.Settle? && step.token.row == row && step.token.epoch == epoch && step.outcome.Failure?
    && after.Some? && row in after.value.rows && after.value.rows[row].status.Pending?
  }

  /** The attempt numbers of a run's retry marks from one epoch's claims of a row. */
  function Retries(steps: seq<Step>, max: nat, row: string, epoch: nat): seq<nat> {
    if steps == [] then []
    else
      var step := steps[|steps| - 1];
      Retries(steps[..|steps| - 1], max, row, epoch) +
      if IsRetry(After(steps, max), step, row, epoch) then [step.token.attempt] else []
  }

  /** A retry mark used up its token and came before the last attempt. */
  predicate Spent(s: State, max: nat, t: Token) {
    Issued(s, t) && t !in s.tokens && (max > 0 ==> t.attempt < max)
  }

  lemma SpentStays(s: State, step: Step, max: nat, t: Token)
    requires Enabled(s, step) && Spent(s, max, t)
    ensures Spent(Next(s, step, max), max, t)
  {
    IssuedStays(s, step, max, t);
    TokenStaysSpent(s, step, max, t);
    hide Issued, Next;
  }

  lemma RetrySpends(s: State, step: Step, max: nat, row: string, epoch: nat)
    requires AttemptsOk(s) && Enabled(s, step) && IsRetry(Some(Next(s, step, max)), step, row, epoch)
    ensures step.token in s.tokens && Spent(Next(s, step, max), max, step.token)
  {
    IssuedStays(s, step, max, step.token);
    hide Issued;
  }

  lemma {:induction false} RetriesSpend(steps: seq<Step>, max: nat, row: string, epoch: nat)
    requires After(steps, max).Some?
    ensures var rs := Retries(steps, max, row, epoch);
      && (forall a | a in rs :: Spent(After(steps, max).value, max, Token(row, epoch, a)))
      && AllDifferent(rs)
  {
    if steps != [] {
      var init, step := steps[..|steps| - 1], steps[|steps| - 1];
      var s := After(init, max).value;
      RetriesSpend(init, max, row, epoch);
      InvHolds(init, max);
      hide Next, Enabled, TableOk, Spent, AttemptsOk;
      assert SpentOnes(s, max, row, epoch, Retries(init, max, row, epoch));
      forall a | a in Retries(init, max, row, epoch)
        ensures Spent(Next(s, step, max), max, Token(row, epoch, a)) && Token(row, epoch, a) !in s.tokens
      {
        SpentStays(s, step, max, Token(row, epoch, a));
        SpentIsGone(s, max, Token(row, epoch, a));
      }
      if IsRetry(After(steps, max), step, row, epoch) {
        RetrySpends(s, step, max, row, epoch);
      }
    }
  }

  predicate AllDifferent(s: seq<nat>) {
    forall i, j | 0 <= i < j < |s| :: s[i] != s[j]
  }

  ghost predicate SpentOnes(s: State, max: nat, row: string, epoch: nat, rs: seq<nat>) {
    forall a | a in rs :: Spent(s, max, Token(row, epoch, a))
  }

  lemma SpentIsGone(s: State, max: nat, t: Token)
    requires Spent(s, max, t)
    ensures t !in s.tokens
  {}

  /** Distinct numbers from 1 to n - 1 are at most n - 1 many. */
  lemma FewDistinct(s: seq<nat>, n: nat)
    requires n >= 1 && forall i | 0 <= i < |s| :: 1 <= s[i] < n
    requires AllDifferent(s)
    ensures |s| <= n - 1
  {
    DistinctSize(s);
    SubsetSize(set i | 0 <= i < |s| :: s[i], Below(n));
  }

  lemma {:induction false} DistinctSize(s: seq<nat>)
    requires forall i, j | 0 <= i < j < |s| :: s[i] != s[j]
    ensures |set i | 0 <= i < |s| :: s[i]| == |s|
  {
    if s != [] {
      var init := s[..|s| - 1];
      DistinctSize(init);
      assert (set i | 0 <= i < |s| :: s[i]) == (set i | 0 <= i < |init| :: init[i]) + {s[|s| - 1]};
    }
  }

  /** The numbers from 1 to n - 1. */
  ghost function Below(n: nat): (r: set<nat>)
    requires n >= 1
    ensures |r| == n - 1 && forall k: nat :: k in r <==> 1 <= k < n
  {
    if n == 1 then {} else Below(n - 1) + {n - 1}
  }

  lemma SubsetSize(a: set<nat>, b: set<nat>)
    requires a <= b
    ensures |a| <= |b|
  {
    assert |b| == |a| + |b - a| by { assert b == a + (b - a); }
  }

  /** At most max - 1 retry marks ever come from one epoch's claims of a row, however many
      dispatchers there are and however late they settle. */
  lemma RetriesBounded(steps: seq<Step>, max: nat, row: string, epoch: nat)
    requires After(steps, max).Some? && max >= 1
    ensures |Retries(steps, max, row, epoch)| <= max - 1
  {
    RetriesSpend(steps, max, row, epoch);
    var rs := Retries(steps, max, row, epoch);
    forall i | 0 <= i < |rs| ensures 1 <= rs[i] < max {
      assert rs[i] in rs;
    }
    hide Retries, After;
    FewDistinct(rs, max);
  }

  // ---------------------------------------------------------------- when a row may be claimed again

  /** The instant a step names for the next attempt on a row: a retry mark the one it was given, a
      replay its own. */
  function NamesDue(step: Step, id: string, max: nat): Option<int> {
    match step
    case Settle(token, Failure(at, _)) =>
      if token.row == id && !(max > 0 && token.attempt >= max) then Some(at) else None
    case Replay(row, now) => if row == id then Some(now) else None
    case _ => None
  }

  lemma DueNamed(s: State, step: Step, id: string, max: nat)
    requires Enabled(s, step) && id in s.rows
    ensures id in Next(s, step, max).rows
    ensures Next(s, step, max).rows[id].nextAttemptAt ==
            if NamesDue(step, id, max).Some? then NamesDue(step, id, max).value else s.rows[id].nextAttemptAt
  {
    hide EventIds;
  }

  lemma {:induction false} DueStays(steps: seq<Step>, max: nat, id: string, i: nat, j: nat)
    requires After(steps, max).Some? && i < j <= |steps| && NamesDue(steps[i], id, max).Some?
    requires forall k | i < k < j :: NamesDue(steps[k], id, max) == None
    requires After(steps[..i], max).Some? && id in After(steps[..i], max).value.rows
    ensures After(steps[..j], max).Some? && id in After(steps[..j], max).value.rows
    ensures After(steps[..j], max).value.rows[id].nextAttemptAt == NamesDue(steps[i], id, max).value
    decreases j
  {
    hide After, Next, Enabled, NamesDue;
    PrefixRuns(steps, max, j - 1);
    if j - 1 > i {
      DueStays(steps, max, id, i, j - 1);
    }
    DueNamed(After(steps[..j - 1], max).value, steps[j - 1], id, max);
  }

  /** In every run, no claim of a row comes before the instant that its last retry mark, or its last
      replay, named for it. */
  lemma NoEarlyClaim(steps: seq<Step>, max: nat, i: nat, j: nat, id: string)
    requires After(steps, max).Some? && i < j < |steps| && steps[j].Claim? && steps[j].id == id
    requires NamesDue(steps[i], id, max).Some? && forall k | i < k < j :: NamesDue(steps[k], id, max) == None
    ensures NamesDue(steps[i], id, max).value <= steps[j].now
  {
    PrefixRuns(steps, max, i);
    PrefixRuns(steps, max, j);
    NamedRowThere(After(steps[..i], max).value, steps[i], id, max);
    hide After;
    DueStays(steps, max, id, i, j);
  }

  lemma NamedRowThere(s: State, step: Step, id: string, max: nat)
    requires Enabled(s, step) && NamesDue(step, id, max).Some?
    ensures id in s.rows
  {}

  /** A step after which a row is leased no longer. */
  predicate Unleases(step: Step, id: string) {
    (step.Settle? && step.token.row == id) || (step.Replay? && step.id == id)
  }

  lemma LeaseKept(s: State, step: Step, id: string, until: int, max: nat)
    requires Enabled(s, step) && id in s.rows && s.rows[id].leaseUntil == Some(until) && !Unleases(step, id)
    requires step.Claim? && step.id == id ==> step.now < until
    ensures id in Next(s, step, max).rows && Next(s, step, max).rows[id].leaseUntil == Some(until)
  {
    hide EventIds;
  }

  lemma {:induction false} LeaseStays(steps: seq<Step>, max: nat, id: string, i: nat, j: nat)
    requires After(steps, max).Some? && i < j <= |steps| && steps[i].Claim? && steps[i].id == id
    requires forall k | i < k < j :: !Unleases(steps[k], id)
    requires forall k | i < k < j :: steps[k].Claim? && steps[k].id == id ==> steps[k].now < steps[i].leaseUntil
    ensures After(steps[..j], max).Some? && id in After(steps[..j], max).value.rows
    ensures After(steps[..j], max).value.rows[id].leaseUntil == Some(steps[i].leaseUntil)
    decreases j
  {
    PrefixRuns(steps, max, j - 1);
    hide After;
    if j - 1 > i {
      LeaseStays(steps, max, id, i, j - 1);
      LeaseKept(After(steps[..j - 1], max).value, steps[j - 1], id, steps[i].leaseUntil, max);
    }
  }

  /** A claim leases the row until the instant it gives: in every run, the next claim of the row
      before any mark or replay of it does not come earlier. */
  lemma ClaimLeases(steps: seq<Step>, max: nat, i: nat, j: nat, id: string)
    requires After(steps, max).Some? && i < j < |steps|
    requires steps[i].Claim? && steps[i].id == id && steps[j].Claim? && steps[j].id == id
    requires forall k | i < k < j :: !Unleases(steps[k], id) && !(steps[k].Claim? && steps[k].id == id)
    ensures steps[i].leaseUntil <= steps[j].now
  {
    LeaseStays(steps, max, id, i, j);
    PrefixRuns(steps, max, j);
    hide After;
  }

  // ---------------------------------------------------------------- one dispatcher, a receiver that always fails

  /** One undisturbed round on a row: claimed if due, then marked failed. */
  function FailedRound(r: Row, now: int, next: int, max: nat): Row {
    if !Claimable(r, now) then r
    else
      var c := Claimed(r, "dispatcher", now + 15_000_000_000);
      Settled(c, c.attempts, Failure(next, "unreachable"), max)
  }

  /** Rounds at the given instants, each naming the next attempt time it would set. */
  function FailedRounds(r: Row, rounds: seq<(int, int)>, max: nat): Row {
    if rounds == [] then r
    else
      var (now, next) := rounds[|rounds| - 1];
      FailedRound(FailedRounds(r, rounds[..|rounds| - 1], max), now, next, max)
  }

  /** How many of the rounds found the row due and sent it. */
  function Sends(r: Row, rounds: seq<(int, int)>, max: nat): nat {
    if rounds == [] then 0
    else
      var init := rounds[..|rounds| - 1];
      Sends(r, init, max) + if Claimable(FailedRounds(r, init, max), rounds[|rounds| - 1].0) then 1 else 0
  }

  /** The row is sent at most max times, and is a dead letter exactly from the max-th failure on. */
  lemma {:induction false} DeadAtMax(r: Row, rounds: seq<(int, int)>, max: nat)
    requires max >= 1 && r.status.Pending? && r.attempts == 0 && RowOk(r)
    ensures var n, q := Sends(r, rounds, max), FailedRounds(r, rounds, max);
      n <= max && q.attempts == n && (q.status == if n == max then DeadLetter else Pending)
  {
    if rounds != [] {
      DeadAtMax(r, rounds[..|rounds| - 1], max);
    }
  }

  /** Such a round is what ProcessOutbox does to each selected row. */
  lemma RoundIsDispatch(
    rows: Table, ids: seq<string>, now: int, answer: string -> Outcome, max: nat, id: string, next: int)
    requires id in rows && id in ids && Claimable(rows[id], now) && answer(id) == Failure(next, "unreachable")
    ensures Dispatched(rows, ids, "dispatcher", now + 15_000_000_000, answer, max)[id] ==
            FailedRound(rows[id], now, next, max)
  {}

  // ---------------------------------------------------------------- a dispatch round is a run

  lemma ThenOne(pre: seq<Step>, more: seq<Step>, step: Step, max: nat)
    ensures After(pre + (more + [step]), max) ==
            var p := After(pre + more, max);
            if p.None? || !Enabled(p.value, step) then None else Some(Next(p.value, step, max))
  {
    hide After;
    AfterOneMore(pre + more, step, max);
    assert pre + more + [step] == pre + (more + [step]);
  }

  /** The claims of `ids[..n]`. */
  function ClaimSteps(ids: seq<string>, n: nat, owner: string, now: int, leaseUntil: int): seq<Step>
    requires n <= |ids|
  {
    if n == 0 then []
    else ClaimSteps(ids, n - 1, owner, now, leaseUntil) + [Claim(ids[n - 1], owner, now, leaseUntil)]
  }

  /** The token a claim in this state hands out. */
  function TokenFor(s: State, id: string): Token
    requires id in s.rows && id in s.epochs
  {
    Token(id, s.epochs[id], s.rows[id].attempts + 1)
  }

  predicate Known(s: State, ids: seq<string>) {
    forall i | 0 <= i < |ids| :: ids[i] in s.rows && ids[i] in s.epochs
  }

  /** The settlements of `ids[..n]`, each with the token its claim handed out. */
  function SettleSteps(s: State, ids: seq<string>, n: nat, answer: string -> Outcome): seq<Step>
    requires n <= |ids| && Known(s, ids)
  {
    if n == 0 then []
    else SettleSteps(s, ids, n - 1, answer) + [Settle(TokenFor(s, ids[n - 1]), answer(ids[n - 1]))]
  }

  lemma AllKnown(s: State, now: int, limit: nat, ids: seq<string>)
    requires FirstDue(s.rows, now, limit, ids) && s.rows.Keys == s.epochs.Keys
    ensures Known(s, ids)
  {
    hide Earlier, Claimable;
  }

  /** The claims of `ids[..n]`, one after the other, are the set-based claim of them. */
  lemma {:induction false} ClaimsAreOneClaim(
    pre: seq<Step>, s: State, max: nat, now: int, limit: nat, ids: seq<string>, n: nat, owner: string, leaseUntil: int)
    requires After(pre, max) == Some(s) && FirstDue(s.rows, now, limit, ids) && n <= |ids| && Known(s, ids)
    ensures var r := After(pre + ClaimSteps(ids, n, owner, now, leaseUntil), max);
      && r.Some? && r.value.rows == ClaimAll(s.rows, ids[..n], owner, leaseUntil) && r.value.epochs == s.epochs
      && forall i | 0 <= i < n :: TokenFor(s, ids[i]) in r.value.tokens
  {
    hide After, FirstDue;
    if n > 0 {
      ClaimsAreOneClaim(pre, s, max, now, limit, ids, n - 1, owner, leaseUntil);
      NotYet(s.rows, now, limit, ids, n - 1);
      ClaimOneMore(s.rows, ids, n - 1, owner, leaseUntil);
      ThenOne(pre, ClaimSteps(ids, n - 1, owner, now, leaseUntil), Claim(ids[n - 1], owner, now, leaseUntil), max);
    } else {
      assert pre + [] == pre;
    }
  }

  predicate TokensLeft(s: State, u: State, ids: seq<string>, n: nat)
    requires Known(s, ids)
  {
    forall i | n <= i < |ids| :: TokenFor(s, ids[i]) in u.tokens
  }

  /** Settling the first `n` claimed rows of a round. */
  lemma {:induction false} SettlesAreARound(
    pre: seq<Step>, s: State, claimed: State, max: nat, now: int, limit: nat, ids: seq<string>, n: nat, owner: string,
    leaseUntil: int, answer: string -> Outcome)
    requires FirstDue(s.rows, now, limit, ids) && Known(s, ids) && n <= |ids|
    requires After(pre, max) == Some(claimed) && claimed.rows == ClaimAll(s.rows, ids, owner, leaseUntil)
    requires TokensLeft(s, claimed, ids, 0)
    ensures var r := After(pre + SettleSteps(s, ids, n, answer), max);
      && r.Some? && r.value.rows == SettledUpTo(s.rows, ids, n, owner, leaseUntil, answer, max)
      && TokensLeft(s, r.value, ids, n)
  {
    hide After, FirstDue, SettledUpTo, TokensLeft, Next, Enabled, ClaimAll;
    if n > 0 {
      SettlesAreARound(pre, s, claimed, max, now, limit, ids, n - 1, owner, leaseUntil, answer);
      var init := SettleSteps(s, ids, n - 1, answer);
      ThenOne(pre, init, Settle(TokenFor(s, ids[n - 1]), answer(ids[n - 1])), max);
      SettleMoves(s, After(pre + init, max).value, max, now, limit, ids, n - 1, owner, leaseUntil, answer);
    } else {
      SettledNone(s.rows, ids, owner, leaseUntil, answer, max);
      assert pre + [] == pre;
    }
  }

  lemma SettleMoves(
    s: State, u: State, max: nat, now: int, limit: nat, ids: seq<string>, n: nat, owner: string, leaseUntil: int,
    answer: string -> Outcome)
    requires FirstDue(s.rows, now, limit, ids) && Known(s, ids) && n < |ids| && TokensLeft(s, u, ids, n)
    requires u.rows == SettledUpTo(s.rows, ids, n, owner, leaseUntil, answer, max)
    ensures var step := Settle(TokenFor(s, ids[n]), answer(ids[n]));
      && Enabled(u, step) && TokensLeft(s, Next(u, step, max), ids, n + 1)
      && Next(u, step, max).rows == SettledUpTo(s.rows, ids, n + 1, owner, leaseUntil, answer, max)
  {
    NotYet(s.rows, now, limit, ids, n);
    SettleOneMore(s.rows, ids, n, owner, leaseUntil, answer, max);
    Others(s, now, limit, ids, n);
    hide Settled, FirstDue, Claimable, SettledUpTo;
  }

  lemma Others(s: State, now: int, limit: nat, ids: seq<string>, n: nat)
    requires FirstDue(s.rows, now, limit, ids) && n < |ids|
    ensures forall i | n < i < |ids| :: ids[i] != ids[n]
  {
    hide Due, Earlier;
  }

  /** What one dispatcher does in a round, as the store runs it, is a run of the protocol: every
      invariant of the protocol therefore holds before, during and after it. */
  lemma RoundIsRun(pre: seq<Step>, s: State, max: nat, now: int, limit: nat, ids: seq<string>, owner: string,
                   leaseUntil: int, answer: string -> Outcome)
    requires After(pre, max) == Some(s) && FirstDue(s.rows, now, limit, ids)
    ensures Known(s, ids)
    ensures var run := pre + ClaimSteps(ids, |ids|, owner, now, leaseUntil) + SettleSteps(s, ids, |ids|, answer);
      After(run, max).Some? && After(run, max).value.rows == Dispatched(s.rows, ids, owner, leaseUntil, answer, max)
  {
    InvHolds(pre, max);
    AllKnown(s, now, limit, ids);
    hide After, TableOk, AttemptsOk, FirstDue, SettledUpTo, Dispatched, ClaimAll;
    ClaimsAreOneClaim(pre, s, max, now, limit, ids, |ids|, owner, leaseUntil);
    assert ids[..|ids|] == ids;
    var mid := pre + ClaimSteps(ids, |ids|, owner, now, leaseUntil);
    SettlesAreARound(mid, s, After(mid, max).value, max, now, limit, ids, |ids|, owner, leaseUntil, answer);
    SettledAll(s.rows, ids, owner, leaseUntil, answer, max);
  }

  /** Two dispatchers claim one row in turn, the second after the first one's lease has expired. */
  lemma ClaimedTwice() returns (steps: seq<Step>, s: State)
    ensures After(steps, 5) == Some(s) && "a" in s.rows && Token("a", 0, 1) in s.tokens && Token("a", 0, 2) in s.tokens
  {
    var e1, e2, e3 := Enqueue("a", "event", 0, 0), Claim("a", "p", 0, 15), Claim("a", "q", 15, 30);
    AfterOneMore([], e1, 5);
    AfterOneMore([e1], e2, 5);
    AfterOneMore([e1, e2], e3, 5);
    AfterNothing(5);
    hide After;
    assert [] + [e1] == [e1] && [e1] + [e2] == [e1, e2] && [e1, e2] + [e3] == [e1, e2, e3];
    var s1 := Next(INIT, e1, 5);
    assert s1.rows == map["a" := NewRow("event", 0, 0)];
    var s2 := Next(s1, e2, 5);
    steps, s := [e1, e2, e3], Next(s2, e3, 5);
  }

  /** "Delivered" is not final: a dispatcher whose lease has expired fails late on a row another
      one has delivered, and the row is pending again. */
  lemma DeliveredIsNotFinal()
    ensures exists steps, late, s ::
      && After(steps, 5) == Some(s) && "a" in s.rows && s.rows["a"].status.Delivered?
      && Enabled(s, late) && Next(s, late, 5).rows["a"].status.Pending?
  {
    var steps, s3 := ClaimedTwice();
    var e4, late := Settle(Token("a", 0, 2), Success(16)), Settle(Token("a", 0, 1), Failure(20, "timeout"));
    AfterOneMore(steps, e4, 5);
    hide After;
    var s4 := Next(s3, e4, 5);
    assert After(steps + [e4], 5) == Some(s4);
    assert Enabled(s4, late) && Next(s4, late, 5).rows["a"].status.Pending?;
  }

  /** A step reopens a delivered row exactly when it is a late failure mark on it. */
  predicate Reopens(step: Step, id: string) {
    step.Settle? && step.token.row == id && step.outcome.Failure?
  }

  predicate IsDelivered(s: State, id: string) {
    id in s.rows && s.rows[id].status.Delivered?
  }

  lemma DeliveredStep(s: State, step: Step, max: nat, id: string)
    requires TableOk(s) && IsDelivered(s, id) && Enabled(s, step)
    ensures IsDelivered(Next(s, step, max), id) <==> !Reopens(step, id)
  {
    hide UniqueEvents, EventIds;
  }

  ghost predicate NoToken(s: State, id: string) {
    forall t | t in s.tokens :: t.row != id
  }

  /** A delivered row is not claimable, so no step gives out a token for it while it stays so. */
  lemma NoTokenStays(s: State, step: Step, max: nat, id: string)
    requires TableOk(s) && IsDelivered(s, id) && NoToken(s, id) && Enabled(s, step)
    ensures IsDelivered(Next(s, step, max), id) && NoToken(Next(s, step, max), id)
  {
    DeliveredStep(s, step, max, id);
    hide UniqueEvents, EventIds;
  }

  lemma {:induction false} NoTokenRun(steps: seq<Step>, more: seq<Step>, max: nat, id: string)
    requires After(steps, max).Some? && IsDelivered(After(steps, max).value, id) && NoToken(After(steps, max).value, id)
    requires After(steps + more, max).Some?
    ensures IsDelivered(After(steps + more, max).value, id) && NoToken(After(steps + more, max).value, id)
  {
    hide After, Next, Enabled, IsDelivered, NoToken, Inv;
    if more == [] {
      assert steps + more == steps;
    } else {
      var init, step := more[..|more| - 1], more[|more| - 1];
      assert more == init + [step];
      ThenOne(steps, init, step, max);
      NoTokenRun(steps, init, max, id);
      InvHolds(steps + init, max);
      TableOfInv(After(steps + init, max).value);
      NoTokenStays(After(steps + init, max).value, step, max, id);
    }
  }

  lemma TableOfInv(s: State)
    requires Inv(s)
    ensures TableOk(s)
  {}

  /** The exact condition: from a reachable state a delivered row stays delivered in every
      continuation if and only if no dispatcher still holds a claim of it. */
  lemma DeliveredStays(steps: seq<Step>, max: nat, id: string)
    requires After(steps, max).Some? && IsDelivered(After(steps, max).value, id)
    ensures (forall more :: After(steps + more, max).Some? ==> IsDelivered(After(steps + more, max).value, id)) <==>
            NoToken(After(steps, max).value, id)
  {
    hide After, Next, Enabled, IsDelivered, Inv;
    var s := After(steps, max).value;
    if NoToken(s, id) {
      forall more | After(steps + more, max).Some? ensures IsDelivered(After(steps + more, max).value, id) {
        NoTokenRun(steps, more, max, id);
      }
    } else {
      var t :| t in s.tokens && t.row == id;
      var late := Settle(t, Failure(0, "late"));
      LateFailure(s, t, max);
      InvHolds(steps, max);
      TableOfInv(s);
      DeliveredStep(s, late, max, id);
      AfterOneMore(steps, late, max);
    }
  }

  lemma LateFailure(s: State, t: Token, max: nat)
    requires t in s.tokens && IsDelivered(s, t.row)
    ensures Enabled(s, Settle(t, Failure(0, "late")))
  {}

  lemma AfterNothing(max: nat)
    ensures After([], max) == Some(INIT)
  {}
}
