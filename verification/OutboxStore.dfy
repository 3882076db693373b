/** The outbox store and dispatcher as they run: the claim loop against the set-based claim,
    the mark statements, and one dispatch round. */
module OutboxStore {
  import opened Options
  import opened Outbox

  /** The receiver's answer for one event, unreadable payloads included. */
  datatype Outcome = Success(deliveredAt: int) | Failure(nextAttemptAt: int, error: string)

  /** What a dispatcher does to the row in the table, given the attempt count it was claimed with. */
  function Settled(r: Row, attempt: nat, outcome: Outcome, maxAttempts: nat): Row {
    match outcome
    case Success(at) => MarkedDelivered(r, at)
    case Failure(at, error) =>
      if maxAttempts > 0 && attempt >= maxAttempts then MarkedDeadLetter(r, error) else MarkedRetry(r, at, error)
  }

  /** One dispatch round: the selected rows are claimed and then settled, the others untouched. */
  function Dispatched(rows: Table, ids: seq<string>, owner: string, leaseUntil: int,
                      answer: string -> Outcome, maxAttempts: nat): Table
  {
    map id | id in rows ::
      if id in ids then
        var c := Claimed(rows[id], owner, leaseUntil);
        Settled(c, c.attempts, answer(id), maxAttempts)
      else rows[id]
  }

  datatype Stats = Stats(pending: nat, processing: nat, delivered: nat, deadLetter: nat)
  datatype StatsResult = Counted(stats: Stats) | NullError

  function WithStatus(rows: Table, s: Status): set<string> {
    set id | id in rows && rows[id].status == s
  }

  function EventIds(rows: Table): set<string> {
    set id | id in rows :: rows[id].eventId
  }

  ghost predicate UniqueEvents(rows: Table) {
    forall a, b | a in rows && b in rows && rows[a].eventId == rows[b].eventId :: a == b
  }

  lemma FirstOfOrdered(rows: Table, now: int, limit: nat, all: seq<string>, ids: seq<string>)
    requires DueOrder(rows, all) && |all| == |Due(rows, now)| && forall id :: id in all <==> id in Due(rows, now)
    requires ids == all[..if limit <= |all| then limit else |all|]
    ensures FirstDue(rows, now, limit, ids)
  {
    hide Due, Earlier;
    forall i | 0 <= i < |ids| ensures ids[i] in Due(rows, now) {
      assert all[i] in all;
    }
    forall id, i | id in Due(rows, now) && id !in ids && 0 <= i < |ids| ensures !Earlier(rows[id], rows[ids[i]]) {
      var j :| 0 <= j < |all| && all[j] == id;
      assert forall k | 0 <= k < |ids| :: ids[k] == all[k];
    }
  }

  lemma NotYet(rows: Table, now: int, limit: nat, ids: seq<string>, i: nat)
    requires FirstDue(rows, now, limit, ids) && i < |ids|
    ensures ids[i] !in ids[..i] && ids[i] in rows && Claimable(rows[ids[i]], now)
  {}

  lemma ClaimNone(rows: Table, ids: seq<string>, owner: string, leaseUntil: int)
    ensures ClaimAll(rows, ids[..0], owner, leaseUntil) == rows
  {}

  lemma ClaimOneMore(rows: Table, ids: seq<string>, i: nat, owner: string, leaseUntil: int)
    requires i < |ids| && ids[i] in rows && ids[i] !in ids[..i]
    ensures ClaimAll(rows, ids[..i + 1], owner, leaseUntil)
         == ClaimAll(rows, ids[..i], owner, leaseUntil)[ids[i] := Claimed(rows[ids[i]], owner, leaseUntil)]
    ensures var t := ClaimAll(rows, ids[..i], owner, leaseUntil); ids[i] in t && t[ids[i]] == rows[ids[i]]
  {
    assert ids[..i + 1] == ids[..i] + [ids[i]];
  }

  class Store {
    var rows: Table

    constructor ()
      ensures rows == map[]
    {
      rows := map[];
    }

    /** INSERT OR IGNORE: an event id (or row id) already there inserts nothing. */
    method Enqueue(id: string, eventId: string, now: int, createdAt: int) returns (inserted: bool)
      modifies this
      ensures inserted <==> id !in old(rows) && eventId !in EventIds(old(rows))
      ensures rows == if inserted then old(rows)[id := NewRow(eventId, now, createdAt)] else old(rows)
      ensures inserted ==> rows[id] == Row(eventId, Pending, 0, now, None, None, None, None, createdAt)
    {
      inserted := id !in rows && eventId !in EventIds(rows);
      if inserted {
        rows := rows[id := NewRow(eventId, now, createdAt)];
      }
    }

    /** The SELECT of the claim. */
    method SelectDue(now: int, limit: nat) returns (ids: seq<string>)
      ensures FirstDue(rows, now, limit, ids)
    {
      var due := Due(rows, now);
      var left, all := due, [];
      while left != {}
        invariant left <= due && DueOrder(rows, all) && |all| + |left| == |due|
        invariant forall id :: id in all <==> id in due && id !in left
        decreases |left|
      {
        var id :| id in left;
        InsertDueOrdered(rows, all, id);
        all := InsertDue(rows, all, id);
        left := left - {id};
      }
      ids := all[..if limit <= |all| then limit else |all|];
      FirstOfOrdered(rows, now, limit, all, ids);
    }

    /** The SQLite claim: select, then one guarded UPDATE per selected row. It equals the
        set-based claim, and every guarded UPDATE hits its row. */
    method Claim(owner: string, now: int, leaseUntil: int, limit: int) returns (ids: seq<string>, claimed: seq<Row>)
      modifies this
      ensures FirstDue(old(rows), now, if limit <= 0 then 1 else limit, ids)
      ensures rows == ClaimAll(old(rows), ids, owner, leaseUntil)
      ensures forall id | id in ids ::
        id in old(rows) && id in rows && rows[id] == old(rows)[id].(
          status := Processing, attempts := old(rows)[id].attempts + 1,
          leaseOwner := Some(owner), leaseUntil := Some(leaseUntil))
      ensures rows.Keys == old(rows).Keys && forall id | id in rows && id !in ids :: rows[id] == old(rows)[id]
      ensures |claimed| == |ids|
      ensures forall i | 0 <= i < |ids| ::
        ids[i] in old(rows) && claimed[i] == Claimed(old(rows)[ids[i]], owner, leaseUntil)
    {
      hide FirstDue, ClaimAll, Due;
      ids := SelectDue(now, if limit <= 0 then 1 else limit);
      claimed := [];
      ClaimNone(rows, ids, owner, leaseUntil);
      for i := 0 to |ids|
        invariant rows == ClaimAll(old(rows), ids[..i], owner, leaseUntil)
        invariant |claimed| == i
        invariant forall j | 0 <= j < i ::
          ids[j] in old(rows) && claimed[j] == Claimed(old(rows)[ids[j]], owner, leaseUntil)
      {
        var id := ids[i];
        NotYet(old(rows), now, if limit <= 0 then 1 else limit, ids, i);
        ClaimOneMore(old(rows), ids, i, owner, leaseUntil);
        if id !in rows || !Claimable(rows[id], now) {
          assert false;
          continue;
        }
        rows := rows[id := Claimed(rows[id], owner, leaseUntil)];
        claimed := claimed + [rows[id]];
      }
      assert ids[..|ids|] == ids;
      ClaimedFields(old(rows), now, if limit <= 0 then 1 else limit, ids, owner, leaseUntil);
    }

    /** A mark is an UPDATE by id: it needs no lease and no particular status. */
    method Mark(id: string, attempt: nat, outcome: Outcome, maxAttempts: nat)
      modifies this
      ensures rows == if id in old(rows) then old(rows)[id := Settled(old(rows)[id], attempt, outcome, maxAttempts)]
                      else old(rows)
      ensures id in old(rows) ==> match outcome
        case Success(at) => rows[id] == old(rows)[id].(
          status := Status.Delivered, deliveredAt := Some(at),
          leaseOwner := None, leaseUntil := None, lastError := None)
        case Failure(at, error) =>
          if maxAttempts > 0 && attempt >= maxAttempts then
            rows[id] == old(rows)[id].(
              status := DeadLetter, leaseOwner := None, leaseUntil := None, lastError := Some(error))
          else
            rows[id] == old(rows)[id].(
              status := Pending, nextAttemptAt := at, leaseOwner := None, leaseUntil := None, lastError := Some(error))
    {
      if id in rows {
        match outcome
        case Success(at) => rows := rows[id := MarkedDelivered(rows[id], at)];
        case Failure(at, error) =>
          if maxAttempts > 0 && attempt >= maxAttempts {
            rows := rows[id := MarkedDeadLetter(rows[id], error)];
          } else {
            rows := rows[id := MarkedRetry(rows[id], at, error)];
          }
      }
    }

    method Replay(id: string, now: int) returns (ok: bool)
      modifies this
      ensures ok <==> id in old(rows) && Replayable(old(rows)[id])
      ensures rows == if ok then old(rows)[id := Replayed(old(rows)[id], now)] else old(rows)
      ensures ok ==> (old(rows)[id].status == DeadLetter || old(rows)[id].lastError.Some?)
      ensures id in old(rows) && (old(rows)[id].status == DeadLetter || old(rows)[id].lastError.Some?) ==> ok
      ensures ok ==> rows[id] == old(rows)[id].(
        status := Pending, attempts := 0, nextAttemptAt := now, leaseOwner := None, leaseUntil := None,
        lastError := None, deliveredAt := None)
    {
      ok := id in rows && Replayable(rows[id]);
      if ok {
        rows := rows[id := Replayed(rows[id], now)];
      }
    }

    /** ProcessOutbox by one undisturbed dispatcher: claim, then settle row by row. */
    method ProcessOutbox(
      owner: string, now: int, leaseUntil: int, limit: int, answer: string -> Outcome, maxAttempts: nat)
      returns (ids: seq<string>)
      modifies this
      ensures FirstDue(old(rows), now, if limit <= 0 then 1 else limit, ids)
      ensures rows == Dispatched(old(rows), ids, owner, leaseUntil, answer, maxAttempts)
      ensures rows.Keys == old(rows).Keys && forall id | id in rows && id !in ids :: rows[id] == old(rows)[id]
      ensures forall id | id in ids ::
        id in old(rows) && id in rows && RoundResult(old(rows)[id], rows[id], answer(id), maxAttempts)
    {
      hide Due, Claimable, Settled, FirstDue, SettledUpTo, Dispatched, ClaimAll;
      var claimed;
      ids, claimed := Claim(owner, now, leaseUntil, limit);
      SettledNone(old(rows), ids, owner, leaseUntil, answer, maxAttempts);
      for i := 0 to |ids|
        invariant rows == SettledUpTo(old(rows), ids, i, owner, leaseUntil, answer, maxAttempts)
      {
        NotYet(old(rows), now, if limit <= 0 then 1 else limit, ids, i);
        SettleOneMore(old(rows), ids, i, owner, leaseUntil, answer, maxAttempts);
        Mark(ids[i], claimed[i].attempts, answer(ids[i]), maxAttempts);
      }
      SettledAll(old(rows), ids, owner, leaseUntil, answer, maxAttempts);
      DispatchedFields(old(rows), now, if limit <= 0 then 1 else limit, ids, owner, leaseUntil, answer, maxAttempts);
    }
  }

  /** What a round does to a selected row, field by field. A row that failed below the maximum can
      be claimed again from the instant named for it on, and not before. */
  ghost predicate RoundResult(r: Row, q: Row, outcome: Outcome, maxAttempts: nat) {
    match outcome
    case Success(at) =>
      q == r.(status := Status.Delivered, attempts := r.attempts + 1, deliveredAt := Some(at),
              leaseOwner := None, leaseUntil := None, lastError := None)
    case Failure(at, error) =>
      if maxAttempts > 0 && r.attempts + 1 >= maxAttempts then
        q == r.(status := DeadLetter, attempts := r.attempts + 1, leaseOwner := None, leaseUntil := None,
                lastError := Some(error))
      else
        && q == r.(status := Pending, attempts := r.attempts + 1, nextAttemptAt := at, leaseOwner := None,
                   leaseUntil := None, lastError := Some(error))
        && forall now :: Claimable(q, now) <==> at <= now
  }

  lemma ClaimedFields(rows: Table, now: int, limit: nat, ids: seq<string>, owner: string, leaseUntil: int)
    requires FirstDue(rows, now, limit, ids)
    ensures var t := ClaimAll(rows, ids, owner, leaseUntil);
      && t.Keys == rows.Keys && (forall id | id in t && id !in ids :: t[id] == rows[id])
      && forall id | id in ids ::
           id in rows && t[id] == rows[id].(
             status := Processing, attempts := rows[id].attempts + 1,
             leaseOwner := Some(owner), leaseUntil := Some(leaseUntil))
  {
    FirstDueMeans(rows, now, limit, ids);
    hide FirstDue;
  }

  lemma DispatchedFields(
    rows: Table, now: int, limit: nat, ids: seq<string>, owner: string, leaseUntil: int, answer: string -> Outcome,
    maxAttempts: nat)
    requires FirstDue(rows, now, limit, ids)
    ensures var t := Dispatched(rows, ids, owner, leaseUntil, answer, maxAttempts);
      && t.Keys == rows.Keys && (forall id | id in t && id !in ids :: t[id] == rows[id])
      && forall id | id in ids :: id in rows && RoundResult(rows[id], t[id], answer(id), maxAttempts)
  {
    FirstDueMeans(rows, now, limit, ids);
    hide FirstDue;
  }

  /** Halfway through a round: all selected rows are claimed, the first `n` settled. */
  function SettledUpTo(rows: Table, ids: seq<string>, n: nat, owner: string, leaseUntil: int,
                       answer: string -> Outcome, maxAttempts: nat): Table
    requires n <= |ids|
  {
    map id | id in rows ::
      if id in ids[..n]
      then Settled(Claimed(rows[id], owner, leaseUntil), rows[id].attempts + 1, answer(id), maxAttempts)
      else if id in ids then Claimed(rows[id], owner, leaseUntil) else rows[id]
  }

  lemma SettledNone(
    rows: Table, ids: seq<string>, owner: string, leaseUntil: int, answer: string -> Outcome, maxAttempts: nat)
    ensures SettledUpTo(rows, ids, 0, owner, leaseUntil, answer, maxAttempts) == ClaimAll(rows, ids, owner, leaseUntil)
  {}

  lemma SettledAll(
    rows: Table, ids: seq<string>, owner: string, leaseUntil: int, answer: string -> Outcome, maxAttempts: nat)
    ensures SettledUpTo(rows, ids, |ids|, owner, leaseUntil, answer, maxAttempts)
         == Dispatched(rows, ids, owner, leaseUntil, answer, maxAttempts)
  {
    assert ids[..|ids|] == ids;
  }

  lemma SettleOneMore(rows: Table, ids: seq<string>, n: nat, owner: string, leaseUntil: int,
                      answer: string -> Outcome, maxAttempts: nat)
    requires n < |ids| && ids[n] in rows && ids[n] !in ids[..n]
    ensures var t := SettledUpTo(rows, ids, n, owner, leaseUntil, answer, maxAttempts);
      ids[n] in t && SettledUpTo(rows, ids, n + 1, owner, leaseUntil, answer, maxAttempts)
      == t[ids[n] := Settled(t[ids[n]], rows[ids[n]].attempts + 1, answer(ids[n]), maxAttempts)]
  {
    hide Settled;
    assert ids[..n + 1] == ids[..n] + [ids[n]];
  }

  /** The status counters. In SQLite, SUM over an empty table is NULL, which does not scan into
      a number; Postgres coalesces it to zero. */
  function Statistics(rows: Table, coalesced: bool): StatsResult {
    if rows == map[] && !coalesced then NullError
    else Counted(Stats(|WithStatus(rows, Pending)|, |WithStatus(rows, Processing)|,
                       |WithStatus(rows, Delivered)|, |WithStatus(rows, DeadLetter)|))
  }

  lemma DisjointSize(a: set<string>, b: set<string>)
    requires a !! b
    ensures |a + b| == |a| + |b|
  {}

  /** The four counters add up to the number of rows, and that is the number of event ids. */
  lemma CountersAddUp(rows: Table, coalesced: bool)
    requires UniqueEvents(rows)
    ensures Statistics(rows, coalesced) == NullError <==> EventIds(rows) == {} && !coalesced
    ensures match Statistics(rows, coalesced)
            case Counted(n) => n.pending + n.processing + n.delivered + n.deadLetter == |EventIds(rows)|
            case NullError => true
    ensures match Statistics(rows, coalesced)
            case Counted(n) =>
              && n.pending == |set id | id in rows && rows[id].status.Pending?|
              && n.processing == |set id | id in rows && rows[id].status.Processing?|
              && n.delivered == |set id | id in rows && rows[id].status.Delivered?|
              && n.deadLetter == |set id | id in rows && rows[id].status.DeadLetter?|
            case NullError => true
  {
    var p, q := WithStatus(rows, Pending), WithStatus(rows, Processing);
    var d, x := WithStatus(rows, Delivered), WithStatus(rows, DeadLetter);
    assert p == set id | id in rows && rows[id].status.Pending?;
    assert q == set id | id in rows && rows[id].status.Processing?;
    assert d == set id | id in rows && rows[id].status.Delivered?;
    assert x == set id | id in rows && rows[id].status.DeadLetter?;
    hide WithStatus, UniqueEvents;
    StatusesSum(rows);
    EventPerRow(rows, rows.Keys);
    assert EventIds(rows) == set id | id in rows.Keys :: rows[id].eventId;
  }

  lemma StatusesSum(rows: Table)
    ensures |WithStatus(rows, Pending)| + |WithStatus(rows, Processing)| + |WithStatus(rows, Delivered)|
            + |WithStatus(rows, DeadLetter)| == |rows.Keys|
  {
    var p, q := WithStatus(rows, Pending), WithStatus(rows, Processing);
    var d, x := WithStatus(rows, Delivered), WithStatus(rows, DeadLetter);
    StatusPartition(rows);
    hide WithStatus;
    DisjointSize(p, q);
    DisjointSize(p + q, d);
    DisjointSize(p + q + d, x);
  }

  lemma StatusPartition(rows: Table)
    ensures var p, q := WithStatus(rows, Pending), WithStatus(rows, Processing);
      var d, x := WithStatus(rows, Delivered), WithStatus(rows, DeadLetter);
      rows.Keys == p + q + d + x && p !! q && (p + q) !! d && (p + q + d) !! x
  {}

  lemma {:induction false} EventPerRow(rows: Table, ids: set<string>)
    requires UniqueEvents(rows) && ids <= rows.Keys
    ensures |set id | id in ids :: rows[id].eventId| == |ids|
    decreases |ids|
  {
    if ids != {} {
      var a :| a in ids;
      EventPerRow(rows, ids - {a});
      var events := set id | id in ids - {a} :: rows[id].eventId;
      assert (set id | id in ids :: rows[id].eventId) == events + {rows[a].eventId};
    }
  }
}
