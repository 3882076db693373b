/** The governance outbox table: rows, the statements on them, the claim loop, and the retry
    delay. Instants are integers (nanoseconds); how SQLite's text comparison approximates them
    is the subject of module Timestamps. */
module Outbox {
  import opened Options

  datatype Status = Pending | Processing | Delivered | DeadLetter

  datatype Row = Row(
    eventId: string, status: Status, attempts: nat, nextAttemptAt: int, leaseOwner: Option<string>,
    leaseUntil: Option<int>, lastError: Option<string>, deliveredAt: Option<int>, createdAt: int)

  type Table = map<string, Row>

  // ---------------------------------------------------------------- statements on one row

  predicate Claimable(r: Row, now: int) {
    && (r.status.Pending? || r.status.Processing?)
    && r.nextAttemptAt <= now
    && (r.leaseUntil.None? || r.leaseUntil.value <= now)
  }

  function Claimed(r: Row, owner: string, leaseUntil: int): Row {
    r.(status := Processing, attempts := r.attempts + 1, leaseOwner := Some(owner), leaseUntil := Some(leaseUntil))
  }

  function MarkedDelivered(r: Row, deliveredAt: int): Row {
    r.(status := Delivered, deliveredAt := Some(deliveredAt), leaseOwner := None, leaseUntil := None, lastError := None)
  }

  function MarkedRetry(r: Row, nextAttemptAt: int, error: string): Row {
    r.(status := Pending, nextAttemptAt := nextAttemptAt, leaseOwner := None, leaseUntil := None,
       lastError := Some(error))
  }

  function MarkedDeadLetter(r: Row, error: string): Row {
    r.(status := DeadLetter, leaseOwner := None, leaseUntil := None, lastError := Some(error))
  }

  predicate Replayable(r: Row) {
    r.status.DeadLetter? || r.lastError.Some?
  }

  function Replayed(r: Row, nextAttemptAt: int): Row {
    r.(status := Pending, attempts := 0, nextAttemptAt := nextAttemptAt, leaseOwner := None, leaseUntil := None,
       lastError := None, deliveredAt := None)
  }

  function NewRow(eventId: string, now: int, createdAt: int): Row {
    Row(eventId, Pending, 0, now, None, None, None, None, createdAt)
  }

  // ---------------------------------------------------------------- which rows a claim takes

  /** ORDER BY next_attempt_at, created_at. */
  predicate Earlier(r: Row, s: Row) {
    r.nextAttemptAt < s.nextAttemptAt || (r.nextAttemptAt == s.nextAttemptAt && r.createdAt < s.createdAt)
  }

  function Due(rows: Table, now: int): set<string> {
    set id | id in rows && Claimable(rows[id], now)
  }

  /** The first `limit` due rows, in order; ties may be broken either way. */
  ghost predicate FirstDue(rows: Table, now: int, limit: nat, ids: seq<string>) {
    && (forall i | 0 <= i < |ids| :: ids[i] in Due(rows, now))
    && (forall i, j | 0 <= i < j < |ids| :: ids[i] != ids[j] && !Earlier(rows[ids[j]], rows[ids[i]]))
    && |ids| == (if limit <= |Due(rows, now)| then limit else |Due(rows, now)|)
    && (forall id, i | id in Due(rows, now) && id !in ids && 0 <= i < |ids| :: !Earlier(rows[id], rows[ids[i]]))
  }

  /** The selection, field by field: rows waiting or claimed whose attempt is due and whose lease,
      if any, has ended; oldest attempt first, then oldest row; and none passed over unless the
      limit is reached with rows no younger. */
  lemma FirstDueMeans(rows: Table, now: int, limit: nat, ids: seq<string>)
    requires FirstDue(rows, now, limit, ids)
    ensures |ids| <= limit && forall i, j | 0 <= i < j < |ids| :: ids[i] != ids[j]
    ensures forall id | id in ids ::
      && id in rows && (rows[id].status == Pending || rows[id].status == Processing)
      && rows[id].nextAttemptAt <= now && (rows[id].leaseUntil.Some? ==> rows[id].leaseUntil.value <= now)
    ensures forall i, j | 0 <= i < j < |ids| ::
      && rows[ids[i]].nextAttemptAt <= rows[ids[j]].nextAttemptAt
      && (rows[ids[i]].nextAttemptAt == rows[ids[j]].nextAttemptAt ==> rows[ids[i]].createdAt <= rows[ids[j]].createdAt)
    ensures forall id | id in rows && id !in ids ::
      && (rows[id].status == Pending || rows[id].status == Processing)
      && rows[id].nextAttemptAt <= now && (rows[id].leaseUntil.Some? ==> rows[id].leaseUntil.value <= now) ==>
        |ids| == limit && NoneYounger(rows, ids, id)
  {
    forall i | 0 <= i < |ids| ensures ids[i] in Due(rows, now) {}
    forall id | id in Due(rows, now) && id !in ids ensures |ids| == limit {
      Passed(rows, now, limit, ids, id);
    }
  }

  /** No selected row is younger than a row passed over. */
  ghost predicate NoneYounger(rows: Table, ids: seq<string>, id: string)
    requires id in rows && forall x | x in ids :: x in rows
  {
    forall i | 0 <= i < |ids| ::
      var r, q := rows[ids[i]], rows[id];
      r.nextAttemptAt < q.nextAttemptAt || (r.nextAttemptAt == q.nextAttemptAt && r.createdAt <= q.createdAt)
  }

  lemma Passed(rows: Table, now: int, limit: nat, ids: seq<string>, id: string)
    requires FirstDue(rows, now, limit, ids) && id in Due(rows, now) && id !in ids
    ensures |ids| == limit
  {
    hide Due, Earlier;
    if |ids| != limit {
      AllOf(ids, Due(rows, now) - {id});
    }
  }

  lemma {:induction false} AllOf(ids: seq<string>, s: set<string>)
    requires (forall i | 0 <= i < |ids| :: ids[i] in s) && forall i, j | 0 <= i < j < |ids| :: ids[i] != ids[j]
    ensures |ids| <= |s|
  {
    if ids != [] {
      AllOf(ids[..|ids| - 1], s - {ids[|ids| - 1]});
    }
  }

  /** The set-based claim: one UPDATE over the selected rows. */
  function ClaimAll(rows: Table, ids: seq<string>, owner: string, leaseUntil: int): Table {
    map id | id in rows :: if id in ids then Claimed(rows[id], owner, leaseUntil) else rows[id]
  }

  ghost predicate NoTies(rows: Table, now: int) {
    forall a, b | a in Due(rows, now) && b in Due(rows, now) && a != b ::
      Earlier(rows[a], rows[b]) || Earlier(rows[b], rows[a])
  }

  /** Where one selection differs from another first, neither row is earlier. */
  lemma FirstDifference(rows: Table, now: int, limit: nat, s: seq<string>, t: seq<string>, i: nat)
    requires FirstDue(rows, now, limit, s) && FirstDue(rows, now, limit, t)
    requires i < |s| && i < |t| && s[..i] == t[..i] && s[i] != t[i]
    ensures !Earlier(rows[t[i]], rows[s[i]])
  {
    hide Due, Earlier;
    forall j | 0 <= j < i ensures s[j] == t[j] {
      assert s[..i][j] == t[..i][j];
    }
    if t[i] in s {
      var j :| 0 <= j < |s| && s[j] == t[i];
    }
  }

  /** Without ties the selection is unique, so both stores claim the same rows in the same order. */
  lemma {:induction false} FirstDueUnique(rows: Table, now: int, limit: nat, s: seq<string>, t: seq<string>, i: nat)
    requires FirstDue(rows, now, limit, s) && FirstDue(rows, now, limit, t) && NoTies(rows, now)
    requires i <= |s| == |t|
    ensures s[..i] == t[..i]
  {
    if i > 0 {
      FirstDueUnique(rows, now, limit, s, t, i - 1);
      if s[i - 1] != t[i - 1] {
        FirstDifference(rows, now, limit, s, t, i - 1);
        FirstDifference(rows, now, limit, t, s, i - 1);
        hide Due, Earlier;
        assert false;
      }
      assert s[..i] == s[..i - 1] + [s[i - 1]] && t[..i] == t[..i - 1] + [t[i - 1]];
    }
  }

  /** Inserts an id into a list ordered by due time. */
  function InsertDue(rows: Table, ids: seq<string>, id: string): (r: seq<string>)
    requires id in rows && forall x | x in ids :: x in rows
    ensures |r| == |ids| + 1 && forall x :: x in r <==> x in ids || x == id
  {
    if ids == [] || Earlier(rows[id], rows[ids[0]]) then [id] + ids
    else
      assert ids == [ids[0]] + ids[1..];
      [ids[0]] + InsertDue(rows, ids[1..], id)
  }

  ghost predicate DueOrder(rows: Table, ids: seq<string>) {
    && (forall x | x in ids :: x in rows)
    && (forall i, j | 0 <= i < j < |ids| :: ids[i] != ids[j] && !Earlier(rows[ids[j]], rows[ids[i]]))
  }

  lemma {:induction false} InsertDueOrdered(rows: Table, ids: seq<string>, id: string)
    requires DueOrder(rows, ids) && id in rows && id !in ids
    ensures DueOrder(rows, InsertDue(rows, ids, id))
  {
    if ids != [] && !Earlier(rows[id], rows[ids[0]]) {
      InsertDueOrdered(rows, ids[1..], id);
      var r := InsertDue(rows, ids[1..], id);
      forall j | 0 <= j < |r| ensures r[j] != ids[0] && !Earlier(rows[r[j]], rows[ids[0]]) {
        assert r[j] in r;
        if r[j] != id {
          var k :| 0 <= k < |ids[1..]| && ids[1..][k] == r[j];
          assert ids[k + 1] == r[j];
        }
      }
      hide Earlier;
    }
  }

  // ---------------------------------------------------------------- the retry delay

  newtype Duration = x: int | -0x8000_0000_0000_0000 <= x < 0x8000_0000_0000_0000

  const SECOND: Duration := 1_000_000_000
  const MAX_DELAY: Duration := 300_000_000_000

  function Pow2(n: nat): nat {
    if n == 0 then 1 else 2 * Pow2(n - 1)
  }

  function Min(a: int, b: int): int {
    if a < b then a else b
  }

  /** The specified delay: base * 2^(attempt - 1), capped from the second attempt on. */
  function DelaySpec(base: int, attempt: int): int {
    var d := if base <= 0 then SECOND as int else base;
    if attempt <= 1 then d else Min(d * Pow2(attempt - 1), MAX_DELAY as int)
  }

  /** Two's-complement wrap-around to 64 bits. */
  function Wrapped(x: int): Duration {
    var low := x % 0x1_0000_0000_0000_0000;
    (if low < 0x8000_0000_0000_0000 then low else low - 0x1_0000_0000_0000_0000) as Duration
  }

  /** Bases that may be doubled once without overflow. */
  const SAFE_BASE: Duration := 0x4000_0000_0000_0000

  /** Doubling with early exit, in 64-bit arithmetic that wraps around. Below 2^62 no doubling
      overflows and the result is the specified one; from there on the first doubling does. */
  method RetryDelay(base: Duration, attempt: int) returns (delay: Duration)
    ensures attempt <= 1 || base < SAFE_BASE ==>
      && delay as int == DelaySpec(base as int, attempt)
      && 0 < delay && (delay <= MAX_DELAY || (delay == base && attempt <= 1))
    ensures attempt == 2 ==> (delay as int == DelaySpec(base as int, attempt) <==> base < SAFE_BASE)
    ensures attempt == 2 && base >= SAFE_BASE ==> delay < 0
  {
    var n := if attempt < 1 then 1 else attempt;
    delay := if base <= 0 then SECOND else base;
    ghost var d := delay as int;
    var i := 1;
    while i < n
      invariant 1 <= i <= n && (i == 1 ==> delay as int == d)
      invariant base < SAFE_BASE ==> 0 < delay && (delay < MAX_DELAY || i == 1) && delay as int == d * Pow2(i - 1)
      invariant base >= SAFE_BASE && i == 2 ==> delay < 0
      invariant delay < MAX_DELAY || i == 1
    {
      DoublingStep(d, i);
      delay := Wrapped(delay as int * 2);
      i := i + 1;
      if delay >= MAX_DELAY {
        Pow2Monotone(i - 1, n - 1);
        ScaleUp(d, Pow2(i - 1), Pow2(n - 1));
        delay := MAX_DELAY;
        return;
      }
    }
  }

  lemma DoublingStep(d: int, i: int)
    requires i >= 1
    ensures d * Pow2(i) == d * Pow2(i - 1) * 2
  {
    assert Pow2(i) == 2 * Pow2(i - 1);
  }

  lemma ScaleUp(d: int, a: int, b: int)
    requires d >= 0 && a <= b
    ensures d * a <= d * b
  {}

  lemma {:induction false} Pow2Monotone(m: nat, n: nat)
    requires m <= n
    ensures 1 <= Pow2(m) <= Pow2(n)
  {
    if m < n {
      Pow2Monotone(m, n - 1);
    } else if n > 0 {
      Pow2Monotone(m - 1, n - 1);
    }
  }

  /** Without a positive base the delay starts from one second. */
  lemma DelayDefault(base: int, attempt: int)
    requires base <= 0
    ensures DelaySpec(base, attempt) == DelaySpec(1_000_000_000, attempt)
  {}

  /** For a base within the cap: the plain capped power, never decreasing. */
  lemma DelayMonotone(base: int, a: int, b: int)
    requires 0 < base <= MAX_DELAY as int && 1 <= a <= b
    ensures DelaySpec(base, a) == Min(base * Pow2(a - 1), 300_000_000_000)
    ensures DelaySpec(base, a) <= DelaySpec(base, b)
  {
    Pow2Monotone(a - 1, b - 1);
    ScaleUp(base, Pow2(a - 1), Pow2(b - 1));
    assert Pow2(0) == 1;
  }
}
