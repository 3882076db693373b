/** The sync lease as the program runs it: the lease table's statements and the service's
    methods over its in-flight set, each tied to the steps of the protocol in module SyncLease.
    Each method reads the clock where the program does. The store's comparison of a lease end with
    an instant is a parameter: of microseconds in Postgres, of text in SQLite (see module
    TextLease). */
module LeaseService {
  import opened Options
  import opened SyncLease

  function RowOf(rows: map<string, Lease>, source: string): Option<Lease> {
    if source in rows then Some(rows[source]) else None
  }

  /** Whether the store finds a lease end passed at an instant. */
  type Comparison = (int, int) -> bool

  /** The comparison errs by less than the doubt of the protocol's configuration. */
  ghost predicate WithinDoubt(c: Config, expired: Comparison) {
    forall until, now :: if expired(until, now) then MayExpire(c, until, now) else MayRun(c, until, now)
  }

  /** INSERT ... ON CONFLICT DO UPDATE ... WHERE the owner is the same or the lease has run out. */
  predicate Free(expired: Comparison, rows: map<string, Lease>, source: string, owner: string, now: int) {
    source !in rows || rows[source].owner == owner || expired(rows[source].until, now)
  }

  function WithoutOwned(rows: map<string, Lease>, source: string, owner: string): map<string, Lease> {
    if source in rows && rows[source].owner == owner then rows - {source} else rows
  }

  class LeaseTable {
    const expired: Comparison
    var rows: map<string, Lease>

    constructor (expired: Comparison)
      ensures this.expired == expired && rows == map[]
    {
      this.expired, rows := expired, map[];
    }

    method TryAcquire(source: string, owner: string, now: int, until: int, stamp: int) returns (acquired: bool)
      modifies this
      ensures acquired <==> Free(expired, old(rows), source, owner, now)
      ensures rows == if acquired then old(rows)[source := Lease(owner, until, stamp)] else old(rows)
    {
      if source !in rows {
        rows, acquired := rows[source := Lease(owner, until, stamp)], true;
      } else if rows[source].owner == owner || expired(rows[source].until, now) {
        rows, acquired := rows[source := rows[source].(owner := owner, until := until, updatedAt := stamp)], true;
      } else {
        acquired := false;
      }
    }

    method Renew(source: string, owner: string, until: int, stamp: int) returns (held: bool)
      modifies this
      ensures held <==> source in old(rows) && old(rows)[source].owner == owner
      ensures rows == if held then old(rows)[source := Lease(owner, until, stamp)] else old(rows)
    {
      held := source in rows && rows[source].owner == owner;
      if held {
        rows := rows[source := rows[source].(until := until, updatedAt := stamp)];
      }
    }

    method Release(source: string, owner: string)
      modifies this
      ensures rows == WithoutOwned(old(rows), source, owner)
    {
      if source in rows && rows[source].owner == owner {
        rows := rows - {source};
      }
    }

    method ForceRelease(source: string)
      modifies this
      ensures rows == old(rows) - {source}
    {
      rows := rows - {source};
    }
  }

  class SourceService {
    const owner: string
    const ttl: nat
    const staleAfter: int
    const table: LeaseTable
    var inFlight: set<string>

    constructor (owner: string, ttl: nat, staleAfter: int, table: LeaseTable)
      ensures this.owner == owner && this.ttl == ttl && this.staleAfter == staleAfter && this.table == table
      ensures inFlight == {}
    {
      this.owner, this.ttl, this.staleAfter, this.table := owner, ttl, staleAfter, table;
      inFlight := {};
    }

    /** A source already in flight here is refused even though the row would let its owner in. */
    method BeginSync(source: string, now: int, stamp: int) returns (started: bool)
      modifies this, table
      ensures started <==> source !in old(inFlight) && Free(table.expired, old(table.rows), source, owner, now)
      ensures inFlight == old(inFlight) + if started then {source} else {}
      ensures table.rows == if started then old(table.rows)[source := Lease(owner, now + ttl, stamp)]
                            else old(table.rows)
    {
      if source in inFlight {
        return false;
      }
      inFlight := inFlight + {source};
      started := table.TryAcquire(source, owner, now, now + ttl, stamp);
      if !started {
        inFlight := inFlight - {source};
      }
    }

    method EndSync(source: string)
      modifies this, table
      ensures inFlight == old(inFlight) - {source} && table.rows == WithoutOwned(old(table.rows), source, owner)
    {
      inFlight := inFlight - {source};
      table.Release(source, owner);
    }

    /** One tick of the renewal loop; losing the lease is ignored. */
    method RenewalTick(source: string, now: int, stamp: int)
      modifies table
      ensures table.rows == if source in old(table.rows) && old(table.rows)[source].owner == owner
                            then old(table.rows)[source := Lease(owner, now + ttl, stamp)] else old(table.rows)
    {
      var held := table.Renew(source, owner, now + ttl, stamp);
    }

    method SyncLeaseOwned(source: string, now: int) returns (owned: bool)
      ensures owned <==> source in table.rows && table.rows[source].owner == owner && now < table.rows[source].until
    {
      if source !in table.rows {
        return false;
      }
      var lease := table.rows[source];
      if lease.owner != owner {
        return false;
      }
      owned := lease.until > now;
    }

    /** `source` is trimmed already. A non-positive bound falls back to the configured one, and
        that to twenty seconds. */
    method ForceReleaseStaleSyncLease(source: string, staleAfter: int, now: int) returns (ok: bool)
      modifies table
      ensures var bound := StaleBound(staleAfter, this.staleAfter);
        ok <==> source != "" && (source in old(table.rows) ==> now - old(table.rows)[source].updatedAt >= bound)
      ensures table.rows == if ok then old(table.rows) - {source} else old(table.rows)
    {
      if source == "" {
        return false;
      }
      var bound := if staleAfter <= 0 then this.staleAfter else staleAfter;
      if bound <= 0 {
        bound := 20_000_000_000;
      }
      if source !in table.rows {
        return true;
      }
      if now - table.rows[source].updatedAt < bound {
        return false;
      }
      table.ForceRelease(source);
      ok := true;
    }
  }

  /** The bound asked for, else the configured one, else twenty seconds. */
  function StaleBound(asked: int, configured: int): (r: int)
    ensures r > 0
    ensures r == asked || (asked <= 0 && (r == configured || (configured <= 0 && r == 20_000_000_000)))
  {
    if asked > 0 then asked else if configured > 0 then configured else 20_000_000_000
  }

  // ---------------------------------------------------------------- the methods are protocol steps

  /** A state of the protocol shows one source: its row, and which processes have it in flight. */
  ghost predicate Shows(s: State, source: string, rows: map<string, Lease>, process: string, inFlight: set<string>) {
    s.row == RowOf(rows, source) && (process in s.inFlight <==> source in inFlight)
  }

  /** beginSync, with its three steps at one instant: it starts exactly when the steps end in a
      session inside a sync, and leaves the row and the in-flight set that they leave. */
  lemma BeginSyncIsSteps(
    c: Config, s: State, id: nat, p: string, source: string, rows: map<string, Lease>, inFlight: set<string>,
    expired: Comparison)
    requires c.Valid() && WithinDoubt(c, expired) && Shows(s, source, rows, p, inFlight)
    requires id !in s.sessions && source !in inFlight
    ensures Enabled(c, s, Begin(id, p))
    ensures var s1 := Next(c, s, Begin(id, p)); Enabled(c, s1, ReadClock(id))
    ensures var s2 := Next(c, Next(c, s, Begin(id, p)), ReadClock(id));
      var lapsed := source in rows && expired(rows[source].until, s.clock);
      var started := Free(expired, rows, source, p, s.clock);
      && Enabled(c, s2, Acquire(id, lapsed))
      && var t := Next(c, s2, Acquire(id, lapsed));
         && (started <==> id in t.sessions && t.sessions[id] == Session(p, Syncing(s.clock + c.ttl)))
         && Shows(t, source,
                  if started then rows[source := Lease(p, s.clock + c.ttl, Stamp(c, s.clock))] else rows,
                  p, inFlight + if started then {source} else {})
  {
    var s1 := Next(c, s, Begin(id, p));
    var s2 := Next(c, s1, ReadClock(id));
    assert s2.sessions[id] == Session(p, Acquiring(s.clock)) && s2.row == s.row;
  }

  /** endSync and a renewal tick, each at one instant. */
  lemma EndAndRenewAreSteps(
    c: Config, s: State, id: nat, p: string, source: string, rows: map<string, Lease>, inFlight: set<string>)
    requires c.Valid() && c.gapless && Shows(s, source, rows, p, inFlight)
    requires id in s.sessions && s.sessions[id].process == p && s.sessions[id].phase.Syncing?
    ensures Shows(Next(c, s, End(id)), source, WithoutOwned(rows, source, p), p, inFlight - {source})
    ensures Shows(Next(c, s, Renew(id, s.clock)), source,
                  if source in rows && rows[source].owner == p
                  then rows[source := Lease(p, s.clock + c.ttl, Stamp(c, s.clock))] else rows, p, inFlight)
  {}

  /** A forced release that finds a row and succeeds is the protocol's step. */
  lemma ForceReleaseIsStep(
    c: Config, s: State, p: string, source: string, rows: map<string, Lease>, inFlight: set<string>)
    requires c.Valid() && c.checked && Shows(s, source, rows, p, inFlight)
    requires source in rows && s.clock - rows[source].updatedAt >= c.staleAfter
    ensures Enabled(c, s, ForceRelease) && Shows(Next(c, s, ForceRelease), source, rows - {source}, p, inFlight)
  {}

  /** The two halves of an endSync, run without anything between them, are the one step. */
  lemma HalvesMakeAnEnd(c: Config, d: Config, s: State, id: nat)
    requires c.Valid() && !c.gapless && d == c.(gapless := true)
    ensures Enabled(c, s, EndLocal(id)) <==> Enabled(d, s, End(id))
    ensures Enabled(c, s, EndLocal(id)) ==>
      var half := Next(c, s, EndLocal(id));
      Enabled(c, half, EndRow(id)) && Next(c, half, EndRow(id)) == Next(d, s, End(id))
  {
    if Enabled(c, s, EndLocal(id)) {
      var half := Next(c, s, EndLocal(id));
      assert half.sessions - {id} == s.sessions - {id};
    }
  }

  /** The first half must come first: no session can delete its row that could still renew it. */
  lemma RowGoesLast(c: Config, s: State, id: nat, now: int)
    requires c.Valid()
    ensures !(Enabled(c, s, EndRow(id)) && (Enabled(c, s, EndLocal(id)) || Enabled(c, s, Renew(id, now))))
    ensures Enabled(c, s, EndRow(id)) ==> !Active(s, id)
  {}

  /** So are the two halves of a forced release. */
  lemma HalvesMakeARelease(c: Config, d: Config, s: State)
    requires c.Valid() && !c.checked && d == c.(checked := true)
    ensures Enabled(c, s, ForceCheck) <==> Enabled(d, s, ForceRelease)
    ensures Enabled(c, s, ForceCheck) ==>
      var half := Next(c, s, ForceCheck);
      Enabled(c, half, ForceDelete) && Next(c, half, ForceDelete) == Next(d, s, ForceRelease)
  {}

  /** An exact comparison errs by nothing, and no other one does. */
  lemma ExactWithinDoubt(c: Config, expired: Comparison)
    ensures WithinDoubt(c, (until: int, now: int) => until <= now)
    ensures c.doubt == 0 && WithinDoubt(c, expired) ==> forall until, now :: expired(until, now) <==> until <= now
  {}
}
