/** What every statement of a schema sync keeps, stated on table values: the rows of other
    sources, row identities, lineage edges, and the agreement of tables and journal. */
module SyncInvariant {
  import opened Options
  import opened Catalog
  import opened Journal

  /** The columns of one object are the same in both tables. */
  ghost predicate SameColumns(t: Tables, u: Tables, owner: Id) {
    forall k: ColumnKey | k.owner == owner ::
      (k in t.columns <==> k in u.columns) && (k in t.columns ==> t.columns[k] == u.columns[k])
  }

  /** The lineage edges left are exactly those that touched nothing deleted. */
  ghost predicate EdgesExact(start: Tables, t: Tables) {
    forall e :: e in t.edges <==> e in start.edges && !Gone(start, t, e.src) && !Gone(start, t, e.dst)
  }

  /** Objects and columns of other sources are untouched. */
  ghost predicate OthersKept(source: string, start: Tables, t: Tables) {
    && (forall o | o in start.objects && start.objects[o].sourceId != source ::
          o in t.objects && t.objects[o] == start.objects[o] && SameColumns(start, t, o))
    && (forall o | o in t.objects && o !in start.objects :: t.objects[o].sourceId == source)
  }

  /** Surviving rows keep their identity, and new rows never reuse an old identifier. */
  ghost predicate IdentityKept(start: Tables, t: Tables) {
    && start.nextId <= t.nextId
    && (forall o | o in t.objects && o in start.objects ::
          t.objects[o].sourceId == start.objects[o].sourceId && t.objects[o].name == start.objects[o].name)
    && (forall o | o in t.objects && o !in start.objects :: start.nextId <= o)
    && (forall k | k in t.columns && k in start.columns ::
          t.columns[k].id == start.columns[k].id && t.columns[k].termId == start.columns[k].termId)
    && (forall k | k in t.columns && k !in start.columns ::
          start.nextId <= t.columns[k].id && t.columns[k].termId == None)
  }

  ghost predicate Progress(source: string, start: Tables, t: Tables) {
    && WellFormed(start) && WellFormed(t)
    && EdgesExact(start, t) && OthersKept(source, start, t) && IdentityKept(start, t)
  }

  lemma ProgressStarts(source: string, t: Tables)
    requires WellFormed(t)
    ensures Progress(source, t, t)
  {}

  // How each statement moves the set of live identifiers, and what that means for the edges.

  lemma EdgesAfterPut(start: Tables, t: Tables, u: Tables, id: Id)
    requires EdgesExact(start, t) && u.edges == t.edges
    requires LiveIds(u) == LiveIds(t) + {id} && (id in LiveIds(t) || id !in LiveIds(start))
    ensures EdgesExact(start, u)
  {}

  lemma EdgesAfterDelete(start: Tables, t: Tables, u: Tables, ids: set<Id>)
    requires EdgesExact(start, t) && LiveIds(u) == LiveIds(t) - ids && ids <= LiveIds(start)
    requires forall e :: e in u.edges <==> e in t.edges && e.src !in ids && e.dst !in ids
    ensures EdgesExact(start, u)
  {}

  lemma FreshIsNotLive(t: Tables, id: Id)
    requires WellFormed(t) && t.nextId <= id
    ensures id !in LiveIds(t)
  {}

  lemma LiveAfterPutColumn(t: Tables, k: ColumnKey, row: ColumnRow, n: Id)
    requires k in t.columns ==> t.columns[k].id == row.id
    ensures LiveIds(PutColumn(t, k, row, n)) == LiveIds(t) + {row.id}
  {
    var u := PutColumn(t, k, row, n);
    assert u.columns[k].id == row.id;
    forall id | id in LiveIds(t) ensures id in LiveIds(u) {
      if id !in t.objects {
        var l :| l in t.columns && t.columns[l].id == id;
        assert u.columns[l].id == id;
      }
    }
    forall id | id in LiveIds(u) && id != row.id ensures id in LiveIds(t) {
      if id !in t.objects {
        var l :| l in u.columns && u.columns[l].id == id;
        assert t.columns[l].id == id;
      }
    }
  }

  lemma LiveAfterDropColumn(t: Tables, k: ColumnKey)
    requires WellFormed(t) && k in t.columns
    ensures LiveIds(WithoutColumn(t, k)) == LiveIds(t) - {t.columns[k].id}
  {
    var u := WithoutColumn(t, k);
    forall id | id in LiveIds(t) && id != t.columns[k].id ensures id in LiveIds(u) {
      if id !in t.objects {
        var l :| l in t.columns && t.columns[l].id == id;
        assert l in u.columns && u.columns[l].id == id;
      }
    }
  }

  /** The identifiers of an object and of its columns. */
  ghost function IdsOf(t: Tables, o: Id): set<Id> {
    {o} + set k | k in t.columns && k.owner == o :: t.columns[k].id
  }

  lemma LiveAfterDropObject(t: Tables, o: Id)
    requires WellFormed(t) && o in t.objects
    ensures LiveIds(WithoutObject(t, o)) == LiveIds(t) - IdsOf(t, o)
  {
    var u := WithoutObject(t, o);
    forall id | id in LiveIds(t) && id !in IdsOf(t, o) ensures id in LiveIds(u) {
      if id !in t.objects {
        var l :| l in t.columns && t.columns[l].id == id;
        assert l in u.columns && u.columns[l].id == id;
      }
    }
    forall id | id in LiveIds(u) ensures id in LiveIds(t) && id !in IdsOf(t, o) {
      if id !in u.objects {
        var l :| l in u.columns && u.columns[l].id == id;
        assert t.columns[l].id == id;
      }
    }
  }

  lemma IdsOfSame(start: Tables, t: Tables, o: Id)
    requires o in start.objects && SameColumns(start, t, o)
    ensures IdsOf(t, o) <= LiveIds(start)
  {
    forall id | id in IdsOf(t, o) && id != o ensures id in LiveIds(start) {
      var k :| k in t.columns && k.owner == o && t.columns[k].id == id;
      assert k in start.columns && start.columns[k].id == id;
    }
  }

  // Each statement of the transaction keeps the invariant.

  function PutObject(t: Tables, id: Id, row: ObjectRow, n: Id): Tables {
    WithObject(t, id, row).(nextId := n)
  }

  function PutColumn(t: Tables, k: ColumnKey, row: ColumnRow, n: Id): Tables {
    WithColumn(t, k, row).(nextId := n)
  }

  /** An update keeps source and name; an insert uses the next identifier. */
  ghost predicate ObjectPut(source: string, t: Tables, id: Id, row: ObjectRow, n: Id) {
    && t.nextId <= n && id < n && row.sourceId == source
    && (id in t.objects ==> t.objects[id].sourceId == source && t.objects[id].name == row.name)
    && (id !in t.objects ==> id == t.nextId)
  }

  /** An update keeps identifier and term; an insert uses the next identifier and no term. */
  ghost predicate ColumnPut(source: string, start: Tables, t: Tables, k: ColumnKey, row: ColumnRow, n: Id) {
    && t.nextId <= n && row.id < n && k.owner in t.objects && t.objects[k.owner].sourceId == source
    && (k in t.columns ==> row.id == t.columns[k].id && row.termId == t.columns[k].termId)
    && (k !in t.columns ==> row.id == t.nextId && row.termId == None && k !in start.columns)
  }

  ghost predicate Droppable(source: string, start: Tables, t: Tables, o: Id) {
    o in t.objects && o in start.objects && t.objects[o].sourceId == source
  }

  /** The edges left once those at an object and at each of its columns are deleted. */
  ghost predicate EdgesClearOf(t: Tables, o: Id, edges: set<Edge>) {
    forall e :: e in edges <==> e in t.edges && e.src !in IdsOf(t, o) && e.dst !in IdsOf(t, o)
  }

  lemma WellFormedAfterPutObject(source: string, start: Tables, t: Tables, id: Id, row: ObjectRow, n: Id)
    requires WellFormed(t) && ObjectPut(source, t, id, row, n)
    ensures WellFormed(PutObject(t, id, row, n))
  {}

  lemma OthersAfterPutObject(source: string, start: Tables, t: Tables, id: Id, row: ObjectRow, n: Id)
    requires WellFormed(start) && WellFormed(t) && OthersKept(source, start, t) && IdentityKept(start, t) &&
      ObjectPut(source, t, id, row, n)
    ensures OthersKept(source, start, PutObject(t, id, row, n))
  {
    hide IdentityKept;
  }

  lemma IdentityAfterPutObject(source: string, start: Tables, t: Tables, id: Id, row: ObjectRow, n: Id)
    requires WellFormed(start) && WellFormed(t) && IdentityKept(start, t) && ObjectPut(source, t, id, row, n)
    ensures IdentityKept(start, PutObject(t, id, row, n))
  {}

  lemma WellFormedAfterPutColumn(source: string, start: Tables, t: Tables, k: ColumnKey, row: ColumnRow, n: Id)
    requires WellFormed(t) && ColumnPut(source, start, t, k, row, n)
    ensures WellFormed(PutColumn(t, k, row, n))
  {}

  lemma OthersAfterPutColumn(source: string, start: Tables, t: Tables, k: ColumnKey, row: ColumnRow, n: Id)
    requires WellFormed(start) && WellFormed(t) && OthersKept(source, start, t) && IdentityKept(start, t) &&
      ColumnPut(source, start, t, k, row, n)
    ensures OthersKept(source, start, PutColumn(t, k, row, n))
  {
    hide IdentityKept;
  }

  lemma IdentityAfterPutColumn(source: string, start: Tables, t: Tables, k: ColumnKey, row: ColumnRow, n: Id)
    requires WellFormed(start) && WellFormed(t) && IdentityKept(start, t) && ColumnPut(source, start, t, k, row, n)
    ensures IdentityKept(start, PutColumn(t, k, row, n))
  {}

  lemma WellFormedAfterDropColumn(source: string, start: Tables, t: Tables, k: ColumnKey)
    requires WellFormed(t) && k in t.columns && k in start.columns && Droppable(source, start, t, k.owner)
    ensures WellFormed(WithoutColumn(WithoutEdgesAt(t, t.columns[k].id), k))
  {}

  lemma OthersAfterDropColumn(source: string, start: Tables, t: Tables, k: ColumnKey)
    requires WellFormed(start) && WellFormed(t) && OthersKept(source, start, t) && IdentityKept(start, t) &&
      k in t.columns && k in start.columns && Droppable(source, start, t, k.owner)
    ensures OthersKept(source, start, WithoutColumn(WithoutEdgesAt(t, t.columns[k].id), k))
  {
    hide IdentityKept;
  }

  lemma IdentityAfterDropColumn(source: string, start: Tables, t: Tables, k: ColumnKey)
    requires WellFormed(start) && WellFormed(t) && IdentityKept(start, t) && k in t.columns && k in start.columns &&
      Droppable(source, start, t, k.owner)
    ensures IdentityKept(start, WithoutColumn(WithoutEdgesAt(t, t.columns[k].id), k))
  {}

  lemma WellFormedAfterDropObject(source: string, start: Tables, t: Tables, o: Id, edges: set<Edge>)
    requires WellFormed(t) && Droppable(source, start, t, o) && SameColumns(start, t, o) && EdgesClearOf(t, o, edges)
    ensures WellFormed(WithoutObject(t.(edges := edges), o))
  {}

  lemma OthersAfterDropObject(source: string, start: Tables, t: Tables, o: Id, edges: set<Edge>)
    requires WellFormed(start) && WellFormed(t) && OthersKept(source, start, t) && IdentityKept(start, t) &&
      Droppable(source, start, t, o) && SameColumns(start, t, o) && EdgesClearOf(t, o, edges)
    ensures OthersKept(source, start, WithoutObject(t.(edges := edges), o))
  {
    hide IdentityKept;
  }

  lemma IdentityAfterDropObject(source: string, start: Tables, t: Tables, o: Id, edges: set<Edge>)
    requires WellFormed(start) && WellFormed(t) && IdentityKept(start, t) && Droppable(source, start, t, o) &&
      SameColumns(start, t, o) && EdgesClearOf(t, o, edges)
    ensures IdentityKept(start, WithoutObject(t.(edges := edges), o))
  {}

  lemma ProgressAfterPutObject(source: string, start: Tables, t: Tables, id: Id, row: ObjectRow, n: Id)
    requires Progress(source, start, t) && ObjectPut(source, t, id, row, n)
    ensures Progress(source, start, PutObject(t, id, row, n))
  {
    var u := PutObject(t, id, row, n);
    WellFormedAfterPutObject(source, start, t, id, row, n);
    OthersAfterPutObject(source, start, t, id, row, n);
    IdentityAfterPutObject(source, start, t, id, row, n);
    FreshIsNotLive(start, t.nextId);
    hide WellFormed, OthersKept, IdentityKept, EdgesExact;
    assert LiveIds(u) == LiveIds(t) + {id};
    EdgesAfterPut(start, t, u, id);
  }

  lemma ProgressAfterPutColumn(source: string, start: Tables, t: Tables, k: ColumnKey, row: ColumnRow, n: Id)
    requires Progress(source, start, t) && ColumnPut(source, start, t, k, row, n)
    ensures Progress(source, start, PutColumn(t, k, row, n))
  {
    var u := PutColumn(t, k, row, n);
    WellFormedAfterPutColumn(source, start, t, k, row, n);
    OthersAfterPutColumn(source, start, t, k, row, n);
    IdentityAfterPutColumn(source, start, t, k, row, n);
    FreshIsNotLive(start, t.nextId);
    hide WellFormed, OthersKept, IdentityKept, EdgesExact;
    LiveAfterPutColumn(t, k, row, n);
    EdgesAfterPut(start, t, u, row.id);
  }

  lemma SameId(start: Tables, t: Tables, k: ColumnKey)
    requires IdentityKept(start, t) && k in t.columns && k in start.columns
    ensures t.columns[k].id == start.columns[k].id && t.columns[k].id in LiveIds(start)
  {}

  lemma SameLive(t: Tables, u: Tables)
    requires t.objects == u.objects && t.columns == u.columns
    ensures LiveIds(t) == LiveIds(u)
  {}

  lemma ProgressAfterDropColumn(source: string, start: Tables, t: Tables, k: ColumnKey)
    requires Progress(source, start, t) && k in t.columns && k in start.columns && Droppable(source, start, t, k.owner)
    ensures Progress(source, start, WithoutColumn(WithoutEdgesAt(t, t.columns[k].id), k))
  {
    WellFormedAfterDropColumn(source, start, t, k);
    OthersAfterDropColumn(source, start, t, k);
    IdentityAfterDropColumn(source, start, t, k);
    EdgesAfterDropColumn(start, t, k);
    hide WellFormed, OthersKept, IdentityKept, EdgesExact;
  }

  lemma EdgesAfterDropColumn(start: Tables, t: Tables, k: ColumnKey)
    requires WellFormed(t) && EdgesExact(start, t) && IdentityKept(start, t) && k in t.columns && k in start.columns
    ensures EdgesExact(start, WithoutColumn(WithoutEdgesAt(t, t.columns[k].id), k))
  {
    hide WellFormed, IdentityKept, EdgesExact, LiveIds;
    var u := WithoutColumn(WithoutEdgesAt(t, t.columns[k].id), k);
    var id := t.columns[k].id;
    SameId(start, t, k);
    LiveAfterDropColumn(t, k);
    SameLive(u, WithoutColumn(t, k));
    EdgesAfterDelete(start, t, u, {id});
  }

  lemma ProgressAfterDropObject(source: string, start: Tables, t: Tables, o: Id, edges: set<Edge>)
    requires Progress(source, start, t) && Droppable(source, start, t, o) && SameColumns(start, t, o) &&
      EdgesClearOf(t, o, edges)
    ensures Progress(source, start, WithoutObject(t.(edges := edges), o))
  {
    var u := WithoutObject(t.(edges := edges), o);
    WellFormedAfterDropObject(source, start, t, o, edges);
    OthersAfterDropObject(source, start, t, o, edges);
    IdentityAfterDropObject(source, start, t, o, edges);
    hide WellFormed, OthersKept, IdentityKept, EdgesExact;
    LiveAfterDropObject(t, o);
    assert LiveIds(u) == LiveIds(WithoutObject(t, o));
    IdsOfSame(start, t, o);
    EdgesAfterDelete(start, t, u, IdsOf(t, o));
  }

  // ---------------------------------------------------------------- journal agreement

  /** A record carries the true old value, and names an added or dropped object truly. */
  ghost predicate Truthful(source: string, start: Tables, t: Tables, c: Change) {
    && c.sourceId == source
    && (c.subject.TheColumn? ==> c.oldValue == SignatureNow(start, ColumnKey(c.objectId, c.subject.column)))
    && (c.kind.AddObject? ==>
          && c.oldValue == None && c.objectId in t.objects
          && c.newValue == Some(t.objects[c.objectId].kind) && c.subject.table == t.objects[c.objectId].name)
    && (c.kind.DropObject? ==>
          && c.newValue == None && c.objectId in start.objects
          && c.oldValue == Some(start.objects[c.objectId].kind) && c.subject.table == start.objects[c.objectId].name)
  }

  /** Replaying the records over the old catalogue is never refused and ends with the rows stored now. */
  ghost predicate Replays(start: Tables, t: Tables, cs: seq<Change>) {
    var r := Replay(ViewOf(start), cs);
    r.Some? && r.value.objects == t.objects.Keys && r.value.columns.Keys == t.columns.Keys
  }

  ghost predicate Journalled(source: string, start: Tables, t: Tables, cs: seq<Change>) {
    && NoneTwice(cs)
    && (forall c | c in cs :: Truthful(source, start, t, c))
    && Replays(start, t, cs)
  }

  ghost predicate Unmentioned(cs: seq<Change>, c: Change) {
    forall x | x in cs :: About(x) != About(c)
  }

  lemma JournalledStep(source: string, start: Tables, t: Tables, u: Tables, cs: seq<Change>, c: Change, w: View)
    requires Journalled(source, start, t, cs) && Unmentioned(cs, c)
    requires forall x | x in cs :: x.kind.AddObject? ==>
      x.objectId in u.objects && u.objects[x.objectId].kind == t.objects[x.objectId].kind &&
      u.objects[x.objectId].name == t.objects[x.objectId].name
    requires Truthful(source, start, u, c)
    requires Apply(Replay(ViewOf(start), cs).value, c) == Some(w)
    requires w.objects == u.objects.Keys && w.columns.Keys == u.columns.Keys
    ensures Journalled(source, start, u, cs + [c])
  {
    hide SignatureNow, Replay, Apply;
    ReplayOneMore(ViewOf(start), cs, c);
    forall i, j | 0 <= i < j < |cs + [c]| ensures About((cs + [c])[i]) != About((cs + [c])[j]) {
      if j == |cs| {
        assert cs[i] in cs;
      }
    }
  }

  lemma ViewAt(t: Tables, k: ColumnKey)
    ensures At(ViewOf(t), k) == SignatureNow(t, k) && (k.owner in ViewOf(t).objects <==> k.owner in t.objects)
  {
    hide StoredSignature;
  }

  /** In the replayed view a column not mentioned so far still has its old signature. */
  lemma ViewNow(source: string, start: Tables, t: Tables, cs: seq<Change>, k: ColumnKey)
    requires Journalled(source, start, t, cs) && k.owner in t.objects && forall x | x in cs :: !AboutColumn(x, k)
    ensures At(Replay(ViewOf(start), cs).value, k) == SignatureNow(start, k)
  {
    hide SignatureNow, ViewOf, Replay, NoneTwice, Truthful;
    ReplayObject(ViewOf(start), cs, k.owner);
    ReplayColumn(ViewOf(start), cs, k);
    ViewAt(start, k);
  }

  /** The recorded old value: the signature stored now, if the column is there. */
  function SignatureNow(t: Tables, k: ColumnKey): Option<string> {
    if k in t.columns then Some(StoredSignature(t.columns[k])) else None
  }

  lemma ApplyPutColumn(v: View, k: ColumnKey, c: Change)
    requires k.owner in v.objects && c.objectId == k.owner
    requires c.subject.TheColumn? && c.subject.column == k.name
    requires c.kind == if k in v.columns then AlterColumn else AddColumn
    requires c.oldValue == At(v, k) != c.newValue && c.newValue.Some?
    ensures Apply(v, c) == Some(v.(columns := v.columns[k := c.newValue.value]))
  {}

  lemma ApplyDropColumn(v: View, k: ColumnKey, c: Change)
    requires k.owner in v.objects && k in v.columns
    requires c.objectId == k.owner && c.kind.DropColumn? && c.subject.TheColumn? && c.subject.column == k.name
    requires c.oldValue == At(v, k) && c.newValue == None
    ensures Apply(v, c) == Some(v.(columns := v.columns - {k}))
  {}

  lemma ApplyDropObject(v: View, o: Id, c: Change)
    requires o in v.objects && c.objectId == o && c.kind.DropObject? && c.subject.TheObject?
    ensures Apply(v, c) == Some(View(v.objects - {o}, map k | k in v.columns && k.owner != o :: v.columns[k]))
  {}
}
