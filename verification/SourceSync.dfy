/** The whole of a schema sync: load, reconcile every scanned object, drop the rest, commit. */
module SourceSync {
  import opened Options
  import opened Catalog
  import opened Journal
  import opened SyncInvariant
  import opened SyncSteps
  import opened SchemaSync

  function KeyOf(row: ObjectRow): string { ObjectKey(row.schema, row.name) }

  function ScanKey(obj: ScannedObject): string { ObjectKey(obj.schema, obj.name) }

  ghost predicate OfSource(t: Tables, source: string, o: Id) {
    o in t.objects && t.objects[o].sourceId == source
  }

  /** The store holds no two objects of the source under one key. */
  ghost predicate StoreKeysDistinct(t: Tables, source: string) {
    forall o, p | OfSource(t, source, o) && OfSource(t, source, p) && KeyOf(t.objects[o]) == KeyOf(t.objects[p]) ::
      o == p
  }

  ghost predicate ScanKeysDistinct(scan: seq<ScannedObject>) {
    forall i, j | 0 <= i < j < |scan| :: ScanKey(scan[i]) != ScanKey(scan[j])
  }

  // ---------------------------------------------------------------- loading

  function ColumnMap(t: Tables, o: Id): (m: map<string, ColumnRow>)
    ensures Indexes(t, o, m)
  {
    var m := map k | k in t.columns && k.owner == o :: k.name := t.columns[k];
    assert forall n: string :: ColumnKey(o, n) in t.columns ==> ColumnKey(o, n).name in m;
    m
  }

  /** The two in-memory maps as loaded from the tables. */
  ghost predicate Loaded(
    t: Tables, source: string, objects: map<string, Entry>, columns: map<Id, map<string, ColumnRow>>)
  {
    && (forall key | key in objects ::
          && OfSource(t, source, objects[key].id) && t.objects[objects[key].id] == objects[key].row
          && KeyOf(objects[key].row) == key)
    && (forall o | OfSource(t, source, o) ::
          && KeyOf(t.objects[o]) in objects && objects[KeyOf(t.objects[o])].id == o
          && o in columns && Indexes(t, o, columns[o]))
    && (forall o | o in columns :: o in t.objects)
  }

  /** Loading, after the objects in `done`. */
  ghost predicate LoadedSome(
    t: Tables, source: string, objects: map<string, Entry>, columns: map<Id, map<string, ColumnRow>>, done: set<Id>)
  {
    && (forall key | key in objects ::
          && OfSource(t, source, objects[key].id) && t.objects[objects[key].id] == objects[key].row
          && KeyOf(objects[key].row) == key)
    && (forall o | o in done ::
          && o in t.objects && KeyOf(t.objects[o]) in objects && objects[KeyOf(t.objects[o])].id == o
          && o in columns && Indexes(t, o, columns[o]))
    && (forall o | o in columns :: o in t.objects)
  }

  lemma LoadOneMore(
    t: Tables, source: string, objects: map<string, Entry>, columns: map<Id, map<string, ColumnRow>>, done: set<Id>,
    o: Id)
    requires LoadedSome(t, source, objects, columns, done) && OfSource(t, source, o) && StoreKeysDistinct(t, source)
    requires forall x | x in done :: OfSource(t, source, x)
    ensures LoadedSome(t, source, objects[KeyOf(t.objects[o]) := Entry(o, t.objects[o])],
                       columns[o := ColumnMap(t, o)], done + {o})
  {
    hide Indexes, KeyOf;
    var m := ColumnMap(t, o);
    hide ColumnMap;
  }

  method Load(t: Tables, source: string) returns (objects: map<string, Entry>, columns: map<Id, map<string, ColumnRow>>)
    requires StoreKeysDistinct(t, source)
    ensures Loaded(t, source, objects, columns)
  {
    hide Indexes, KeyOf, LoadedSome, ColumnMap, StoreKeysDistinct;
    objects, columns := map[], map[];
    var rows := set o | o in t.objects && t.objects[o].sourceId == source;
    var left := rows;
    LoadNothing(t, source);
    assert rows - left == {};
    while left != {}
      invariant left <= rows && LoadedSome(t, source, objects, columns, rows - left)
      decreases |left|
    {
      var o :| o in left;
      LoadOneMore(t, source, objects, columns, rows - left, o);
      objects := objects[KeyOf(t.objects[o]) := Entry(o, t.objects[o])];
      columns := columns[o := ColumnMap(t, o)];
      assert rows - (left - {o}) == rows - left + {o};
      left := left - {o};
    }
    assert rows - left == rows;
    LoadDone(t, source, objects, columns);
  }

  lemma LoadNothing(t: Tables, source: string)
    ensures LoadedSome(t, source, map[], map[], {})
  {}

  lemma LoadDone(t: Tables, source: string, objects: map<string, Entry>, columns: map<Id, map<string, ColumnRow>>)
    requires LoadedSome(t, source, objects, columns, set o | o in t.objects && t.objects[o].sourceId == source)
    ensures Loaded(t, source, objects, columns)
  {
    hide Indexes, KeyOf;
  }

  // ---------------------------------------------------------------- the loop over scanned objects, on values

  function Lookup(objects: map<string, Entry>, key: string): Option<Entry> {
    if key in objects then Some(objects[key]) else None
  }

  /** After `n` scanned objects, each is synced under its own identifier; the rest is as at the start. */
  ghost predicate ObjectsSynced(
    b: Backend, start: Tables, t: Tables, source: string, objects: map<string, Entry>,
    scan: seq<ScannedObject>, n: nat, ids: seq<Id>)
    requires n <= |scan|
  {
    && |ids| == n
    && (forall j | 0 <= j < n :: ObjectSynced(b, start, t, source, ids[j], scan[j]))
    && (forall j | 0 <= j < n :: Chosen(start, objects, ScanKey(scan[j]), ids[j]))
    && (forall j, l | 0 <= j < l < n :: ids[j] != ids[l])
    && (forall o | o in start.objects && o !in ids ::
          o in t.objects && t.objects[o] == start.objects[o] && SameColumns(start, t, o))
    && (forall o | o in t.objects && o !in start.objects :: o in ids)
  }

  /** The identifier a key resolves to: the stored one, or a new one. */
  ghost predicate Chosen(start: Tables, objects: map<string, Entry>, key: string, o: Id) {
    if key in objects then o == objects[key].id else o !in start.objects
  }

  lemma SyncedUnderFrame(b: Backend, start: Tables, t: Tables, u: Tables, source: string, o: Id, obj: ScannedObject)
    requires ObjectSynced(b, start, t, source, o, obj)
    requires o in u.objects && u.objects[o] == t.objects[o] && SameColumns(t, u, o)
    ensures ObjectSynced(b, start, u, source, o, obj)
  {
    hide Merged, NewColumn, Refreshed, NewObject, Named;
    forall j | 0 <= j < |obj.columns| ensures Written(b, start, u, ColumnKey(o, obj.columns[j].name), obj.columns[j]) {
      assert Written(b, start, t, ColumnKey(o, obj.columns[j].name), obj.columns[j]);
    }
  }

  /** The object the next key resolves to has not been touched. */
  lemma NextIsUntouched(
    b: Backend, start: Tables, t: Tables, source: string, objects: map<string, Entry>,
    columns: map<Id, map<string, ColumnRow>>, scan: seq<ScannedObject>, n: nat, ids: seq<Id>, cs: seq<Change>)
    requires n < |scan| && Loaded(start, source, objects, columns) && ScanKeysDistinct(scan)
    requires Progress(source, start, t) && ObjectsSynced(b, start, t, source, objects, scan, n, ids)
    requires forall c | c in cs :: c.objectId in ids
    ensures Looked(source, start, t, cs, Lookup(objects, ScanKey(scan[n])), columns)
    ensures ScanKey(scan[n]) in objects ==> objects[ScanKey(scan[n])].id !in ids
  {
    hide ObjectSynced, EdgesExact, OthersKept, Indexes, KeyOf;
    var key := ScanKey(scan[n]);
    if key in objects {
      var o := objects[key].id;
      forall j | 0 <= j < n ensures ids[j] != o {
        assert Chosen(start, objects, ScanKey(scan[j]), ids[j]);
      }
      SameIndexes(start, t, o, columns[o]);
    } else {
      SyncedBelow(b, start, t, source, objects, scan, n, ids);
    }
  }

  lemma SyncedBelow(
    b: Backend, start: Tables, t: Tables, source: string, objects: map<string, Entry>,
    scan: seq<ScannedObject>, n: nat, ids: seq<Id>)
    requires n <= |scan| && WellFormed(t) && ObjectsSynced(b, start, t, source, objects, scan, n, ids)
    ensures forall o | o in ids :: o < t.nextId
  {
    hide ColumnsAsScanned;
    forall o | o in ids ensures o < t.nextId {
      var j :| 0 <= j < n && ids[j] == o;
      assert ObjectSynced(b, start, t, source, ids[j], scan[j]);
    }
  }

  lemma SameIndexes(start: Tables, t: Tables, o: Id, m: map<string, ColumnRow>)
    requires SameColumns(start, t, o) && Indexes(start, o, m)
    ensures ColumnsLoaded(start, t, o, m)
  {}

  lemma ObjectsNext(
    b: Backend, start: Tables, t: Tables, u: Tables, source: string, objects: map<string, Entry>,
    scan: seq<ScannedObject>, n: nat, ids: seq<Id>, o: Id)
    requires n < |scan| && ObjectsSynced(b, start, t, source, objects, scan, n, ids)
    requires ObjectSynced(b, start, u, source, o, scan[n]) && OnlyObject(o, t, u)
    requires Chosen(start, objects, ScanKey(scan[n]), o) && o !in ids
    ensures ObjectsSynced(b, start, u, source, objects, scan, n + 1, ids + [o])
  {
    hide Chosen, ObjectSynced, SameColumns, ScanKey;
    var next := ids + [o];
    forall x | x != o ensures SameColumns(t, u, x) {
      OthersSameColumns(t, u, o, x);
    }
    forall j | 0 <= j < n + 1 ensures ObjectSynced(b, start, u, source, next[j], scan[j]) {
      if j < n {
        assert ids[j] in ids;
        assert ObjectSynced(b, start, t, source, ids[j], scan[j]);
        ObjectThere(b, start, t, source, ids[j], scan[j]);
        SyncedUnderFrame(b, start, t, u, source, ids[j], scan[j]);
      }
    }
    forall x | x in start.objects && x !in next
      ensures x in u.objects && u.objects[x] == start.objects[x] && SameColumns(start, u, x)
    {
      assert x !in ids && x != o by { assert o == next[n]; assert forall y | y in ids :: y in next; }
      SameColumnsTrans(start, t, u, x);
    }
    forall x | x in u.objects && x !in start.objects ensures x in next {
      if x == o { assert next[n] == o; } else { assert x in ids; }
    }
  }

  lemma OthersSameColumns(t: Tables, u: Tables, o: Id, x: Id)
    requires OnlyObject(o, t, u) && x != o
    ensures SameColumns(t, u, x)
  {}

  lemma ObjectThere(b: Backend, start: Tables, t: Tables, source: string, o: Id, obj: ScannedObject)
    requires ObjectSynced(b, start, t, source, o, obj)
    ensures o in t.objects
  {}

  lemma SameColumnsTrans(t: Tables, u: Tables, v: Tables, o: Id)
    requires SameColumns(t, u, o) && SameColumns(u, v, o)
    ensures SameColumns(t, v, o)
  {}

  // ---------------------------------------------------------------- UNIQUE violations

  /** No scanned object shares its key with a stored object of another name. */
  ghost predicate NamesAgree(t: Tables, source: string, scan: seq<ScannedObject>) {
    forall o, i | OfSource(t, source, o) && 0 <= i < |scan| && KeyOf(t.objects[o]) == ScanKey(scan[i]) ::
      t.objects[o].name == scan[i].name
  }

  ghost predicate StoredUnder(t: Tables, source: string, key: string, o: Id) {
    OfSource(t, source, o) && KeyOf(t.objects[o]) == key
  }

  /** The stored object a scanned one is matched with. */
  ghost function Match(t: Tables, source: string, obj: ScannedObject): (m: Option<Id>)
    ensures m.Some? ==> StoredUnder(t, source, ScanKey(obj), m.value)
    ensures m.None? ==> forall o :: !StoredUnder(t, source, ScanKey(obj), o)
  {
    if o: Id :| StoredUnder(t, source, ScanKey(obj), o) then Some(o) else None
  }

  /** The name a scanned object is stored under: that of its match, if it has one. */
  ghost function NameFor(t: Tables, source: string, obj: ScannedObject): string {
    var m := Match(t, source, obj);
    if m.Some? then t.objects[m.value].name else obj.name
  }

  /** An earlier scanned object takes the name and schema of the n-th. */
  ghost predicate TakenByScan(start: Tables, source: string, scan: seq<ScannedObject>, n: nat)
    requires n < |scan|
  {
    exists j | 0 <= j < n ::
      NameFor(start, source, scan[j]) == NameFor(start, source, scan[n]) && scan[j].schema == scan[n].schema
  }

  /** A stored object not matched so far has the name and schema of the n-th. */
  ghost predicate TakenByStored(start: Tables, source: string, scan: seq<ScannedObject>, n: nat)
    requires n < |scan|
  {
    exists o | OfSource(start, source, o) && Some(o) != Match(start, source, scan[n]) ::
      && start.objects[o].name == NameFor(start, source, scan[n]) && start.objects[o].schema == scan[n].schema
      && forall j | 0 <= j < n :: ScanKey(scan[j]) != KeyOf(start.objects[o])
  }

  /** The row statement for the n-th scanned object violates UNIQUE(source_id, name, schema). */
  ghost predicate Clashes(start: Tables, source: string, scan: seq<ScannedObject>, n: nat)
    requires n < |scan|
  {
    var m := Match(start, source, scan[n]);
    && scan[n].schema.Some? && (m.Some? ==> NeedsUpdate(start.objects[m.value], scan[n]))
    && (TakenByScan(start, source, scan, n) || TakenByStored(start, source, scan, n))
  }

  ghost predicate NoClashes(start: Tables, source: string, scan: seq<ScannedObject>) {
    forall n | 0 <= n < |scan| :: !Clashes(start, source, scan, n)
  }

  /** When names agree there is no clash. */
  lemma AgreeingNamesNeverClash(start: Tables, source: string, scan: seq<ScannedObject>)
    requires NamesAgree(start, source, scan) && ScanKeysDistinct(scan) && StoreKeysDistinct(start, source)
    ensures NoClashes(start, source, scan)
  {
    hide ObjectKey, NeedsUpdate;
    forall n | 0 <= n < |scan| ensures !TakenByScan(start, source, scan, n) && !TakenByStored(start, source, scan, n) {
      AgreeingName(start, source, scan, n);
      forall j | 0 <= j < n
        ensures NameFor(start, source, scan[j]) == scan[j].name && ScanKey(scan[j]) != ScanKey(scan[n])
      {
        AgreeingName(start, source, scan, j);
      }
      forall o | OfSource(start, source, o) && start.objects[o].name == scan[n].name &&
        start.objects[o].schema == scan[n].schema
        ensures Some(o) == Match(start, source, scan[n])
      {
        assert StoredUnder(start, source, ScanKey(scan[n]), o);
      }
    }
  }

  lemma AgreeingName(start: Tables, source: string, scan: seq<ScannedObject>, n: nat)
    requires NamesAgree(start, source, scan) && n < |scan|
    ensures NameFor(start, source, scan[n]) == scan[n].name
  {
    hide ObjectKey;
  }

  lemma LookupIsMatch(
    start: Tables, source: string, objects: map<string, Entry>, columns: map<Id, map<string, ColumnRow>>,
    obj: ScannedObject)
    requires Loaded(start, source, objects, columns) && StoreKeysDistinct(start, source)
    ensures var e, m := Lookup(objects, ScanKey(obj)), Match(start, source, obj);
      && (e.Some? <==> m.Some?)
      && (e.Some? ==> e.value == Entry(m.value, start.objects[m.value]) && m.value in start.objects)
      && forall o :: Chosen(start, objects, ScanKey(obj), o) <==> if m.Some? then o == m.value else o !in start.objects
  {
    hide ObjectKey, Indexes;
    var m := Match(start, source, obj);
    if m.Some? {
      assert objects[ScanKey(obj)].id == m.value;
    } else {
      assert ScanKey(obj) in objects ==> StoredUnder(start, source, ScanKey(obj), objects[ScanKey(obj)].id);
    }
  }

  /** The row of a synced object halfway through: the scanned schema under the match's name. */
  lemma NameHalfway(
    b: Backend, start: Tables, t: Tables, source: string, objects: map<string, Entry>,
    columns: map<Id, map<string, ColumnRow>>, scan: seq<ScannedObject>, n: nat, ids: seq<Id>, j: nat)
    requires n <= |scan| && Loaded(start, source, objects, columns) && StoreKeysDistinct(start, source)
    requires ObjectsSynced(b, start, t, source, objects, scan, n, ids) && j < n
    ensures ids[j] in t.objects && t.objects[ids[j]].sourceId == source
    ensures t.objects[ids[j]].schema == scan[j].schema && t.objects[ids[j]].name == NameFor(start, source, scan[j])
  {
    assert ObjectSynced(b, start, t, source, ids[j], scan[j]) && Chosen(start, objects, ScanKey(scan[j]), ids[j]);
    hide ColumnsAsScanned, ObjectKey, Indexes, ObjectsSynced, Loaded, Chosen;
    LookupIsMatch(start, source, objects, columns, scan[j]);
  }

  /** Outside the objects synced so far, the source's objects are the stored ones not matched yet. */
  lemma UntouchedHalfway(
    b: Backend, start: Tables, t: Tables, source: string, objects: map<string, Entry>,
    columns: map<Id, map<string, ColumnRow>>, scan: seq<ScannedObject>, n: nat, ids: seq<Id>, o: Id)
    requires n <= |scan| && Loaded(start, source, objects, columns) && StoreKeysDistinct(start, source)
    requires ObjectsSynced(b, start, t, source, objects, scan, n, ids)
    ensures OfSource(t, source, o) && o !in ids <==>
            OfSource(start, source, o) && forall j | 0 <= j < n :: ScanKey(scan[j]) != KeyOf(start.objects[o])
    ensures OfSource(t, source, o) && o !in ids ==> t.objects[o] == start.objects[o]
  {
    hide ObjectSynced, Indexes, ObjectKey, SameColumns;
    if OfSource(start, source, o) {
      assert objects[KeyOf(start.objects[o])].id == o;
      forall j | 0 <= j < n ensures ScanKey(scan[j]) == KeyOf(start.objects[o]) <==> ids[j] == o {
        assert Chosen(start, objects, ScanKey(scan[j]), ids[j]);
        if ids[j] == o {
          assert ScanKey(scan[j]) in objects && objects[ScanKey(scan[j])].id == o;
        }
      }
    }
  }

  // ---------------------------------------------------------------- the loop over scanned objects

  predicate AllNamesDistinct(scan: seq<ScannedObject>) {
    forall i | 0 <= i < |scan| :: DistinctNames(scan[i].columns)
  }

  ghost predicate QuietlyStored(t: Tables, source: string, obj: ScannedObject) {
    exists o | OfSource(t, source, o) :: KeyOf(t.objects[o]) == ScanKey(obj) && ObjectQuiet(t, o, obj)
  }

  /** Everything the sync compares already agrees with the scan. */
  ghost predicate Quiet(t: Tables, source: string, scan: seq<ScannedObject>) {
    && (forall i | 0 <= i < |scan| :: QuietlyStored(t, source, scan[i]))
    && (forall o | OfSource(t, source, o) :: exists i | 0 <= i < |scan| :: ScanKey(scan[i]) == KeyOf(t.objects[o]))
  }

  lemma QuietNext(
    start: Tables, source: string, objects: map<string, Entry>, columns: map<Id, map<string, ColumnRow>>,
    scan: seq<ScannedObject>, n: nat)
    requires n < |scan| && Loaded(start, source, objects, columns) && Quiet(start, source, scan)
    ensures var e := Lookup(objects, ScanKey(scan[n])); e.Some? && ObjectQuiet(start, e.value.id, scan[n])
  {
    hide ObjectQuiet, ObjectKey, Indexes;
    assert QuietlyStored(start, source, scan[n]);
    var o :| OfSource(start, source, o) && KeyOf(start.objects[o]) == ScanKey(scan[n]) &&
      ObjectQuiet(start, o, scan[n]);
  }

  lemma QuietFound(
    start: Tables, source: string, objects: map<string, Entry>, columns: map<Id, map<string, ColumnRow>>,
    obj: ScannedObject)
    requires Loaded(start, source, objects, columns)
    requires var e := Lookup(objects, ScanKey(obj)); e.Some? && ObjectQuiet(start, e.value.id, obj)
    ensures QuietlyStored(start, source, obj)
  {
    hide ObjectQuiet, ObjectKey, Indexes;
    assert OfSource(start, source, objects[ScanKey(obj)].id);
  }

  lemma ObjectsStart(
    b: Backend, start: Tables, source: string, objects: map<string, Entry>, scan: seq<ScannedObject>)
    ensures ObjectsSynced(b, start, start, source, objects, scan, 0, [])
  {}

  method SyncObjects(tx: Transaction, scan: seq<ScannedObject>, objects: map<string, Entry>,
                     columns: map<Id, map<string, ColumnRow>>)
    returns (ok: bool, currentKeys: set<string>, ghost ids: seq<Id>)
    requires tx.Valid() && tx.tables == tx.start && tx.detected == [] && tx.writes == 0
    requires Loaded(tx.start, tx.sourceId, objects, columns) && ScanKeysDistinct(scan)
    requires StoreKeysDistinct(tx.start, tx.sourceId)
    modifies tx
    ensures ok <==> AllNamesDistinct(scan) && NoClashes(tx.start, tx.sourceId, scan)
    ensures ok ==> tx.Valid() && ObjectsSynced(tx.backend, tx.start, tx.tables, tx.sourceId, objects, scan, |scan|, ids)
    ensures ok ==> currentKeys == set i | 0 <= i < |scan| :: ScanKey(scan[i])
    ensures ok ==> |ids| == |scan| && forall c | c in tx.detected :: OfScan(c, scan, ids)
    ensures ok ==> forall i | 0 <= i < |scan| ::
      ObjectRecorded(tx.start, ids[i], scan[i], tx.detected)
    ensures ok && Quiet(tx.start, tx.sourceId, scan) ==> tx.tables == tx.start && tx.detected == [] && tx.writes == 0
    ensures ok && tx.writes == 0 ==> forall i | 0 <= i < |scan| :: QuietlyStored(tx.start, tx.sourceId, scan[i])
  {
    hide Consistent, Loaded, ScanKeysDistinct, ObjectsSynced, Looked, ObjectSynced, StoreKeysDistinct, Clashes,
         Quiet, ObjectQuiet, DistinctNames, NameTaken, OnlyObject, ObjectKey, QuietlyStored, ColumnRecorded,
         ObjectRecorded, OfScan;
    ok, currentKeys, ids := true, {}, [];
    ObjectsStart(tx.backend, tx.start, tx.sourceId, objects, scan);
    for n := 0 to |scan|
      invariant tx.Valid() && ObjectsSynced(tx.backend, tx.start, tx.tables, tx.sourceId, objects, scan, n, ids)
      invariant forall i | 0 <= i < n :: DistinctNames(scan[i].columns) && !Clashes(tx.start, tx.sourceId, scan, i)
      invariant currentKeys == set i | 0 <= i < n :: ScanKey(scan[i])
      invariant |ids| == n && forall c | c in tx.detected :: OfScan(c, scan, ids)
      invariant forall i | 0 <= i < n :: ObjectRecorded(tx.start, ids[i], scan[i], tx.detected)
      invariant Quiet(tx.start, tx.sourceId, scan) ==> tx.tables == tx.start && tx.detected == [] && tx.writes == 0
      invariant tx.writes == 0 ==>
        tx.tables == tx.start && forall i | 0 <= i < n :: QuietlyStored(tx.start, tx.sourceId, scan[i])
    {
      var key := ScanKey(scan[n]);
      var existing := Lookup(objects, key);
      ghost var t, cs := tx.tables, tx.detected;
      ProgressNow(tx.backend, tx.sourceId, tx.start, tx.earlier, t, tx.detected, tx.journal);
      forall c | c in cs ensures c.objectId in ids {
        OfScanIds(c, scan, ids);
      }
      NextIsUntouched(tx.backend, tx.start, t, tx.sourceId, objects, columns, scan, n, ids, tx.detected);
      NextIsChosen(tx.backend, tx.start, t, tx.sourceId, objects, scan, n, ids);
      AcceptableIs(tx.backend, tx.start, t, tx.sourceId, objects, columns, scan, n, ids);
      if Quiet(tx.start, tx.sourceId, scan) {
        QuietNext(tx.start, tx.sourceId, objects, columns, scan, n);
      }
      var o;
      ok, o := tx.SyncObject(scan[n], existing, columns);
      if !ok {
        return;
      }
      if tx.writes == 0 {
        QuietFound(tx.start, tx.sourceId, objects, columns, scan[n]);
      }
      NextRecorded(tx.sourceId, tx.start, t, existing, columns, scan[n], o, cs, tx.detected);
      forall i | 0 <= i < n ensures ObjectRecorded(tx.start, ids[i], scan[i], tx.detected) {
        ObjectRecordedStill(tx.start, ids[i], scan[i], cs, tx.detected);
      }
      ObjectsNext(tx.backend, tx.start, t, tx.tables, tx.sourceId, objects, scan, n, ids, o);
      forall c | c in tx.detected ensures OfScan(c, scan, ids + [o]) {
        OfScanStill(c, scan, ids, o);
      }
      currentKeys := currentKeys + {key};
      ids := ids + [o];
    }
  }

  /** A record is about a scanned object, or a column of it, and names the scanned table. */
  ghost predicate OfScan(c: Change, scan: seq<ScannedObject>, ids: seq<Id>)
    requires |ids| <= |scan|
  {
    exists i | 0 <= i < |ids| :: Concerns(c, ids[i], scan[i].name)
  }

  lemma OfScanIds(c: Change, scan: seq<ScannedObject>, ids: seq<Id>)
    requires |ids| <= |scan| && OfScan(c, scan, ids)
    ensures c.objectId in ids
  {}

  lemma OfScanStill(c: Change, scan: seq<ScannedObject>, ids: seq<Id>, o: Id)
    requires |ids| < |scan| && (OfScan(c, scan, ids) || Concerns(c, o, scan[|ids|].name))
    ensures OfScan(c, scan, ids + [o])
  {
    var next := ids + [o];
    if i :| 0 <= i < |ids| && Concerns(c, ids[i], scan[i].name) {
      assert Concerns(c, next[i], scan[i].name);
    } else {
      assert Concerns(c, next[|ids|], scan[|ids|].name);
    }
  }

  /** Every scanned column of the object is as scanned already, or announced by a record. */
  ghost predicate ObjectRecorded(start: Tables, o: Id, obj: ScannedObject, cs: seq<Change>) {
    forall j | 0 <= j < |obj.columns| :: ColumnRecorded(start, o, obj.columns[j], cs)
  }

  lemma ObjectRecordedStill(start: Tables, o: Id, obj: ScannedObject, cs: seq<Change>, ds: seq<Change>)
    requires ObjectRecorded(start, o, obj, cs) && cs <= ds && forall c | c in ds :: c in cs || c.objectId != o
    ensures ObjectRecorded(start, o, obj, ds)
  {
    hide ColumnRecorded;
    forall j | 0 <= j < |obj.columns| ensures ColumnRecorded(start, o, obj.columns[j], ds) {
      RecordedStill(start, o, obj.columns[j], cs, ds);
    }
  }

  lemma NextRecorded(
    source: string, start: Tables, t: Tables, existing: Option<Entry>, columns: map<Id, map<string, ColumnRow>>,
    obj: ScannedObject, o: Id, cs: seq<Change>, ds: seq<Change>)
    requires Progress(source, start, t) && Looked(source, start, t, cs, existing, columns)
    requires o == if existing.Some? then existing.value.id else t.nextId
    requires forall j | 0 <= j < |obj.columns| :: ColumnRecorded(t, o, obj.columns[j], ds)
    ensures ObjectRecorded(start, o, obj, ds)
  {
    hide Progress, ColumnRecorded, Indexes, StoredSignature;
    NextIsFresh(source, start, t);
    forall j | 0 <= j < |obj.columns| ensures ColumnRecorded(start, o, obj.columns[j], ds) {
      RecordedFrom(start, t, o, obj.columns[j], ds);
    }
  }

  lemma NextIsChosen(
    b: Backend, start: Tables, t: Tables, source: string, objects: map<string, Entry>,
    scan: seq<ScannedObject>, n: nat, ids: seq<Id>)
    requires n < |scan| && Progress(source, start, t) && ObjectsSynced(b, start, t, source, objects, scan, n, ids)
    ensures var key := ScanKey(scan[n]);
      Chosen(start, objects, key, if key in objects then objects[key].id else t.nextId)
    ensures t.nextId !in ids
  {
    hide Progress;
    NextIsFresh(source, start, t);
    hide ObjectsSynced;
    ProgressParts(source, start, t);
    SyncedBelow(b, start, t, source, objects, scan, n, ids);
  }

  lemma ProgressParts(source: string, start: Tables, t: Tables)
    requires Progress(source, start, t)
    ensures WellFormed(t) && OthersKept(source, start, t)
  {}

  /** Halfway through the loop a name is taken exactly by what the clash condition names. */
  lemma TakenHalfway(
    b: Backend, start: Tables, t: Tables, source: string, objects: map<string, Entry>,
    columns: map<Id, map<string, ColumnRow>>, scan: seq<ScannedObject>, n: nat, ids: seq<Id>)
    requires n < |scan| && Loaded(start, source, objects, columns) && StoreKeysDistinct(start, source) &&
      ScanKeysDistinct(scan)
    requires ObjectsSynced(b, start, t, source, objects, scan, n, ids)
    ensures var m := Match(start, source, scan[n]);
      NameTaken(t, source, NameFor(start, source, scan[n]), scan[n].schema, if m.Some? then {m.value} else {}) <==>
      scan[n].schema.Some? && (TakenByScan(start, source, scan, n) || TakenByStored(start, source, scan, n))
  {
    hide Loaded, StoreKeysDistinct, ScanKeysDistinct, Match, NameFor, KeyOf, ScanKey, ObjectSynced, Chosen,
         SameColumns;
    var m := Match(start, source, scan[n]);
    forall j | 0 <= j < n
      ensures OfSource(t, source, ids[j]) && Some(ids[j]) != m
      ensures t.objects[ids[j]].schema == scan[j].schema && t.objects[ids[j]].name == NameFor(start, source, scan[j])
    {
      NameHalfway(b, start, t, source, objects, columns, scan, n, ids, j);
      assert Chosen(start, objects, ScanKey(scan[j]), ids[j]);
      MatchesApart(start, source, objects, columns, scan, j, n, ids[j]);
    }
    forall o
      ensures OfSource(t, source, o) && o !in ids <==>
              OfSource(start, source, o) && forall j | 0 <= j < n :: ScanKey(scan[j]) != KeyOf(start.objects[o])
      ensures OfSource(t, source, o) && o !in ids ==> t.objects[o] == start.objects[o]
    {
      UntouchedHalfway(b, start, t, source, objects, columns, scan, n, ids, o);
    }
    assert |ids| == n;
    hide ObjectsSynced;
  }

  lemma MatchesApart(
    start: Tables, source: string, objects: map<string, Entry>, columns: map<Id, map<string, ColumnRow>>,
    scan: seq<ScannedObject>, j: nat, n: nat, o: Id)
    requires j < n < |scan| && Loaded(start, source, objects, columns) && StoreKeysDistinct(start, source)
    requires ScanKeysDistinct(scan) && Chosen(start, objects, ScanKey(scan[j]), o)
    ensures Some(o) != Match(start, source, scan[n])
  {
    LookupIsMatch(start, source, objects, columns, scan[j]);
    LookupIsMatch(start, source, objects, columns, scan[n]);
    hide ObjectKey, Indexes, Loaded;
  }

  /** The statements for the n-th scanned object succeed exactly if its column names are distinct
      and its row does not clash. */
  lemma AcceptableIs(
    b: Backend, start: Tables, t: Tables, source: string, objects: map<string, Entry>,
    columns: map<Id, map<string, ColumnRow>>, scan: seq<ScannedObject>, n: nat, ids: seq<Id>)
    requires n < |scan| && Loaded(start, source, objects, columns) && StoreKeysDistinct(start, source) &&
      ScanKeysDistinct(scan)
    requires ObjectsSynced(b, start, t, source, objects, scan, n, ids)
    ensures Acceptable(source, t, Lookup(objects, ScanKey(scan[n])), scan[n]) <==>
            DistinctNames(scan[n].columns) && !Clashes(start, source, scan, n)
  {
    TakenHalfway(b, start, t, source, objects, columns, scan, n, ids);
    LookupIsMatch(start, source, objects, columns, scan[n]);
    hide Loaded, ScanKeysDistinct, StoreKeysDistinct, ObjectsSynced, NameTaken, DistinctNames, Match, TakenByScan,
         TakenByStored, NeedsUpdate, Chosen, ScanKey;
  }

  // ---------------------------------------------------------------- dropping objects

  /** Halfway through deleting an object's edges: those at the visited columns are gone. */
  ghost predicate EdgesVisited(t0: Tables, edges: set<Edge>, visited: set<Id>) {
    forall e :: e in edges <==> e in t0.edges && e.src !in visited && e.dst !in visited
  }

  ghost function ColumnIds(m: map<string, ColumnRow>): set<Id> {
    set n | n in m :: m[n].id
  }

  lemma ColumnIdsAll(t: Tables, o: Id, m: map<string, ColumnRow>)
    requires Indexes(t, o, m)
    ensures ColumnIds(m) + {o} == IdsOf(t, o)
  {
    forall k | k in t.columns && k.owner == o ensures t.columns[k].id in ColumnIds(m) {
      assert ColumnKey(o, k.name) == k;
      assert k.name in m && m[k.name].id == t.columns[k].id;
    }
    forall n | n in m ensures m[n].id in IdsOf(t, o) {
      assert ColumnKey(o, n) in t.columns && t.columns[ColumnKey(o, n)].id == m[n].id;
    }
  }

  /** The loop deleting the edges at each column of an object, in any order. */
  method DeleteColumnEdges(tx: Transaction, oldColumns: map<string, ColumnRow>)
    modifies tx`tables, tx`writes
    ensures tx.tables == old(tx.tables).(edges := tx.tables.edges) && tx.writes >= old(tx.writes)
    ensures EdgesVisited(old(tx.tables), tx.tables.edges, ColumnIds(oldColumns))
  {
    var left := oldColumns;
    ghost var visited: set<Id> := {};
    while left != map[]
      invariant left.Keys <= oldColumns.Keys && forall n | n in left :: left[n] == oldColumns[n]
      invariant tx.tables == old(tx.tables).(edges := tx.tables.edges) && tx.writes >= old(tx.writes)
      invariant EdgesVisited(old(tx.tables), tx.tables.edges, visited)
      invariant visited <= ColumnIds(oldColumns)
      invariant forall n | n in oldColumns && n !in left :: oldColumns[n].id in visited
      decreases |left|
    {
      var n :| n in left;
      tx.DeleteLineageEdgesByNode(left[n].id);
      visited := visited + {left[n].id};
      left := left - {n};
    }
    assert visited == ColumnIds(oldColumns);
  }

  /** Records a dropped object, then deletes its edges, its columns' edges and its row. */
  method DropObject(tx: Transaction, e: Entry, oldColumns: map<string, ColumnRow>)
    requires tx.Valid() && Droppable(tx.sourceId, tx.start, tx.tables, e.id)
    requires tx.tables.objects[e.id] == tx.start.objects[e.id] == e.row
    requires ColumnsLoaded(tx.start, tx.tables, e.id, oldColumns)
    requires forall c | c in tx.detected :: c.objectId != e.id
    modifies tx
    ensures tx.writes > old(tx.writes) && old(tx.detected) <= tx.detected
    ensures tx.Valid() && exists edges :: tx.tables == WithoutObject(old(tx.tables).(edges := edges), e.id)
    ensures forall c | c in tx.detected :: c in old(tx.detected) || c.objectId == e.id
  {
    hide Consistent, Indexes, SameColumns, EdgesVisited;
    ghost var t, cs, j := tx.tables, tx.detected, tx.journal;
    var c := Change(tx.sourceId, e.id, ChangeKind.DropObject, TheObject(e.row.name), Some(e.row.kind), None);
    tx.RecordSchemaChange(c);
    DeleteColumnEdges(tx, oldColumns);
    tx.DeleteLineageEdgesByNode(e.id);
    ghost var edges := tx.tables.edges;
    ClearOf(tx.start, t, e.id, oldColumns, edges);
    tx.DeleteSchemaObject(e.id);
    ConsistentAfterDropObject(tx.backend, tx.sourceId, tx.start, tx.earlier, t, cs, j, e.id, edges, c);
  }

  lemma ClearOf(start: Tables, t: Tables, o: Id, m: map<string, ColumnRow>, edges: set<Edge>)
    requires ColumnsLoaded(start, t, o, m)
    requires exists es :: EdgesVisited(t, es, ColumnIds(m)) && edges == WithoutEdgesAt(t.(edges := es), o).edges
    ensures EdgesClearOf(t, o, edges)
  {
    ColumnIdsAll(t, o, m);
    hide ColumnIds, IdsOf, ColumnsLoaded;
  }

  /** The drop loop: whatever is not visited yet is as when the loop began. */
  ghost predicate Dropping(
    source: string, start: Tables, t0: Tables, t: Tables, cs: seq<Change>, objects: map<string, Entry>,
    columns: map<Id, map<string, ColumnRow>>, left: map<string, Entry>, currentKeys: set<string>)
  {
    && left.Keys <= objects.Keys && (forall key | key in left :: left[key] == objects[key])
    && (forall o | o in t.objects :: o in t0.objects && t.objects[o] == t0.objects[o] && SameColumns(t0, t, o))
    && (forall o | o in t0.objects && o !in t.objects :: DroppedKey(objects, o, left, currentKeys))
    && (forall key | key in objects && key !in currentKeys ::
          if key in left then
            && Droppable(source, start, t, left[key].id)
            && t.objects[left[key].id] == start.objects[left[key].id] == left[key].row
            && left[key].id in columns && ColumnsLoaded(start, t, left[key].id, columns[left[key].id])
            && forall c | c in cs :: c.objectId != left[key].id
          else objects[key].id !in t.objects)
  }

  ghost predicate DroppedKey(objects: map<string, Entry>, o: Id, left: map<string, Entry>, currentKeys: set<string>) {
    exists key | key in objects :: objects[key].id == o && key !in left && key !in currentKeys
  }

  lemma DroppingSkip(
    source: string, start: Tables, t0: Tables, t: Tables, cs: seq<Change>, objects: map<string, Entry>,
    columns: map<Id, map<string, ColumnRow>>, left: map<string, Entry>, currentKeys: set<string>, key: string)
    requires Dropping(source, start, t0, t, cs, objects, columns, left, currentKeys)
    requires key in left && key in currentKeys
    ensures Dropping(source, start, t0, t, cs, objects, columns, left - {key}, currentKeys)
  {
    hide SameColumns, Droppable, ColumnsLoaded;
    forall o | o in t0.objects && o !in t.objects ensures DroppedKey(objects, o, left - {key}, currentKeys) {
      var k :| k in objects && objects[k].id == o && k !in left && k !in currentKeys;
      assert k !in left - {key};
    }
  }

  lemma DroppingDrop(
    source: string, start: Tables, t0: Tables, t: Tables, cs: seq<Change>, objects: map<string, Entry>,
    columns: map<Id, map<string, ColumnRow>>, left: map<string, Entry>, currentKeys: set<string>, key: string,
    u: Tables, ds: seq<Change>)
    requires Dropping(source, start, t0, t, cs, objects, columns, left, currentKeys)
    requires forall k, l | k in objects && l in objects && objects[k].id == objects[l].id :: k == l
    requires key in left && key !in currentKeys && exists edges :: u == WithoutObject(t.(edges := edges), left[key].id)
    requires forall c | c in ds :: c in cs || c.objectId == left[key].id
    ensures Dropping(source, start, t0, u, ds, objects, columns, left - {key}, currentKeys)
  {
    hide ColumnsLoaded, SameColumns, DroppedKey;
    var id := left[key].id;
    assert objects[key].id == id;
    forall o | o in t0.objects && o !in u.objects ensures DroppedKey(objects, o, left - {key}, currentKeys) {
      assert o == id || DroppedKey(objects, o, left, currentKeys);
      DroppedStill(objects, o, left, currentKeys, key);
    }
    forall o | o in u.objects ensures SameColumns(t0, u, o) {
      assert SameColumns(t0, t, o) && o != id;
      SameElsewhere(t0, t, u, id, o);
    }
    forall k | k in left && k != key && k !in currentKeys
      ensures ColumnsLoaded(start, u, left[k].id, columns[left[k].id])
    {
      LoadedElsewhere(start, t, u, id, left[k].id, columns[left[k].id]);
    }
  }

  lemma DroppedStill(
    objects: map<string, Entry>, o: Id, left: map<string, Entry>, currentKeys: set<string>, key: string)
    requires DroppedKey(objects, o, left, currentKeys) ||
      (key in objects && objects[key].id == o && key !in currentKeys)
    ensures DroppedKey(objects, o, left - {key}, currentKeys)
  {
    if k :| k in objects && objects[k].id == o && k !in left && k !in currentKeys {
      assert k !in left - {key};
    } else {
      assert key !in left - {key};
    }
  }

  lemma SameElsewhere(t0: Tables, t: Tables, u: Tables, id: Id, o: Id)
    requires SameColumns(t0, t, o) && o != id && exists edges :: u == WithoutObject(t.(edges := edges), id)
    ensures SameColumns(t0, u, o)
  {}

  lemma LoadedElsewhere(start: Tables, t: Tables, u: Tables, id: Id, o: Id, m: map<string, ColumnRow>)
    requires ColumnsLoaded(start, t, o, m) && o != id
    requires exists edges :: u == WithoutObject(t.(edges := edges), id)
    ensures ColumnsLoaded(start, u, o, m)
  {}

  lemma DroppingStart(
    b: Backend, source: string, start: Tables, t: Tables, cs: seq<Change>, objects: map<string, Entry>,
    columns: map<Id, map<string, ColumnRow>>, scan: seq<ScannedObject>, ids: seq<Id>, currentKeys: set<string>)
    requires Loaded(start, source, objects, columns) && ObjectsSynced(b, start, t, source, objects, scan, |scan|, ids)
    requires currentKeys == set i | 0 <= i < |scan| :: ScanKey(scan[i])
    requires forall c | c in cs :: c.objectId in ids
    ensures Dropping(source, start, t, t, cs, objects, columns, objects, currentKeys)
  {
    hide ObjectSynced, Indexes, ObjectKey;
    forall o | o in start.objects ensures o in t.objects {
      if o in ids {
        var j :| 0 <= j < |scan| && ids[j] == o;
        ObjectThere(b, start, t, source, ids[j], scan[j]);
      }
    }
    forall key | key in objects && key !in currentKeys
      ensures objects[key].id !in ids && ColumnsLoaded(start, t, objects[key].id, columns[objects[key].id])
    {
      forall j | 0 <= j < |scan| ensures ids[j] != objects[key].id {
        assert Chosen(start, objects, ScanKey(scan[j]), ids[j]) && ScanKey(scan[j]) in currentKeys;
      }
      SameIndexes(start, t, objects[key].id, columns[objects[key].id]);
    }
    hide ColumnsLoaded;
  }

  lemma EntriesDistinct(
    t: Tables, source: string, objects: map<string, Entry>, columns: map<Id, map<string, ColumnRow>>)
    requires Loaded(t, source, objects, columns)
    ensures forall k, l | k in objects && l in objects && objects[k].id == objects[l].id :: k == l
  {
    hide ObjectKey, Indexes;
  }

  lemma DroppingUse(
    source: string, start: Tables, t0: Tables, t: Tables, cs: seq<Change>, objects: map<string, Entry>,
    columns: map<Id, map<string, ColumnRow>>, left: map<string, Entry>, currentKeys: set<string>, key: string)
    requires Dropping(source, start, t0, t, cs, objects, columns, left, currentKeys)
    requires key in left && key !in currentKeys
    ensures left[key].id in columns && Droppable(source, start, t, left[key].id)
    ensures t.objects[left[key].id] == start.objects[left[key].id] == left[key].row
    ensures ColumnsLoaded(start, t, left[key].id, columns[left[key].id])
    ensures forall c | c in cs :: c.objectId != left[key].id
  {
    hide ColumnsLoaded, SameColumns;
  }

  /** The loop over stored objects, in any order, dropping those the scan no longer has. */
  method DropObjects(tx: Transaction, objects: map<string, Entry>, columns: map<Id, map<string, ColumnRow>>,
                     currentKeys: set<string>)
    requires tx.Valid()
    requires Dropping(tx.sourceId, tx.start, tx.tables, tx.tables, tx.detected, objects, columns, objects, currentKeys)
    requires forall k, l | k in objects && l in objects && objects[k].id == objects[l].id :: k == l
    modifies tx
    ensures tx.Valid() && old(tx.detected) <= tx.detected
    ensures forall c | c in tx.detected :: c in old(tx.detected) || c.objectId !in tx.tables.objects
    ensures Dropping(tx.sourceId, tx.start, old(tx.tables), tx.tables, tx.detected, objects, columns, map[],
                     currentKeys)
    ensures objects.Keys <= currentKeys ==>
      tx.tables == old(tx.tables) && tx.detected == old(tx.detected) && tx.writes == old(tx.writes)
    ensures tx.writes >= old(tx.writes) && (tx.writes == old(tx.writes) ==> objects.Keys <= currentKeys)
  {
    hide Consistent, Dropping, ColumnsLoaded, Droppable;
    var left := objects;
    while left != map[]
      invariant tx.Valid() && left.Keys <= objects.Keys && old(tx.detected) <= tx.detected
      invariant forall c | c in tx.detected :: c in old(tx.detected) || c.objectId !in tx.tables.objects
      invariant Dropping(tx.sourceId, tx.start, old(tx.tables), tx.tables, tx.detected, objects, columns, left,
                         currentKeys)
      invariant objects.Keys <= currentKeys ==>
        tx.tables == old(tx.tables) && tx.detected == old(tx.detected) && tx.writes == old(tx.writes)
      invariant tx.writes >= old(tx.writes)
      invariant tx.writes == old(tx.writes) ==> forall key | key in objects && key !in left :: key in currentKeys
      decreases |left|
    {
      var key :| key in left;
      ghost var t, cs := tx.tables, tx.detected;
      if key in currentKeys {
        DroppingSkip(tx.sourceId, tx.start, old(tx.tables), t, cs, objects, columns, left, currentKeys, key);
      } else {
        DroppingUse(tx.sourceId, tx.start, old(tx.tables), t, cs, objects, columns, left, currentKeys, key);
        DropObject(tx, left[key], columns[left[key].id]);
        DroppingDrop(tx.sourceId, tx.start, old(tx.tables), t, cs, objects, columns, left, currentKeys, key,
                     tx.tables, tx.detected);
      }
      left := left - {key};
    }
  }

  // ---------------------------------------------------------------- the result of a sync

  /** The object a scanned key resolved to: the stored object under that key, or else a new one. */
  ghost predicate Resolves(start: Tables, source: string, key: string, o: Id) {
    || (OfSource(start, source, o) && KeyOf(start.objects[o]) == key)
    || (o !in start.objects && forall p | OfSource(start, source, p) :: KeyOf(start.objects[p]) != key)
  }

  /** What a committed sync leaves: the source's objects are exactly those of the scan, each
      stored as scanned, everything else as `Progress` says. */
  ghost predicate Reconciled(
    b: Backend, source: string, start: Tables, post: Tables, scan: seq<ScannedObject>, ids: seq<Id>)
  {
    && |ids| == |scan| && (forall i, j | 0 <= i < j < |ids| :: ids[i] != ids[j])
    && (forall o :: OfSource(post, source, o) <==> o in ids)
    && (forall i | 0 <= i < |scan| :: Resolves(start, source, ScanKey(scan[i]), ids[i]))
    && (forall i | 0 <= i < |scan| :: ObjectSynced(b, start, post, source, ids[i], scan[i]))
    && Progress(source, start, post)
  }

  lemma KeptThroughDrops(
    b: Backend, source: string, start: Tables, t0: Tables, t: Tables, cs: seq<Change>, objects: map<string, Entry>,
    columns: map<Id, map<string, ColumnRow>>, scan: seq<ScannedObject>, ids: seq<Id>, currentKeys: set<string>, i: nat)
    requires Loaded(start, source, objects, columns) && ObjectsSynced(b, start, t0, source, objects, scan, |scan|, ids)
    requires Dropping(source, start, t0, t, cs, objects, columns, map[], currentKeys)
    requires currentKeys == set i | 0 <= i < |scan| :: ScanKey(scan[i])
    requires i < |scan|
    ensures ObjectSynced(b, start, t, source, ids[i], scan[i]) && Resolves(start, source, ScanKey(scan[i]), ids[i])
  {
    hide ObjectSynced, Indexes, ObjectKey;
    EntriesDistinct(start, source, objects, columns);
    assert Chosen(start, objects, ScanKey(scan[i]), ids[i]) && ScanKey(scan[i]) in currentKeys;
    ObjectThere(b, start, t0, source, ids[i], scan[i]);
    if ids[i] !in t.objects {
      assert false;
    }
    SyncedUnderFrame(b, start, t0, t, source, ids[i], scan[i]);
  }

  lemma OnlyScannedLeft(
    b: Backend, source: string, start: Tables, t0: Tables, t: Tables, cs: seq<Change>, objects: map<string, Entry>,
    columns: map<Id, map<string, ColumnRow>>, scan: seq<ScannedObject>, ids: seq<Id>, currentKeys: set<string>, o: Id)
    requires Loaded(start, source, objects, columns) && ObjectsSynced(b, start, t0, source, objects, scan, |scan|, ids)
    requires Dropping(source, start, t0, t, cs, objects, columns, map[], currentKeys)
    requires currentKeys == set i | 0 <= i < |scan| :: ScanKey(scan[i])
    requires OfSource(t, source, o)
    ensures o in ids
  {
    hide ObjectSynced, Indexes, ObjectKey, SameColumns;
    if OfSource(start, source, o) {
      var key := KeyOf(start.objects[o]);
      assert objects[key].id == o;
      if key in currentKeys {
        var j :| 0 <= j < |scan| && ScanKey(scan[j]) == key;
        assert Chosen(start, objects, ScanKey(scan[j]), ids[j]);
      }
    }
  }

  lemma ReconciledAtEnd(
    b: Backend, source: string, start: Tables, t0: Tables, t: Tables, cs: seq<Change>, objects: map<string, Entry>,
    columns: map<Id, map<string, ColumnRow>>, scan: seq<ScannedObject>, ids: seq<Id>, currentKeys: set<string>)
    requires Loaded(start, source, objects, columns) && ObjectsSynced(b, start, t0, source, objects, scan, |scan|, ids)
    requires Dropping(source, start, t0, t, cs, objects, columns, map[], currentKeys)
    requires currentKeys == set i | 0 <= i < |scan| :: ScanKey(scan[i])
    requires Progress(source, start, t)
    ensures Reconciled(b, source, start, t, scan, ids)
  {
    forall i | 0 <= i < |scan|
      ensures ObjectSynced(b, start, t, source, ids[i], scan[i]) && Resolves(start, source, ScanKey(scan[i]), ids[i])
    {
      KeptThroughDrops(b, source, start, t0, t, cs, objects, columns, scan, ids, currentKeys, i);
    }
    forall o | OfSource(t, source, o) ensures o in ids {
      OnlyScannedLeft(b, source, start, t0, t, cs, objects, columns, scan, ids, currentKeys, o);
    }
    forall o | o in ids ensures OfSource(t, source, o) {
      var i :| 0 <= i < |scan| && ids[i] == o;
      SyncedSource(b, source, start, t, ids[i], scan[i]);
    }
    hide ObjectSynced, Resolves, Loaded, Dropping, Progress;
  }

  lemma SyncedSource(b: Backend, source: string, start: Tables, t: Tables, o: Id, obj: ScannedObject)
    requires ObjectSynced(b, start, t, source, o, obj) && Resolves(start, source, ScanKey(obj), o)
    ensures OfSource(t, source, o)
  {}

  lemma QuietKeys(
    start: Tables, source: string, objects: map<string, Entry>, columns: map<Id, map<string, ColumnRow>>,
    scan: seq<ScannedObject>, currentKeys: set<string>)
    requires Loaded(start, source, objects, columns) && Quiet(start, source, scan)
    requires currentKeys == set i | 0 <= i < |scan| :: ScanKey(scan[i])
    ensures objects.Keys <= currentKeys
  {
    hide ObjectQuiet, ObjectKey, Indexes;
  }

  lemma SilentKeys(
    start: Tables, source: string, objects: map<string, Entry>, columns: map<Id, map<string, ColumnRow>>,
    scan: seq<ScannedObject>, currentKeys: set<string>)
    requires Loaded(start, source, objects, columns) && objects.Keys <= currentKeys
    requires currentKeys == set i | 0 <= i < |scan| :: ScanKey(scan[i])
    requires forall i | 0 <= i < |scan| :: QuietlyStored(start, source, scan[i])
    ensures Quiet(start, source, scan)
  {
    hide QuietlyStored, ObjectKey, Indexes;
    forall o | OfSource(start, source, o)
      ensures exists i | 0 <= i < |scan| :: ScanKey(scan[i]) == KeyOf(start.objects[o])
    {
      assert KeyOf(start.objects[o]) in currentKeys;
    }
  }

  /** Each scanned column is as scanned already or announced, and every record is about a scanned
      object, under its scanned name, or about a dropped one. */
  ghost predicate AllRecorded(start: Tables, post: Tables, scan: seq<ScannedObject>, ids: seq<Id>, cs: seq<Change>) {
    && |ids| == |scan| && (forall i | 0 <= i < |scan| :: ObjectRecorded(start, ids[i], scan[i], cs))
    && (forall c | c in cs :: OfScan(c, scan, ids) || c.objectId !in post.objects)
  }

  lemma RecordedAtEnd(
    b: Backend, source: string, start: Tables, post: Tables, scan: seq<ScannedObject>, ids: seq<Id>, cs: seq<Change>,
    ds: seq<Change>)
    requires Reconciled(b, source, start, post, scan, ids) && cs <= ds
    requires forall i | 0 <= i < |scan| :: ObjectRecorded(start, ids[i], scan[i], cs)
    requires |ids| == |scan| && forall c | c in cs :: OfScan(c, scan, ids)
    requires forall c | c in ds :: c in cs || c.objectId !in post.objects
    ensures AllRecorded(start, post, scan, ids, ds)
  {
    hide ObjectRecorded, ObjectSynced, Resolves, Progress, OfScan;
    forall i | 0 <= i < |scan| ensures ObjectRecorded(start, ids[i], scan[i], ds) {
      assert ids[i] in ids && OfSource(post, source, ids[i]);
      ObjectRecordedStill(start, ids[i], scan[i], cs, ds);
    }
  }

  /** A catalogue view that shows the stored rows: those of the scan with their scanned
      signatures, all others with their stored ones. */
  ghost predicate ShowsScan(v: View, post: Tables, scan: seq<ScannedObject>, ids: seq<Id>)
    requires |ids| == |scan|
  {
    && v.objects == post.objects.Keys && v.columns.Keys == post.columns.Keys
    && (forall i, j | 0 <= i < |scan| && 0 <= j < |scan[i].columns| ::
          At(v, ColumnKey(ids[i], scan[i].columns[j].name)) == Some(ScannedSignature(scan[i].columns[j])))
    && (forall k | k in post.columns && k.owner !in ids :: At(v, k) == SignatureNow(post, k))
  }

  /** Replaying the records over the old catalogue gives the stored rows with the scanned signatures. */
  ghost predicate ReplaysToScan(start: Tables, post: Tables, scan: seq<ScannedObject>, ids: seq<Id>, cs: seq<Change>) {
    && |ids| == |scan| && Replay(ViewOf(start), cs).Some?
    && ShowsScan(Replay(ViewOf(start), cs).value, post, scan, ids)
  }

  lemma ColumnReplays(source: string, start: Tables, post: Tables, cs: seq<Change>, o: Id, col: ScannedColumn)
    requires Journalled(source, start, post, cs) && ColumnRecorded(start, o, col, cs) && o in post.objects
    ensures At(Replay(ViewOf(start), cs).value, ColumnKey(o, col.name)) == Some(ScannedSignature(col))
  {
    hide SignatureNow, ScannedSignature, ViewOf, Replay, NoneTwice, Truthful;
    var k := ColumnKey(o, col.name);
    ReplayObject(ViewOf(start), cs, o);
    ReplayColumn(ViewOf(start), cs, k);
    ViewAt(start, k);
    if c :| c in cs && Announces(c, o, col) {
      assert AboutColumn(c, k);
    } else {
      forall c | c in cs ensures !AboutColumn(c, k) {}
    }
  }

  lemma OtherReplays(
    b: Backend, source: string, start: Tables, post: Tables, scan: seq<ScannedObject>, ids: seq<Id>, cs: seq<Change>,
    k: ColumnKey)
    requires Reconciled(b, source, start, post, scan, ids) && Journalled(source, start, post, cs)
    requires AllRecorded(start, post, scan, ids, cs) && k in post.columns && k.owner !in ids
    ensures At(Replay(ViewOf(start), cs).value, k) == SignatureNow(post, k)
  {
    hide ObjectSynced, Resolves, Journalled, EdgesExact, StoredSignature, ObjectRecorded, OfScan;
    forall c | c in cs && OfScan(c, scan, ids) ensures c.objectId in ids {
      OfScanIds(c, scan, ids);
    }
    ViewNow(source, start, post, cs, k);
    assert !OfSource(post, source, k.owner);
  }

  /** The records of a sync replay to the scan, whether or not the table keeps its confidences. */
  lemma RecordsReplay(
    b: Backend, source: string, start: Tables, post: Tables, scan: seq<ScannedObject>, ids: seq<Id>, cs: seq<Change>)
    requires Reconciled(b, source, start, post, scan, ids) && Journalled(source, start, post, cs)
    requires AllRecorded(start, post, scan, ids, cs)
    ensures ReplaysToScan(start, post, scan, ids, cs)
  {
    forall i, j | 0 <= i < |scan| && 0 <= j < |scan[i].columns|
      ensures At(Replay(ViewOf(start), cs).value, ColumnKey(ids[i], scan[i].columns[j].name))
           == Some(ScannedSignature(scan[i].columns[j]))
    {
      assert ids[i] in ids && OfSource(post, source, ids[i]);
      assert ObjectRecorded(start, ids[i], scan[i], cs);
      ColumnReplays(source, start, post, cs, ids[i], scan[i].columns[j]);
    }
    hide ObjectRecorded, ObjectSynced, Progress, Resolves, Truthful, NoneTwice, ScannedSignature, SignatureNow;
    forall k | k in post.columns && k.owner !in ids
      ensures At(Replay(ViewOf(start), cs).value, k) == SignatureNow(post, k)
    {
      OtherReplays(b, source, start, post, scan, ids, cs, k);
    }
  }

  /** The database: the catalogue tables and the journal table. */
  class Store {
    const backend: Backend
    var tables: Tables
    var journal: seq<Change>

    constructor (backend: Backend, tables: Tables, journal: seq<Change>)
      ensures this.backend == backend && this.tables == tables && this.journal == journal
    {
      this.backend, this.tables, this.journal := backend, tables, journal;
    }
  }

  /** Reconciles the store with a scan. On success the transaction's state is committed; on a
      constraint violation it is discarded. `writes` counts catalogue and lineage statements. */
  method SaveSchema(store: Store, source: string, scan: seq<ScannedObject>)
    returns (ok: bool, detected: seq<Change>, writes: nat, ghost ids: seq<Id>)
    requires WellFormed(store.tables) && StoreKeysDistinct(store.tables, source) && ScanKeysDistinct(scan)
    modifies store
    ensures ok <==> AllNamesDistinct(scan) && NoClashes(old(store.tables), source, scan)
    ensures !ok ==> store.tables == old(store.tables) && store.journal == old(store.journal) && detected == []
    ensures ok ==> Reconciled(store.backend, source, old(store.tables), store.tables, scan, ids)
    ensures ok ==> Journalled(source, old(store.tables), store.tables, detected)
    ensures ok ==> AllRecorded(old(store.tables), store.tables, scan, ids, detected)
    ensures ok ==> ReplaysToScan(old(store.tables), store.tables, scan, ids, detected)
    ensures ok ==> store.journal == StoredJournal(store.backend, old(store.journal) + detected,
                                                  old(store.tables).objects.Keys - store.tables.objects.Keys)
    ensures ok && Quiet(old(store.tables), source, scan) ==>
              store.tables == old(store.tables) && detected == [] && writes == 0
    ensures ok && writes == 0 ==> Quiet(old(store.tables), source, scan)
  {
    hide WellFormed, StoreKeysDistinct, ScanKeysDistinct, AllNamesDistinct, NoClashes, Quiet, Loaded, ObjectsSynced,
         Dropping, Progress, Journalled, Reconciled, QuietlyStored, ObjectRecorded, AllRecorded, ReplaysToScan, OfScan;
    var tx := new Transaction(store.backend, source, store.tables, store.journal);
    detected, writes := [], 0;
    var objects, columns := Load(store.tables, source);
    var currentKeys;
    ok, currentKeys, ids := SyncObjects(tx, scan, objects, columns);
    if !ok {
      return;
    }
    ghost var t0, cs := tx.tables, tx.detected;
    forall c | c in cs ensures c.objectId in ids {
      OfScanIds(c, scan, ids);
    }
    DroppingStart(tx.backend, source, tx.start, t0, cs, objects, columns, scan, ids, currentKeys);
    EntriesDistinct(tx.start, source, objects, columns);
    if Quiet(tx.start, source, scan) {
      QuietKeys(tx.start, source, objects, columns, scan, currentKeys);
    }
    DropObjects(tx, objects, columns, currentKeys);
    if tx.writes == 0 {
      SilentKeys(tx.start, source, objects, columns, scan, currentKeys);
    }
    ReconciledAtEnd(tx.backend, source, tx.start, t0, tx.tables, tx.detected, objects, columns, scan, ids, currentKeys);
    RecordedAtEnd(tx.backend, source, tx.start, tx.tables, scan, ids, cs, tx.detected);
    RecordsReplay(tx.backend, source, tx.start, tx.tables, scan, ids, tx.detected);
    store.tables, store.journal := tx.tables, tx.journal;
    detected, writes := tx.detected, tx.writes;
  }
}
