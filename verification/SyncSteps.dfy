/** The steps of a schema sync on table values: what the column loops and the body of the object
    loop have achieved so far, and how one more statement moves it on. */
module SyncSteps {
  import opened Options
  import opened Catalog
  import opened Journal
  import opened SyncInvariant

  /** The journal table. In Postgres its object_id references schema_objects ON DELETE
      CASCADE, so deleting an object deletes the records about it. */
  function StoredJournal(b: Backend, rows: seq<Change>, gone: set<Id>): seq<Change> {
    if b.SQLite? then rows else WithoutObjects(rows, gone)
  }

  predicate Named(cols: seq<ScannedColumn>, n: nat, name: string)
    requires n <= |cols|
  {
    exists j | 0 <= j < n :: cols[j].name == name
  }

  predicate DistinctNames(cols: seq<ScannedColumn>) {
    forall i, j | 0 <= i < j < |cols| :: cols[i].name != cols[j].name
  }

  /** The stored row for one scanned column, given the tables before the sync. */
  ghost predicate Written(b: Backend, start: Tables, t: Tables, k: ColumnKey, col: ScannedColumn) {
    && k in t.columns
    && t.columns[k] == if k in start.columns then Merged(b, start.columns[k], col)
                       else NewColumn(b, t.columns[k].id, col)
  }

  /** Every row of the object matches its scanned column already. */
  ghost predicate ColumnsQuiet(t: Tables, o: Id, cols: seq<ScannedColumn>) {
    forall j | 0 <= j < |cols| ::
      SignatureNow(t, ColumnKey(o, cols[j].name)) == Some(ScannedSignature(cols[j]))
  }

  /** The stored signature was the scanned one and no record is about the column, or a record
      announces the scanned one. */
  ghost predicate ColumnRecorded(t0: Tables, o: Id, col: ScannedColumn, cs: seq<Change>) {
    || (SignatureNow(t0, ColumnKey(o, col.name)) == Some(ScannedSignature(col)) && NoneAbout(cs, o, col.name))
    || exists c | c in cs :: Announces(c, o, col)
  }

  predicate NoneAbout(cs: seq<Change>, o: Id, name: string) {
    forall c | c in cs :: About(c) != (o, Some(name))
  }

  predicate Announces(c: Change, o: Id, col: ScannedColumn) {
    About(c) == (o, Some(col.name)) && c.newValue == Some(ScannedSignature(col))
  }

  /** A record is about an object or one of its columns, under the table name it was scanned with. */
  predicate Concerns(c: Change, o: Id, table: string) {
    c.objectId == o && c.subject.table == table
  }

  /** Further records about other columns leave a column recorded. */
  lemma RecordedStill(t0: Tables, o: Id, col: ScannedColumn, cs: seq<Change>, ds: seq<Change>)
    requires cs <= ds && ColumnRecorded(t0, o, col, cs)
    requires forall c | c in ds :: c in cs || About(c) != (o, Some(col.name))
    ensures ColumnRecorded(t0, o, col, ds)
  {
    hide SignatureNow, ScannedSignature, Announces;
  }

  lemma RecordedNow(t0: Tables, o: Id, col: ScannedColumn, cs: seq<Change>, ds: seq<Change>)
    requires (ds == cs && NoneAbout(cs, o, col.name) &&
              SignatureNow(t0, ColumnKey(o, col.name)) == Some(ScannedSignature(col))) ||
             exists c :: ds == cs + [c] && Announces(c, o, col)
    ensures ColumnRecorded(t0, o, col, ds)
  {
    hide SignatureNow, ScannedSignature, Announces, NoneAbout;
    if c :| ds == cs + [c] && Announces(c, o, col) {
      assert c in ds;
    }
  }

  lemma RecordedFrom(t0: Tables, t: Tables, o: Id, col: ScannedColumn, cs: seq<Change>)
    requires ColumnRecorded(t, o, col, cs) &&
      SignatureNow(t0, ColumnKey(o, col.name)) == SignatureNow(t, ColumnKey(o, col.name))
    ensures ColumnRecorded(t0, o, col, cs)
  {}

  /** The in-memory column map of one object. */
  ghost predicate Indexes(t: Tables, o: Id, m: map<string, ColumnRow>) {
    forall n: string :: (n in m <==> ColumnKey(o, n) in t.columns) && (n in m ==> m[n] == t.columns[ColumnKey(o, n)])
  }

  /** Nothing changed but columns of one object (and the edges). */
  ghost predicate OnlyColumnsOf(o: Id, t: Tables, u: Tables) {
    && u.objects == t.objects
    && forall k: ColumnKey | k.owner != o ::
         (k in t.columns <==> k in u.columns) && (k in t.columns ==> t.columns[k] == u.columns[k])
  }

  lemma UpdateIsPut(t: Tables, k: ColumnKey, b: Backend, col: ScannedColumn)
    requires WellFormed(t) && k in t.columns
    ensures UpdateWhereId(b, t, t.columns[k].id, col)
         == PutColumn(t, k, Overwritten(b, t.columns[k], col), t.nextId)
  {}

  function UpdateWhereId(b: Backend, t: Tables, id: Id, col: ScannedColumn): Tables {
    t.(columns := map k | k in t.columns ::
                    if t.columns[k].id == id then Overwritten(b, t.columns[k], col) else t.columns[k])
  }

  function DeleteWhereId(t: Tables, id: Id): Tables {
    t.(columns := map k | k in t.columns && t.columns[k].id != id :: t.columns[k])
  }

  lemma DeleteIsWithout(t: Tables, k: ColumnKey)
    requires WellFormed(t) && k in t.columns
    ensures DeleteWhereId(t, t.columns[k].id) == WithoutColumn(t, k)
  {}

  /** Tables, in-memory changes and journal table agree. */
  ghost predicate Consistent(
    b: Backend, source: string, start: Tables, earlier: seq<Change>,
    t: Tables, cs: seq<Change>, journal: seq<Change>)
  {
    && Progress(source, start, t)
    && Journalled(source, start, t, cs)
    && journal == StoredJournal(b, earlier + cs, start.objects.Keys - t.objects.Keys)
  }

  lemma JournalOneMore(b: Backend, earlier: seq<Change>, cs: seq<Change>, gone: set<Id>, c: Change)
    requires c.objectId !in gone
    ensures StoredJournal(b, earlier + (cs + [c]), gone) == StoredJournal(b, earlier + cs, gone) + [c]
  {
    WithoutObjectsOneMore(earlier + cs, c, gone);
    assert earlier + cs + [c] == earlier + (cs + [c]);
  }

  lemma ConsistentStarts(b: Backend, source: string, t: Tables, journal: seq<Change>)
    requires WellFormed(t)
    ensures Consistent(b, source, t, journal, t, [], journal)
  {
    ProgressStarts(source, t);
    WithoutObjectsNone(journal);
    assert journal + [] == journal && t.objects.Keys - t.objects.Keys == {};
  }

  /** A record stays truthful as long as the object it is about stays. */
  lemma TruthfulStill(source: string, start: Tables, t: Tables, u: Tables, cs: seq<Change>)
    requires forall c | c in cs :: Truthful(source, start, t, c)
    requires forall c | c in cs && c.objectId in t.objects ::
      c.objectId in u.objects && u.objects[c.objectId].kind == t.objects[c.objectId].kind &&
      u.objects[c.objectId].name == t.objects[c.objectId].name
    ensures forall c | c in cs && c.kind.AddObject? ::
      && c.objectId in t.objects && c.objectId in u.objects
      && u.objects[c.objectId].kind == t.objects[c.objectId].kind
      && u.objects[c.objectId].name == t.objects[c.objectId].name
  {
    hide SignatureNow;
  }

  lemma TruthfulColumn(source: string, start: Tables, u: Tables, c: Change, k: ColumnKey)
    requires c.sourceId == source && c.objectId == k.owner && c.subject.TheColumn? && c.subject.column == k.name
    requires c.oldValue == SignatureNow(start, k) && !c.kind.AddObject? && !c.kind.DropObject?
    ensures Truthful(source, start, u, c)
  {
    hide SignatureNow;
    assert ColumnKey(c.objectId, c.subject.column) == k;
  }

  lemma TruthfulAdd(source: string, start: Tables, u: Tables, c: Change)
    requires c.objectId in u.objects
    requires c == Change(source, c.objectId, AddObject, TheObject(u.objects[c.objectId].name), None,
                         Some(u.objects[c.objectId].kind))
    ensures Truthful(source, start, u, c)
  {}

  lemma TruthfulDrop(source: string, start: Tables, u: Tables, c: Change)
    requires c.objectId in start.objects
    requires c == Change(source, c.objectId, DropObject, TheObject(start.objects[c.objectId].name),
                         Some(start.objects[c.objectId].kind), None)
    ensures Truthful(source, start, u, c)
  {}

  // What recording a change and carrying it out does to the journal.

  lemma JournalledAfterPutColumn(
    source: string, start: Tables, t: Tables, u: Tables, cs: seq<Change>, k: ColumnKey, row: ColumnRow, c: Change)
    requires Journalled(source, start, t, cs) && Unmentioned(cs, c) && k.owner in t.objects
    requires u.objects == t.objects && u.columns == t.columns[k := row]
    requires c.sourceId == source && c.objectId == k.owner && c.subject.TheColumn? && c.subject.column == k.name
    requires c.kind == (if k in t.columns then AlterColumn else AddColumn)
    requires c.oldValue == SignatureNow(start, k) != c.newValue && c.newValue.Some?
    ensures Journalled(source, start, u, cs + [c])
  {
    hide SignatureNow, Replay, Apply, ViewOf, Truthful, NoneTwice;
    var v := Replay(ViewOf(start), cs).value;
    ViewNow(source, start, t, cs, k);
    ApplyPutColumn(v, k, c);
    TruthfulStill(source, start, t, u, cs);
    TruthfulColumn(source, start, u, c, k);
    JournalledStep(source, start, t, u, cs, c, v.(columns := v.columns[k := c.newValue.value]));
  }

  lemma JournalledAfterDropColumn(
    source: string, start: Tables, t: Tables, u: Tables, cs: seq<Change>, k: ColumnKey, c: Change)
    requires Journalled(source, start, t, cs) && Unmentioned(cs, c) && k.owner in t.objects && k in t.columns
    requires u.objects == t.objects && u.columns == t.columns - {k}
    requires c.sourceId == source && c.objectId == k.owner && c.subject.TheColumn? && c.subject.column == k.name
    requires c.kind.DropColumn? && c.oldValue == SignatureNow(start, k) && c.newValue == None
    ensures Journalled(source, start, u, cs + [c])
  {
    hide SignatureNow, Replay, Apply, ViewOf, Truthful, NoneTwice;
    var v := Replay(ViewOf(start), cs).value;
    ViewNow(source, start, t, cs, k);
    ApplyDropColumn(v, k, c);
    TruthfulStill(source, start, t, u, cs);
    TruthfulColumn(source, start, u, c, k);
    JournalledStep(source, start, t, u, cs, c, v.(columns := v.columns - {k}));
  }

  lemma JournalledAfterDropObject(
    source: string, start: Tables, t: Tables, u: Tables, cs: seq<Change>, o: Id, c: Change)
    requires Journalled(source, start, t, cs) && Unmentioned(cs, c) && forall x | x in cs :: x.objectId != o
    requires o in t.objects && o in start.objects && t.objects[o] == start.objects[o]
    requires u.objects == t.objects - {o} && u.columns == map k | k in t.columns && k.owner != o :: t.columns[k]
    requires c == Change(source, o, DropObject, TheObject(t.objects[o].name), Some(t.objects[o].kind), None)
    ensures Journalled(source, start, u, cs + [c])
  {
    hide SignatureNow, Replay, Apply, ViewOf, Truthful, NoneTwice;
    var v := Replay(ViewOf(start), cs).value;
    ApplyDropObject(v, o, c);
    TruthfulStill(source, start, t, u, cs);
    TruthfulDrop(source, start, u, c);
    var w := View(v.objects - {o}, map k | k in v.columns && k.owner != o :: v.columns[k]);
    JournalledStep(source, start, t, u, cs, c, w);
  }

  /** Recording a column change and writing the column. */
  lemma ConsistentAfterPutColumn(
    b: Backend, source: string, start: Tables, earlier: seq<Change>,
    t: Tables, cs: seq<Change>, journal: seq<Change>, k: ColumnKey, row: ColumnRow, n: Id, c: Change)
    requires Consistent(b, source, start, earlier, t, cs, journal)
    requires ColumnPut(source, start, t, k, row, n) && Unmentioned(cs, c)
    requires c.sourceId == source && c.objectId == k.owner && c.subject.TheColumn? && c.subject.column == k.name
    requires c.kind == (if k in t.columns then AlterColumn else AddColumn)
    requires c.oldValue == SignatureNow(start, k) != c.newValue && c.newValue.Some?
    ensures Consistent(b, source, start, earlier, PutColumn(t, k, row, n), cs + [c], journal + [c])
  {
    hide Progress, SignatureNow, Journalled;
    ProgressAfterPutColumn(source, start, t, k, row, n);
    JournalledAfterPutColumn(source, start, t, PutColumn(t, k, row, n), cs, k, row, c);
    JournalOneMore(b, earlier, cs, start.objects.Keys - t.objects.Keys, c);
  }

  lemma ConsistentAfterDropColumn(
    b: Backend, source: string, start: Tables, earlier: seq<Change>,
    t: Tables, cs: seq<Change>, journal: seq<Change>, k: ColumnKey, c: Change)
    requires Consistent(b, source, start, earlier, t, cs, journal)
    requires k in t.columns && k in start.columns && Droppable(source, start, t, k.owner) && Unmentioned(cs, c)
    requires c.sourceId == source && c.objectId == k.owner && c.subject.TheColumn? && c.subject.column == k.name
    requires c.kind.DropColumn? && c.oldValue == SignatureNow(start, k) && c.newValue == None
    ensures Consistent(b, source, start, earlier,
              WithoutColumn(WithoutEdgesAt(t, t.columns[k].id), k), cs + [c], journal + [c])
  {
    var u := WithoutColumn(WithoutEdgesAt(t, t.columns[k].id), k);
    hide Progress, SignatureNow, Journalled;
    ProgressAfterDropColumn(source, start, t, k);
    JournalledAfterDropColumn(source, start, t, u, cs, k, c);
    JournalOneMore(b, earlier, cs, start.objects.Keys - t.objects.Keys, c);
  }

  lemma NextIsFresh(source: string, start: Tables, t: Tables)
    requires Progress(source, start, t)
    ensures t.nextId !in t.objects && t.nextId !in start.objects
    ensures SameColumns(start, t, t.nextId) && Indexes(t, t.nextId, map[])
  {}

  lemma ConsistentAfterCreateObject(
    b: Backend, source: string, start: Tables, earlier: seq<Change>,
    t: Tables, cs: seq<Change>, journal: seq<Change>, obj: ScannedObject, c: Change)
    requires Consistent(b, source, start, earlier, t, cs, journal) && Unmentioned(cs, c)
    requires c == Change(source, t.nextId, AddObject, TheObject(obj.name), None, Some(obj.kind))
    ensures Consistent(b, source, start, earlier,
              PutObject(t, t.nextId, NewObject(source, obj), t.nextId + 1), cs + [c], journal + [c])
  {
    hide Progress, SignatureNow, Replay, ViewOf, Truthful, NoneTwice;
    var o := t.nextId;
    var u := PutObject(t, o, NewObject(source, obj), o + 1);
    NextIsFresh(source, start, t);
    ProgressAfterPutObject(source, start, t, o, NewObject(source, obj), o + 1);
    var v := Replay(ViewOf(start), cs).value;
    TruthfulStill(source, start, t, u, cs);
    TruthfulAdd(source, start, u, c);
    JournalledStep(source, start, t, u, cs, c, v.(objects := v.objects + {o}));
    assert start.objects.Keys - u.objects.Keys == start.objects.Keys - t.objects.Keys;
    JournalOneMore(b, earlier, cs, start.objects.Keys - t.objects.Keys, c);
  }

  lemma ConsistentAfterUpdateObject(
    b: Backend, source: string, start: Tables, earlier: seq<Change>,
    t: Tables, cs: seq<Change>, journal: seq<Change>, o: Id, obj: ScannedObject)
    requires Consistent(b, source, start, earlier, t, cs, journal)
    requires o in t.objects && t.objects[o].sourceId == source && forall c | c in cs :: c.objectId != o
    ensures Consistent(b, source, start, earlier,
              PutObject(t, o, Refreshed(t.objects[o], obj), t.nextId), cs, journal)
  {
    var u := PutObject(t, o, Refreshed(t.objects[o], obj), t.nextId);
    assert o < t.nextId;
    ProgressAfterPutObject(source, start, t, o, Refreshed(t.objects[o], obj), t.nextId);
    hide Progress, SignatureNow, Replay, ViewOf, NoneTwice;
    assert u.objects.Keys == t.objects.Keys;
  }

  lemma ConsistentAfterDropObject(
    b: Backend, source: string, start: Tables, earlier: seq<Change>,
    t: Tables, cs: seq<Change>, journal: seq<Change>, o: Id, edges: set<Edge>, c: Change)
    requires Consistent(b, source, start, earlier, t, cs, journal) && Unmentioned(cs, c)
    requires Droppable(source, start, t, o) && SameColumns(start, t, o) && EdgesClearOf(t, o, edges)
    requires forall x | x in cs :: x.objectId != o
    requires t.objects[o] == start.objects[o]
    requires c == Change(source, o, DropObject, TheObject(t.objects[o].name), Some(t.objects[o].kind), None)
    ensures Consistent(b, source, start, earlier, WithoutObject(t.(edges := edges), o), cs + [c],
              StoredJournal(b, journal + [c], {o}))
  {
    hide Progress, Journalled, SameColumns, EdgesClearOf, WithoutObjects;
    var u := WithoutObject(t.(edges := edges), o);
    var gone := start.objects.Keys - t.objects.Keys;
    ProgressAfterDropObject(source, start, t, o, edges);
    JournalledAfterDropObject(source, start, t, u, cs, o, c);
    JournalOneMore(b, earlier, cs, gone, c);
    WithoutObjectsTwice(earlier + (cs + [c]), gone, {o});
    assert start.objects.Keys - u.objects.Keys == gone + {o};
  }

  lemma WellFormedNow(
    b: Backend, source: string, start: Tables, earlier: seq<Change>,
    t: Tables, cs: seq<Change>, journal: seq<Change>)
    requires Consistent(b, source, start, earlier, t, cs, journal)
    ensures WellFormed(t) && WellFormed(start)
  {}

  lemma ProgressNow(
    b: Backend, source: string, start: Tables, earlier: seq<Change>,
    t: Tables, cs: seq<Change>, journal: seq<Change>)
    requires Consistent(b, source, start, earlier, t, cs, journal)
    ensures Progress(source, start, t)
  {}

  lemma LoadedIndexes(start: Tables, t: Tables, o: Id, m: map<string, ColumnRow>)
    requires ColumnsLoaded(start, t, o, m)
    ensures Indexes(t, o, m)
  {}

  lemma RowIdBelow(t: Tables, k: ColumnKey)
    requires WellFormed(t) && k in t.columns
    ensures t.columns[k].id < t.nextId
  {}

  // ---------------------------------------------------------------- the column loop, on values

  /** Before the loop, the column map is the object's stored columns, still as at the start. */
  ghost predicate ColumnsLoaded(start: Tables, t: Tables, o: Id, oldColumns: map<string, ColumnRow>) {
    SameColumns(start, t, o) && Indexes(t, o, oldColumns)
  }

  /** After `n` scanned columns: those are written, the others are as loaded and still in `rest`. */
  ghost predicate ColumnsSynced(
    b: Backend, start: Tables, t0: Tables, t: Tables, o: Id, cols: seq<ScannedColumn>, n: nat,
    oldColumns: map<string, ColumnRow>, rest: map<string, ColumnRow>)
    requires n <= |cols|
  {
    && OnlyColumnsOf(o, t0, t)
    && (forall j, l | 0 <= j < l < n :: cols[j].name != cols[l].name)
    && (forall j | 0 <= j < n :: Written(b, start, t, ColumnKey(o, cols[j].name), cols[j]))
    && (forall m: string :: m in rest <==> m in oldColumns && !Named(cols, n, m))
    && (forall m: string :: ColumnKey(o, m) in t.columns <==> m in rest || Named(cols, n, m))
    && (forall m | m in rest :: rest[m] == oldColumns[m] == t.columns[ColumnKey(o, m)])
  }

  lemma SyncedStart(
    b: Backend, start: Tables, t: Tables, o: Id, cols: seq<ScannedColumn>, oldColumns: map<string, ColumnRow>)
    requires ColumnsLoaded(start, t, o, oldColumns)
    ensures ColumnsSynced(b, start, t, t, o, cols, 0, oldColumns, oldColumns)
  {}

  lemma NamedNext(cols: seq<ScannedColumn>, n: nat)
    requires n < |cols|
    ensures forall m: string :: Named(cols, n + 1, m) <==> Named(cols, n, m) || m == cols[n].name
  {
    forall m: string ensures Named(cols, n + 1, m) <==> Named(cols, n, m) || m == cols[n].name {
      if Named(cols, n, m) {
        var j :| 0 <= j < n && cols[j].name == m;
        assert cols[j].name == m && j < n + 1;
      }
    }
  }

  lemma SyncedAfterAdd(
    b: Backend, start: Tables, t0: Tables, t: Tables, o: Id, cols: seq<ScannedColumn>, n: nat,
    oldColumns: map<string, ColumnRow>, rest: map<string, ColumnRow>)
    requires n < |cols| && ColumnsLoaded(start, t0, o, oldColumns)
    requires ColumnsSynced(b, start, t0, t, o, cols, n, oldColumns, rest)
    requires cols[n].name !in rest && ColumnKey(o, cols[n].name) !in t.columns
    ensures ColumnsSynced(b, start, t0,
              PutColumn(t, ColumnKey(o, cols[n].name), NewColumn(b, t.nextId, cols[n]), t.nextId + 1),
              o, cols, n + 1, oldColumns, rest)
  {
    hide Merged, Named;
    NamedNext(cols, n);
    NamedBefore(cols, n);
  }

  lemma NamedNone(cols: seq<ScannedColumn>)
    ensures forall m: string :: !Named(cols, 0, m)
  {}

  /** What the branch on the column map tells: a name not in it is either new to the
      object, or a duplicate of an earlier scanned name. */
  lemma ColumnCases(
    b: Backend, start: Tables, t0: Tables, t: Tables, o: Id, cols: seq<ScannedColumn>, n: nat,
    oldColumns: map<string, ColumnRow>, rest: map<string, ColumnRow>)
    requires n < |cols| && ColumnsLoaded(start, t0, o, oldColumns)
    requires ColumnsSynced(b, start, t0, t, o, cols, n, oldColumns, rest)
    ensures t.objects == t0.objects
    ensures var k := ColumnKey(o, cols[n].name);
      if cols[n].name in rest
      then k in t.columns && k in t0.columns && k in start.columns &&
           t.columns[k] == t0.columns[k] == start.columns[k] == rest[cols[n].name] && !Named(cols, n, cols[n].name)
      else if k in t.columns then !DistinctNames(cols)
      else k !in start.columns && k !in t0.columns && !Named(cols, n, cols[n].name)
  {}

  lemma SyncedDistinct(
    b: Backend, start: Tables, t0: Tables, t: Tables, o: Id, cols: seq<ScannedColumn>,
    oldColumns: map<string, ColumnRow>, rest: map<string, ColumnRow>)
    requires ColumnsSynced(b, start, t0, t, o, cols, |cols|, oldColumns, rest)
    ensures DistinctNames(cols)
  {}

  lemma MergedQuiet(b: Backend, row: ColumnRow, col: ScannedColumn)
    ensures StoredSignature(row) == ScannedSignature(col) ==> Merged(b, row, col) == row
  {
    hide StoredSignature, ScannedSignature;
  }

  lemma QuietNone(t: Tables, o: Id, cols: seq<ScannedColumn>)
    ensures ColumnsQuiet(t, o, cols[..0])
  {}

  lemma QuietHere(t: Tables, o: Id, cols: seq<ScannedColumn>, n: nat)
    requires n < |cols|
    ensures ColumnsQuiet(t, o, cols) ==> SignatureNow(t, ColumnKey(o, cols[n].name)) == Some(ScannedSignature(cols[n]))
  {
    hide SignatureNow, ScannedSignature;
  }

  lemma QuietOneMore(t: Tables, o: Id, cols: seq<ScannedColumn>, n: nat)
    requires n < |cols|
    ensures ColumnsQuiet(t, o, cols[..n + 1]) <==>
            ColumnsQuiet(t, o, cols[..n]) &&
              SignatureNow(t, ColumnKey(o, cols[n].name)) == Some(ScannedSignature(cols[n]))
  {
    hide SignatureNow, ScannedSignature;
    assert forall j | 0 <= j < n :: cols[..n + 1][j] == cols[..n][j];
    assert cols[..n + 1][n] == cols[n];
  }

  lemma NamedBefore(cols: seq<ScannedColumn>, n: nat)
    requires n <= |cols|
    ensures forall j | 0 <= j < n :: Named(cols, n, cols[j].name)
  {}

  lemma SyncedAfterAlter(
    b: Backend, start: Tables, t0: Tables, t: Tables, o: Id, cols: seq<ScannedColumn>, n: nat,
    oldColumns: map<string, ColumnRow>, rest: map<string, ColumnRow>)
    requires n < |cols| && ColumnsLoaded(start, t0, o, oldColumns)
    requires ColumnsSynced(b, start, t0, t, o, cols, n, oldColumns, rest)
    requires cols[n].name in rest
    ensures ColumnsSynced(b, start, t0,
              PutColumn(t, ColumnKey(o, cols[n].name), Merged(b, rest[cols[n].name], cols[n]), t.nextId),
              o, cols, n + 1, oldColumns, rest - {cols[n].name})
  {
    hide Merged, NewColumn, Named;
    NamedNext(cols, n);
    NamedBefore(cols, n);
  }

  // ---------------------------------------------------------------- the drop loop and one whole object, on values

  ghost predicate ColumnsDropped(t0: Tables, t: Tables, o: Id, dropped: set<string>) {
    && OnlyColumnsOf(o, t0, t)
    && (forall m: string :: ColumnKey(o, m) in t.columns <==> ColumnKey(o, m) in t0.columns && m !in dropped)
    && (forall m: string | ColumnKey(o, m) in t.columns :: t.columns[ColumnKey(o, m)] == t0.columns[ColumnKey(o, m)])
  }

  /** The drop loop: what it has visited is gone, what is left is still as loaded. */
  ghost predicate DropLoop(
    source: string, start: Tables, t0: Tables, t: Tables, o: Id,
    oldColumns: map<string, ColumnRow>, left: map<string, ColumnRow>)
  {
    && left.Keys <= oldColumns.Keys && ColumnsDropped(t0, t, o, oldColumns.Keys - left.Keys)
    && (left != map[] ==> Droppable(source, start, t, o))
    && (forall n | n in left ::
          && left[n] == oldColumns[n] && ColumnKey(o, n) in start.columns && start.columns[ColumnKey(o, n)] == left[n]
          && ColumnKey(o, n) in t.columns && t.columns[ColumnKey(o, n)] == left[n])
  }

  lemma DropLoopUse(
    source: string, start: Tables, t0: Tables, t: Tables, o: Id,
    oldColumns: map<string, ColumnRow>, left: map<string, ColumnRow>, n: string)
    requires DropLoop(source, start, t0, t, o, oldColumns, left) && n in left
    ensures Droppable(source, start, t, o) && n in oldColumns
    ensures var k := ColumnKey(o, n);
      k in start.columns && k in t.columns && t.columns[k] == start.columns[k] == left[n]
  {}

  lemma DropLoopDone(
    source: string, start: Tables, t0: Tables, t: Tables, o: Id, oldColumns: map<string, ColumnRow>)
    requires DropLoop(source, start, t0, t, o, oldColumns, map[])
    ensures ColumnsDropped(t0, t, o, oldColumns.Keys)
  {
    var none: map<string, ColumnRow> := map[];
    assert oldColumns.Keys - none.Keys == oldColumns.Keys;
  }

  lemma DropLoopNext(
    source: string, start: Tables, t0: Tables, t: Tables, o: Id,
    oldColumns: map<string, ColumnRow>, left: map<string, ColumnRow>, n: string)
    requires DropLoop(source, start, t0, t, o, oldColumns, left) && n in left
    ensures DropLoop(source, start, t0, WithoutColumn(WithoutEdgesAt(t, left[n].id), ColumnKey(o, n)), o,
              oldColumns, left - {n})
  {
    assert oldColumns.Keys - (left - {n}).Keys == oldColumns.Keys - left.Keys + {n};
  }

  /** One object is stored as scanned: its row, exactly its columns, and each column's row. */
  ghost predicate ObjectSynced(b: Backend, start: Tables, t: Tables, source: string, o: Id, obj: ScannedObject) {
    && o in t.objects
    && t.objects[o] == (if o in start.objects then Refreshed(start.objects[o], obj) else NewObject(source, obj))
    && ColumnsAsScanned(b, start, t, o, obj.columns)
  }

  ghost predicate ColumnsAsScanned(b: Backend, start: Tables, t: Tables, o: Id, cols: seq<ScannedColumn>) {
    && (forall m: string :: ColumnKey(o, m) in t.columns <==> Named(cols, |cols|, m))
    && (forall j | 0 <= j < |cols| :: Written(b, start, t, ColumnKey(o, cols[j].name), cols[j]))
  }

  lemma ColumnsDone(
    b: Backend, start: Tables, t0: Tables, t1: Tables, t2: Tables, o: Id, cols: seq<ScannedColumn>,
    oldColumns: map<string, ColumnRow>, rest: map<string, ColumnRow>)
    requires ColumnsSynced(b, start, t0, t1, o, cols, |cols|, oldColumns, rest)
    requires ColumnsDropped(t1, t2, o, rest.Keys)
    ensures ColumnsAsScanned(b, start, t2, o, cols) && OnlyColumnsOf(o, t0, t2)
  {
    hide Named, Merged, NewColumn;
    NamedBefore(cols, |cols|);
    forall j | 0 <= j < |cols| ensures Written(b, start, t2, ColumnKey(o, cols[j].name), cols[j]) {
      assert Written(b, start, t1, ColumnKey(o, cols[j].name), cols[j]);
    }
  }

  /** An entry of the in-memory object map. */
  datatype Entry = Entry(id: Id, row: ObjectRow)

  /** What the lookup of a scanned object found: a stored object not touched so far with its
      column map, or nothing. */
  ghost predicate Looked(
    source: string, start: Tables, t: Tables, cs: seq<Change>, existing: Option<Entry>,
    existingColumns: map<Id, map<string, ColumnRow>>)
  {
    match existing
    case None => t.nextId !in existingColumns && forall c | c in cs :: c.objectId < t.nextId
    case Some(e) =>
      && Droppable(source, start, t, e.id) && t.objects[e.id] == start.objects[e.id] == e.row
      && e.id in existingColumns && ColumnsLoaded(start, t, e.id, existingColumns[e.id])
      && forall c | c in cs :: c.objectId != e.id
  }

  /** The statements for one scanned object violate no UNIQUE constraint. */
  predicate Acceptable(source: string, t: Tables, existing: Option<Entry>, obj: ScannedObject) {
    && DistinctNames(obj.columns)
    && match existing
       case None => !NameTaken(t, source, obj.name, obj.schema, {})
       case Some(e) => NeedsUpdate(e.row, obj) ==> !NameTaken(t, source, e.row.name, obj.schema, {e.id})
  }

  /** The stored object already agrees with the scanned one in everything the sync compares. */
  ghost predicate ObjectQuiet(t: Tables, o: Id, obj: ScannedObject) {
    && o in t.objects && !NeedsUpdate(t.objects[o], obj) && ColumnsQuiet(t, o, obj.columns)
    && forall m: string | ColumnKey(o, m) in t.columns :: Named(obj.columns, |obj.columns|, m)
  }

  ghost predicate OnlyObject(o: Id, t: Tables, u: Tables) {
    && (forall x | x != o :: (x in t.objects <==> x in u.objects) && (x in t.objects ==> t.objects[x] == u.objects[x]))
    && (forall k: ColumnKey | k.owner != o ::
          (k in t.columns <==> k in u.columns) && (k in t.columns ==> t.columns[k] == u.columns[k]))
  }

  /** The row statement for one scanned object. */
  ghost predicate ObjectStored(
    source: string, t0: Tables, t1: Tables, existing: Option<Entry>, obj: ScannedObject, o: Id)
  {
    if existing.Some?
    then o == existing.value.id && t1 == PutObject(t0, o, Refreshed(existing.value.row, obj), t0.nextId)
    else o == t0.nextId && t1 == PutObject(t0, o, NewObject(source, obj), o + 1)
  }

  function ColumnMapOf(existingColumns: map<Id, map<string, ColumnRow>>, o: Id): map<string, ColumnRow> {
    if o in existingColumns then existingColumns[o] else map[]
  }

  lemma LoadedAfterStore(
    source: string, start: Tables, t0: Tables, t1: Tables, cs: seq<Change>, existing: Option<Entry>,
    existingColumns: map<Id, map<string, ColumnRow>>, obj: ScannedObject, o: Id)
    requires Progress(source, start, t0) && Looked(source, start, t0, cs, existing, existingColumns)
    requires ObjectStored(source, t0, t1, existing, obj, o)
    ensures OnlyObject(o, t0, t1) && o in t1.objects && t1.objects[o].sourceId == source
    ensures t1.objects[o] == if o in start.objects then Refreshed(start.objects[o], obj) else NewObject(source, obj)
    ensures ColumnsLoaded(start, t1, o, ColumnMapOf(existingColumns, o))
    ensures ColumnMapOf(existingColumns, o) != map[] ==> Droppable(source, start, t1, o)
    ensures o == if existing.Some? then existing.value.id else t0.nextId
    ensures existing.Some? ==> o in t0.objects && t0.objects[o] == existing.value.row
    ensures forall c | c in cs :: c.objectId != o
  {
    hide Progress;
    if existing.None? {
      NextIsFresh(source, start, t0);
    }
  }

  lemma SameColumnsStored(source: string, t0: Tables, t1: Tables, existing: Option<Entry>, obj: ScannedObject, o: Id)
    requires ObjectStored(source, t0, t1, existing, obj, o)
    ensures forall k :: SignatureNow(t0, k) == SignatureNow(t1, k)
  {
    hide StoredSignature;
  }

  lemma RestDroppable(
    b: Backend, source: string, start: Tables, t1: Tables, t2: Tables, o: Id, cols: seq<ScannedColumn>,
    oldColumns: map<string, ColumnRow>, rest: map<string, ColumnRow>)
    requires ColumnsLoaded(start, t1, o, oldColumns) && (oldColumns != map[] ==> Droppable(source, start, t1, o))
    requires ColumnsSynced(b, start, t1, t2, o, cols, |cols|, oldColumns, rest)
    ensures DropLoop(source, start, t2, t2, o, rest, rest)
    ensures forall m | m in rest :: !Named(cols, |cols|, m)
  {
    hide Named, Written;
    if rest != map[] {
      var m :| m in rest;
      assert m in oldColumns;
    }
    forall n | n in rest ensures ColumnKey(o, n) in start.columns && start.columns[ColumnKey(o, n)] == rest[n] {
      assert n in oldColumns && ColumnKey(o, n) in t1.columns;
    }
  }

  lemma ObjectDone(
    b: Backend, source: string, start: Tables, t0: Tables, t1: Tables, t3: Tables, o: Id, obj: ScannedObject)
    requires OnlyObject(o, t0, t1) && OnlyColumnsOf(o, t1, t3) && o in t1.objects
    requires t1.objects[o] == if o in start.objects then Refreshed(start.objects[o], obj) else NewObject(source, obj)
    requires ColumnsAsScanned(b, start, t3, o, obj.columns)
    ensures ObjectSynced(b, start, t3, source, o, obj) && OnlyObject(o, t0, t3)
  {
    hide ColumnsAsScanned;
  }

  /** A quiet object: its row statement changes nothing, and no column is left to drop. */
  lemma QuietStore(source: string, t0: Tables, t1: Tables, existing: Option<Entry>, obj: ScannedObject, o: Id)
    requires existing.Some? && ObjectQuiet(t0, o, obj) && t0.objects[o] == existing.value.row
    requires ObjectStored(source, t0, t1, existing, obj, o)
    ensures t1 == t0 && !NeedsUpdate(existing.value.row, obj) && ColumnsQuiet(t1, o, obj.columns)
  {
    hide ColumnsQuiet, Named;
    assert Refreshed(t0.objects[o], obj) == t0.objects[o];
    assert t0.objects[o := t0.objects[o]] == t0.objects;
  }

  /** Conversely, an object for which nothing was written was quiet. */
  lemma SilentIsQuiet(
    b: Backend, source: string, start: Tables, t0: Tables, t: Tables, t2: Tables, existing: Option<Entry>, o: Id,
    obj: ScannedObject, oldColumns: map<string, ColumnRow>, rest: map<string, ColumnRow>)
    requires existing.Some? && o in t0.objects && t0.objects[o] == existing.value.row
    requires ObjectStored(source, t0, t, existing, obj, o) && !NeedsUpdate(existing.value.row, obj)
    requires ColumnsLoaded(start, t, o, oldColumns) && ColumnsQuiet(t, o, obj.columns) && rest == map[]
    requires ColumnsSynced(b, start, t, t2, o, obj.columns, |obj.columns|, oldColumns, rest)
    ensures ObjectQuiet(t0, o, obj)
  {
    hide Named, Written, ColumnsQuiet;
    assert Refreshed(t0.objects[o], obj) == t0.objects[o];
    assert t0.objects[o := t0.objects[o]] == t0.objects;
    assert t == t0;
  }

  lemma QuietRest(
    b: Backend, start: Tables, t: Tables, t2: Tables, o: Id, obj: ScannedObject,
    oldColumns: map<string, ColumnRow>, rest: map<string, ColumnRow>)
    requires ObjectQuiet(t, o, obj) && Indexes(t, o, oldColumns)
    requires ColumnsSynced(b, start, t, t2, o, obj.columns, |obj.columns|, oldColumns, rest)
    ensures rest == map[]
  {
    hide Named, Written, ColumnsQuiet, NeedsUpdate;
    forall m: string ensures m !in rest {
      assert ColumnKey(o, m) in t.columns <==> m in oldColumns;
    }
  }
}
