/** Schema reconciliation: one transaction that brings a source's stored catalogue in line
    with a fresh scan and records every change. */
module SchemaSync {
  import opened Options
  import opened Catalog
  import opened Journal
  import opened SyncInvariant
  import opened SyncSteps

  /** The state of one open transaction. `writes` counts the rows of the catalogue and lineage
      tables it has written; `detected` is the in-memory list of changes. */
  class Transaction {
    const backend: Backend
    const sourceId: string
    ghost const start: Tables
    ghost const earlier: seq<Change>
    var tables: Tables
    var journal: seq<Change>
    var detected: seq<Change>
    var writes: nat

    ghost predicate Valid()
      reads this
    {
      Consistent(backend, sourceId, start, earlier, tables, detected, journal)
    }

    constructor (backend: Backend, sourceId: string, tables: Tables, journal: seq<Change>)
      requires WellFormed(tables)
      ensures Valid() && this.backend == backend && this.sourceId == sourceId
      ensures this.tables == tables == start && this.journal == journal == earlier
      ensures detected == [] && writes == 0
    {
      this.backend, this.sourceId := backend, sourceId;
      this.tables, this.start, this.journal, this.earlier := tables, tables, journal, journal;
      detected, writes := [], 0;
      new;
      ConsistentStarts(backend, sourceId, tables, journal);
    }

    // ------------------------------------------------------------ statements

    method RecordSchemaChange(c: Change)
      modifies this`journal, this`detected
      ensures journal == old(journal) + [c] && detected == old(detected) + [c]
    {
      journal := journal + [c];
      detected := detected + [c];
    }

    method CreateSchemaObject(obj: ScannedObject) returns (ok: bool, id: Id)
      modifies this`tables, this`writes
      ensures ok <==> !NameTaken(old(tables), sourceId, obj.name, obj.schema, {})
      ensures ok ==> id == old(tables).nextId && writes == old(writes) + 1 &&
                     tables == PutObject(old(tables), id, NewObject(sourceId, obj), id + 1)
    {
      ok, id := !NameTaken(tables, sourceId, obj.name, obj.schema, {}), tables.nextId;
      if ok {
        tables := PutObject(tables, id, NewObject(sourceId, obj), id + 1);
        writes := writes + 1;
      }
    }

    method UpdateSchemaObject(id: Id, obj: ScannedObject) returns (ok: bool)
      modifies this`tables, this`writes
      ensures ok <==> id in old(tables).objects && !NameTaken(
          old(tables), old(tables).objects[id].sourceId, old(tables).objects[id].name, obj.schema, {id})
      ensures ok ==> writes == old(writes) + 1 &&
                     tables == PutObject(old(tables), id, Refreshed(old(tables).objects[id], obj), old(tables).nextId)
    {
      ok := id in tables.objects &&
        !NameTaken(tables, tables.objects[id].sourceId, tables.objects[id].name, obj.schema, {id});
      if ok {
        tables := PutObject(tables, id, Refreshed(tables.objects[id], obj), tables.nextId);
        writes := writes + 1;
      }
    }

    method DeleteSchemaObject(id: Id)
      modifies this`tables, this`journal, this`writes
      ensures tables == WithoutObject(old(tables), id) && writes == old(writes) + 1
      ensures journal == StoredJournal(backend, old(journal), {id})
    {
      tables := WithoutObject(tables, id);
      journal := StoredJournal(backend, journal, {id});
      writes := writes + 1;
    }

    method CreateColumn(id: Id, col: ScannedColumn) returns (ok: bool)
      modifies this`tables, this`writes
      ensures ok <==> ColumnKey(id, col.name) !in old(tables).columns
      ensures ok ==> writes == old(writes) + 1 &&
                     tables == PutColumn(old(tables), ColumnKey(id, col.name),
                                         NewColumn(backend, old(tables).nextId, col), old(tables).nextId + 1)
    {
      var k := ColumnKey(id, col.name);
      ok := k !in tables.columns;
      if ok {
        tables := PutColumn(tables, k, NewColumn(backend, tables.nextId, col), tables.nextId + 1);
        writes := writes + 1;
      }
    }

    method UpdateColumn(id: Id, col: ScannedColumn) returns (ok: bool)
      modifies this`tables, this`writes
      ensures ok <==> exists k :: k in old(tables).columns && old(tables).columns[k].id == id
      ensures ok ==> writes == old(writes) + 1 && tables == UpdateWhereId(backend, old(tables), id, col)
    {
      ok := exists k :: k in tables.columns && tables.columns[k].id == id;
      if ok {
        tables := UpdateWhereId(backend, tables, id, col);
        writes := writes + 1;
      }
    }

    method DeleteColumn(id: Id) returns (ok: bool)
      modifies this`tables, this`writes
      ensures ok <==> exists k :: k in old(tables).columns && old(tables).columns[k].id == id
      ensures ok ==> writes == old(writes) + 1 && tables == DeleteWhereId(old(tables), id)
    {
      ok := exists k :: k in tables.columns && tables.columns[k].id == id;
      if ok {
        tables := DeleteWhereId(tables, id);
        writes := writes + 1;
      }
    }

    method DeleteLineageEdgesByNode(id: Id)
      modifies this`tables, this`writes
      ensures tables == WithoutEdgesAt(old(tables), id) && writes == old(writes) + 1
    {
      tables := WithoutEdgesAt(tables, id);
      writes := writes + 1;
    }

    // ------------------------------------------------------------ the column loops

    /** Records and inserts a column that is not stored yet. */
    method AddColumn(o: Id, table: string, col: ScannedColumn) returns (ok: bool)
      requires Valid() && o in tables.objects && tables.objects[o].sourceId == sourceId
      requires ColumnKey(o, col.name) !in tables.columns ==>
        ColumnKey(o, col.name) !in start.columns && forall c | c in detected :: About(c) != (o, Some(col.name))
      modifies this
      ensures ok <==> ColumnKey(o, col.name) !in old(tables).columns
      ensures ok ==> writes == old(writes) + 1
      ensures ok ==> Valid() && tables == PutColumn(old(tables), ColumnKey(o, col.name),
                     NewColumn(backend, old(tables).nextId, col), old(tables).nextId + 1)
      ensures exists c ::
        detected == old(detected) + [c] && c.objectId == o && c.subject == TheColumn(table, col.name) &&
        Announces(c, o, col)
    {
      hide StoredSignature, ScannedSignature, Consistent;
      var k := ColumnKey(o, col.name);
      var c := Change(sourceId, o, ChangeKind.AddColumn, TheColumn(table, col.name), None, Some(ScannedSignature(col)));
      ghost var t, cs := tables, detected;
      RecordSchemaChange(c);
      ok := CreateColumn(o, col);
      if ok {
        var row := NewColumn(backend, t.nextId, col);
        ConsistentAfterPutColumn(backend, sourceId, start, earlier, t, cs, old(journal), k, row, t.nextId + 1, c);
      }
    }

    /** Compares a scanned column with its stored row; records and writes a difference. */
    method AlterColumn(o: Id, table: string, col: ScannedColumn, old0: ColumnRow) returns (ok: bool)
      requires Valid() && o in tables.objects && tables.objects[o].sourceId == sourceId
      requires var k := ColumnKey(o, col.name);
        k in tables.columns && k in start.columns && tables.columns[k] == start.columns[k] == old0
      requires forall c | c in detected :: About(c) != (o, Some(col.name))
      modifies this
      ensures ok && Valid()
      ensures var k := ColumnKey(o, col.name);
        tables == PutColumn(old(tables), k, Merged(backend, old0, col), old(tables).nextId)
      ensures if StoredSignature(old0) == ScannedSignature(col)
              then detected == old(detected) && writes == old(writes)
              else writes > old(writes) && exists c ::
                detected == old(detected) + [c] && c.objectId == o && c.subject == TheColumn(table, col.name) &&
                Announces(c, o, col)
    {
      hide StoredSignature, ScannedSignature, Consistent;
      var k := ColumnKey(o, col.name);
      ghost var t, cs := tables, detected;
      var oldValue, newValue := StoredSignature(old0), ScannedSignature(col);
      ok := true;
      if oldValue != newValue {
        var c := Change(sourceId, o, ChangeKind.AlterColumn, TheColumn(table, col.name),
                        Some(oldValue), Some(newValue));
        RecordSchemaChange(c);
        WellFormedNow(backend, sourceId, start, earlier, t, cs, old(journal));
        assert k in tables.columns && tables.columns[k].id == old0.id;
        ok := UpdateColumn(old0.id, col);
        assert ok;
        var row := Overwritten(backend, old0, col);
        UpdateIsPut(t, k, backend, col);
        RowIdBelow(t, k);
        ConsistentAfterPutColumn(backend, sourceId, start, earlier, t, cs, old(journal), k, row, t.nextId, c);
      } else {
        assert tables == PutColumn(t, k, old0, t.nextId);
      }
    }

    /** The loop over the scanned columns of one object; `rest` is what it leaves of the
        column map, the stored columns the scan no longer has. */
    method SyncColumns(o: Id, table: string, cols: seq<ScannedColumn>, oldColumns: map<string, ColumnRow>)
      returns (ok: bool, rest: map<string, ColumnRow>)
      requires Valid() && o in tables.objects && tables.objects[o].sourceId == sourceId
      requires ColumnsLoaded(start, tables, o, oldColumns)
      requires forall c | c in detected && c.objectId == o :: c.subject.TheObject?
      modifies this
      ensures ok <==> DistinctNames(cols)
      ensures ok ==> Valid() && ColumnsSynced(backend, start, old(tables), tables, o, cols, |cols|, oldColumns, rest)
      ensures ok ==> forall c | c in detected :: c in old(detected) || Concerns(c, o, table)
      ensures ok ==> old(detected) <= detected
      ensures ok ==> forall j | 0 <= j < |cols| :: ColumnRecorded(old(tables), o, cols[j], detected)
      ensures ok ==> forall c | c in detected && c.objectId == o && c.subject.TheColumn? ::
        Named(cols, |cols|, c.subject.column)
      ensures ok && ColumnsQuiet(old(tables), o, cols) ==>
              tables == old(tables) && detected == old(detected) && writes == old(writes)
      ensures ok ==> writes >= old(writes) && (writes == old(writes) ==> ColumnsQuiet(old(tables), o, cols))
    {
      hide StoredSignature, ScannedSignature, Consistent, Merged, NewColumn, ColumnsSynced, Named, ColumnRecorded,
           Announces, ColumnsQuiet, ColumnsLoaded;
      QuietNone(tables, o, cols);
      rest, ok := oldColumns, true;
      SyncedStart(backend, start, tables, o, cols, oldColumns);
      NamedNone(cols);
      for i := 0 to |cols|
        invariant Valid() && ColumnsSynced(backend, start, old(tables), tables, o, cols, i, oldColumns, rest)
        invariant forall c | c in detected :: c in old(detected) || Concerns(c, o, table)
        invariant old(detected) <= detected
        invariant forall j | 0 <= j < i :: ColumnRecorded(old(tables), o, cols[j], detected)
        invariant forall c | c in detected && c.objectId == o && c.subject.TheColumn? ::
          Named(cols, i, c.subject.column)
        invariant ColumnsQuiet(old(tables), o, cols) ==>
                  tables == old(tables) && detected == old(detected) && writes == old(writes)
        invariant writes >= old(writes) && (writes == old(writes) ==> ColumnsQuiet(old(tables), o, cols[..i]))
      {
        QuietOneMore(old(tables), o, cols, i);
        QuietHere(old(tables), o, cols, i);
        NamedBefore(cols, i);
        ghost var before := detected;
        var col := cols[i];
        NamedNext(cols, i);
        ColumnCases(backend, start, old(tables), tables, o, cols, i, oldColumns, rest);
        if col.name !in rest {
          if ColumnKey(o, col.name) !in tables.columns {
            SyncedAfterAdd(backend, start, old(tables), tables, o, cols, i, oldColumns, rest);
          }
          ok := AddColumn(o, table, col);
          if !ok {
            return;
          }
        } else {
          SyncedAfterAlter(backend, start, old(tables), tables, o, cols, i, oldColumns, rest);
          MergedQuiet(backend, rest[col.name], col);
          ok := AlterColumn(o, table, col, rest[col.name]);
          rest := rest - {col.name};
        }
        forall j | 0 <= j < i ensures ColumnRecorded(old(tables), o, cols[j], detected) {
          RecordedStill(old(tables), o, cols[j], before, detected);
        }
        RecordedNow(old(tables), o, col, before, detected);
      }
      SyncedDistinct(backend, start, old(tables), tables, o, cols, oldColumns, rest);
      assert cols[..|cols|] == cols;
    }

    /** Records a dropped column and deletes its lineage edges and its row. */
    method DropStoredColumn(o: Id, table: string, name: string, row: ColumnRow) returns (ok: bool)
      requires Valid() && Droppable(sourceId, start, tables, o)
      requires var k := ColumnKey(o, name);
        k in tables.columns && k in start.columns && tables.columns[k] == start.columns[k] == row
      requires forall c | c in detected :: About(c) != (o, Some(name))
      modifies this
      ensures ok && Valid() && tables == WithoutColumn(WithoutEdgesAt(old(tables), row.id), ColumnKey(o, name))
      ensures writes > old(writes)
      ensures exists c :: detected == old(detected) + [c] && c.objectId == o && c.subject == TheColumn(table, name)
    {
      hide StoredSignature, Consistent;
      var k := ColumnKey(o, name);
      ghost var t, cs := tables, detected;
      var c := Change(sourceId, o, DropColumn, TheColumn(table, name), Some(StoredSignature(row)), None);
      RecordSchemaChange(c);
      DeleteLineageEdgesByNode(row.id);
      WellFormedNow(backend, sourceId, start, earlier, t, cs, old(journal));
      ok := DeleteColumn(row.id);
      DeleteIsWithout(t, k);
      assert tables == WithoutColumn(WithoutEdgesAt(t, row.id), k);
      ConsistentAfterDropColumn(backend, sourceId, start, earlier, t, cs, old(journal), k, c);
    }

    /** The loop over the stored columns the scan no longer has, in any order. */
    method DropColumns(o: Id, table: string, oldColumns: map<string, ColumnRow>) returns (ok: bool)
      requires Valid() && DropLoop(sourceId, start, tables, tables, o, oldColumns, oldColumns)
      requires forall c | c in detected && c.objectId == o && c.subject.TheColumn? :: c.subject.column !in oldColumns
      modifies this
      ensures ok && Valid() && ColumnsDropped(old(tables), tables, o, oldColumns.Keys) && old(detected) <= detected
      ensures forall c | c in detected ::
        c in old(detected) || (Concerns(c, o, table) && c.subject.TheColumn? && c.subject.column in oldColumns)
      ensures oldColumns == map[] ==> tables == old(tables) && detected == old(detected) && writes == old(writes)
      ensures writes >= old(writes) && (writes == old(writes) ==> oldColumns == map[])
    {
      hide StoredSignature, Consistent, DropLoop;
      var left := oldColumns;
      ok := true;
      while left != map[]
        invariant old(detected) <= detected
        invariant ok && Valid() && DropLoop(sourceId, start, old(tables), tables, o, oldColumns, left)
        invariant forall c | c in detected ::
          c in old(detected) || (Concerns(c, o, table) && c.subject.TheColumn? && c.subject.column in oldColumns)
        invariant forall c | c in detected && c.objectId == o && c.subject.TheColumn? :: c.subject.column !in left
        invariant oldColumns == map[] ==>
          left == map[] && tables == old(tables) && detected == old(detected) && writes == old(writes)
        invariant writes >= old(writes) && (writes == old(writes) ==> left == oldColumns)
        decreases |left|
      {
        var name :| name in left;
        DropLoopUse(sourceId, start, old(tables), tables, o, oldColumns, left, name);
        DropLoopNext(sourceId, start, old(tables), tables, o, oldColumns, left, name);
        ok := DropStoredColumn(o, table, name, left[name]);
        left := left - {name};
      }
      DropLoopDone(sourceId, start, old(tables), tables, o, oldColumns);
    }

    // ------------------------------------------------------------ one scanned object

    /** Finds or creates the object's row. */
    method StoreObject(obj: ScannedObject, existing: Option<Entry>,
                       ghost existingColumns: map<Id, map<string, ColumnRow>>)
      returns (ok: bool, o: Id)
      requires Valid() && Looked(sourceId, start, tables, detected, existing, existingColumns)
      modifies this
      ensures ok <==> match existing
        case None => !NameTaken(old(tables), sourceId, obj.name, obj.schema, {})
        case Some(e) => NeedsUpdate(e.row, obj) ==> !NameTaken(old(tables), sourceId, e.row.name, obj.schema, {e.id})
      ensures ok ==> Valid()
      ensures ok ==> ObjectStored(sourceId, old(tables), tables, existing, obj, o)
      ensures ok && existing.Some? ==>
        detected == old(detected) && writes == old(writes) + if NeedsUpdate(existing.value.row, obj) then 1 else 0
      ensures ok && existing.None? ==>
        detected == old(detected) + [Change(sourceId, o, AddObject, TheObject(obj.name), None, Some(obj.kind))] &&
        writes == old(writes) + 1
    {
      hide Consistent, NameTaken;
      ghost var t, cs := tables, detected;
      if existing.Some? {
        o, ok := existing.value.id, true;
        assert existing.value.row.sourceId == sourceId;
        if NeedsUpdate(existing.value.row, obj) {
          ok := UpdateSchemaObject(o, obj);
          ConsistentAfterUpdateObject(backend, sourceId, start, earlier, t, cs, journal, o, obj);
        } else {
          assert Refreshed(existing.value.row, obj) == existing.value.row;
          assert PutObject(t, o, existing.value.row, t.nextId) == t;
        }
      } else {
        ok, o := CreateSchemaObject(obj);
        if ok {
          var c := Change(sourceId, o, AddObject, TheObject(obj.name), None, Some(obj.kind));
          RecordSchemaChange(c);
          ConsistentAfterCreateObject(backend, sourceId, start, earlier, t, cs, old(journal), obj, c);
        }
      }
    }

    /** The body of the loop over scanned objects. */
    method SyncObject(obj: ScannedObject, existing: Option<Entry>, existingColumns: map<Id, map<string, ColumnRow>>)
      returns (ok: bool, o: Id)
      requires Valid() && Looked(sourceId, start, tables, detected, existing, existingColumns)
      modifies this
      ensures ok <==> Acceptable(sourceId, old(tables), existing, obj)
      ensures ok ==> Valid() && ObjectSynced(backend, start, tables, sourceId, o, obj)
      ensures ok ==> OnlyObject(o, old(tables), tables)
      ensures ok ==> o == if existing.Some? then existing.value.id else old(tables).nextId
      ensures ok ==> forall c | c in detected :: c in old(detected) || Concerns(c, o, obj.name)
      ensures ok && existing.Some? && ObjectQuiet(old(tables), o, obj) ==>
        tables == old(tables) && detected == old(detected) && writes == old(writes)
      ensures ok ==> old(detected) <= detected
      ensures ok ==> forall j | 0 <= j < |obj.columns| :: ColumnRecorded(old(tables), o, obj.columns[j], detected)
      ensures ok ==> writes >= old(writes)
      ensures ok && writes == old(writes) ==> existing.Some? && ObjectQuiet(old(tables), o, obj)
    {
      hide Consistent, NeedsUpdate, NameTaken, DistinctNames, ColumnsSynced, ColumnsDropped, ColumnsQuiet, DropLoop,
           ColumnsAsScanned, Named, ColumnsLoaded, Indexes, ObjectSynced, ObjectStored, ObjectQuiet, ColumnRecorded;
      ghost var t0, d0 := tables, detected;
      ProgressNow(backend, sourceId, start, earlier, tables, detected, journal);
      ok, o := StoreObject(obj, existing, existingColumns);
      if !ok {
        return;
      }
      ghost var t1 := tables;
      var oldColumns := ColumnMapOf(existingColumns, o);
      LoadedAfterStore(sourceId, start, t0, t1, d0, existing, existingColumns, obj, o);
      SameColumnsStored(sourceId, t0, t1, existing, obj, o);
      ghost var quiet := existing.Some? && ObjectQuiet(t0, o, obj);
      if quiet {
        QuietStore(sourceId, t0, t1, existing, obj, o);
      }
      var rest;
      ok, rest := SyncColumns(o, obj.name, obj.columns, oldColumns);
      if !ok {
        return;
      }
      ghost var t2, d2 := tables, detected;
      if quiet {
        LoadedIndexes(start, t1, o, oldColumns);
        QuietRest(backend, start, t1, t2, o, obj, oldColumns, rest);
      }
      RestDroppable(backend, sourceId, start, t1, t2, o, obj.columns, oldColumns, rest);
      ok := DropColumns(o, obj.name, rest);
      if writes == old(writes) {
        SilentIsQuiet(backend, sourceId, start, t0, t1, t2, existing, o, obj, oldColumns, rest);
      }
      NamedBefore(obj.columns, |obj.columns|);
      ColumnsDone(backend, start, t1, t2, tables, o, obj.columns, oldColumns, rest);
      ObjectDone(backend, sourceId, start, t0, t1, tables, o, obj);
      forall j | 0 <= j < |obj.columns| ensures ColumnRecorded(t0, o, obj.columns[j], detected) {
        RecordedStill(t1, o, obj.columns[j], d2, detected);
        RecordedFrom(t0, t1, o, obj.columns[j], detected);
      }
    }
  }
}
