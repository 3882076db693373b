/** What a sync leaves of a scan, field by field, and which records it writes about it. */
module StoredScan {
  import opened Options
  import opened Catalog
  import opened Signatures
  import opened SignatureReading
  import opened Journal
  import opened SyncInvariant
  import opened SyncSteps
  import opened SchemaSync
  import opened SourceSync
  import opened SyncTheorems

  /** Every scanned object is stored with the scanned attributes, under its match's name if it has
      one; only a new object has a record of its own, which names it and its kind. */
  lemma ScannedObjectStored(
    b: Backend, source: string, start: Tables, post: Tables, scan: seq<ScannedObject>, ids: seq<Id>, i: nat)
    requires Reconciled(b, source, start, post, scan, ids) && StoreKeysDistinct(start, source) && i < |scan|
    ensures ids[i] in post.objects
    ensures var row, obj := post.objects[ids[i]], scan[i];
      && row.sourceId == source && row.kind == obj.kind && row.schema == obj.schema
      && row.description == obj.description && row.rowCount == obj.rowCount && row.sizeBytes == obj.sizeBytes
      && row.columnCount == |obj.columns|
      && row.name == (if ids[i] in start.objects then start.objects[ids[i]].name else obj.name)
  {
    assert ObjectSynced(b, start, post, source, ids[i], scan[i]);
    assert Resolves(start, source, ScanKey(scan[i]), ids[i]);
    hide ColumnsAsScanned, Progress, ObjectKey;
  }

  /** The one record about a subject. */
  ghost predicate OneRecord(cs: seq<Change>, k: ColumnKey, c: Change) {
    exists n | 0 <= n < |cs| :: cs[n] == c && forall m | 0 <= m < |cs| && AboutColumn(cs[m], k) :: m == n
  }

  /** All fields of a row are those of a scanned column; the confidence is what the table keeps. */
  ghost predicate Shows(b: Backend, row: ColumnRow, col: ScannedColumn) {
    && row.dataType == col.dataType && row.fullDataType == col.fullDataType && row.isNullable == col.isNullable
    && row.defaultValue == col.defaultValue && row.isPrimaryKey == col.isPrimaryKey && row.isUnique == col.isUnique
    && row.ordinalPosition == col.ordinalPosition && row.description == col.description
    && row.parentColumnPath == col.parentColumnPath
    && var c := if col.confidence <= 0.0 then 1.0 else col.confidence;
       if b.SQLite? then row.confidence == c else -0.005 <= row.confidence - c <= 0.005
  }

  lemma WrittenShows(b: Backend, row: ColumnRow, id: Id, col: ScannedColumn)
    ensures Shows(b, Overwritten(b, row, col), col) && Shows(b, NewColumn(b, id, col), col)
    ensures Overwritten(b, row, col).id == row.id && Overwritten(b, row, col).termId == row.termId
    ensures NewColumn(b, id, col).id == id && NewColumn(b, id, col).termId == None
  {
    StoredConfidenceIs(b, NormalizeConfidence(col.confidence));
    hide StoredConfidence;
  }

  /** A scanned column is stored with all its fields, unless the stored row had its signature
      already, in which case the row is as before. A row keeps its identifier and term. */
  lemma ScannedColumnStored(
    b: Backend, source: string, start: Tables, post: Tables, scan: seq<ScannedObject>, ids: seq<Id>, i: nat, j: nat)
    requires Reconciled(b, source, start, post, scan, ids) && i < |scan| && j < |scan[i].columns|
    ensures var k, col := ColumnKey(ids[i], scan[i].columns[j].name), scan[i].columns[j];
      && k in post.columns
      && (if SignatureNow(start, k) == Some(ScannedSignature(col)) then post.columns[k] == start.columns[k]
          else Shows(b, post.columns[k], col))
      && (k in start.columns ==>
            post.columns[k].id == start.columns[k].id && post.columns[k].termId == start.columns[k].termId)
      && (k !in start.columns ==> post.columns[k].termId == None)
  {
    var k, col := ColumnKey(ids[i], scan[i].columns[j].name), scan[i].columns[j];
    StoredAsScanned(b, source, start, post, scan, ids, i);
    assert Written(b, start, post, k, col);
    WrittenShows(b, if k in start.columns then start.columns[k] else post.columns[k], post.columns[k].id, col);
    hide Reconciled, StoredSignature, ScannedSignature, Shows, Overwritten, NewColumn;
  }

  /** Exactly one record is about a scanned column whose signature was not the scanned one: it adds
      the column, or alters it from the old signature to the scanned one, and names source, object,
      table and column. No record is about any other scanned column. */
  lemma ScannedColumnRecorded(
    b: Backend, source: string, start: Tables, post: Tables, scan: seq<ScannedObject>, ids: seq<Id>, cs: seq<Change>,
    i: nat, j: nat)
    requires Reconciled(b, source, start, post, scan, ids) && Journalled(source, start, post, cs)
    requires AllRecorded(start, post, scan, ids, cs) && ReplaysToScan(start, post, scan, ids, cs)
    requires i < |scan| && j < |scan[i].columns|
    ensures var k, col := ColumnKey(ids[i], scan[i].columns[j].name), scan[i].columns[j];
      var before, after := SignatureNow(start, k), Some(ScannedSignature(col));
      if before == after then forall c | c in cs :: !AboutColumn(c, k)
      else OneRecord(cs, k, Change(source, ids[i], if k in start.columns then AlterColumn else AddColumn,
                                   TheColumn(scan[i].name, col.name), before, after))
  {
    var k, col := ColumnKey(ids[i], scan[i].columns[j].name), scan[i].columns[j];
    assert ids[i] in ids && OfSource(post, source, ids[i]);
    ColumnExplained(source, start, post, scan, ids, cs, i, j);
    if SignatureNow(start, k) != Some(ScannedSignature(col)) {
      var n := RecordAbout(cs, k);
      RecordIs(source, start, post, scan, ids, cs, n, i, k);
    }
  }

  lemma RecordAbout(cs: seq<Change>, k: ColumnKey) returns (n: nat)
    requires exists c | c in cs :: AboutColumn(c, k)
    requires NoneTwice(cs)
    ensures n < |cs| && AboutColumn(cs[n], k) && forall m | 0 <= m < |cs| && AboutColumn(cs[m], k) :: m == n
  {
    var c :| c in cs && AboutColumn(c, k);
    n :| n < |cs| && cs[n] == c;
  }

  /** The kind and table of a record about a column of a scanned object. */
  lemma RecordIs(
    source: string, start: Tables, post: Tables, scan: seq<ScannedObject>, ids: seq<Id>, cs: seq<Change>, n: nat,
    i: nat, k: ColumnKey)
    requires Journalled(source, start, post, cs) && AllRecorded(start, post, scan, ids, cs)
    requires |ids| == |scan| && forall x, y | 0 <= x < y < |ids| :: ids[x] != ids[y]
    requires n < |cs| && i < |ids| && ids[i] in post.objects && k.owner == ids[i] && AboutColumn(cs[n], k)
    ensures cs[n].sourceId == source && cs[n].objectId == ids[i] && cs[n].subject == TheColumn(scan[i].name, k.name)
    ensures cs[n].newValue.Some? ==> cs[n].kind == if cs[n].oldValue.Some? then AlterColumn else AddColumn
  {
    hide Replay, ObjectRecorded, ViewOf;
    assert cs[n] in cs && Truthful(source, start, post, cs[n]) && OfScan(cs[n], scan, ids);
    var x :| 0 <= x < |ids| && Concerns(cs[n], ids[x], scan[x].name);
    assert x == i;
    StepFits(ViewOf(start), cs, n);
  }

  /** In a replayable journal each record about a column has the kind its two values call for. */
  lemma {:induction false} StepFits(v: View, cs: seq<Change>, n: nat)
    requires n < |cs| && Replay(v, cs).Some?
    ensures cs[n].subject.TheColumn? ==>
      && !cs[n].kind.AddObject? && !cs[n].kind.DropObject?
      && (cs[n].kind.AddColumn? <==> cs[n].oldValue.None?) && (cs[n].kind.DropColumn? <==> cs[n].newValue.None?)
  {
    var init := cs[..|cs| - 1];
    if n < |init| {
      assert init[n] == cs[n];
      StepFits(v, init, n);
    } else {
      assert Apply(Replay(v, init).value, cs[n]).Some?;
    }
  }

  /** A stored column with a noticeable difference ends up with all the scanned fields, its old
      identifier and term, and exactly one record. */
  lemma ChangedColumn(
    b: Backend, source: string, start: Tables, post: Tables, scan: seq<ScannedObject>, ids: seq<Id>, cs: seq<Change>,
    i: nat, j: nat, k: ColumnKey)
    requires Reconciled(b, source, start, post, scan, ids) && Journalled(source, start, post, cs)
    requires AllRecorded(start, post, scan, ids, cs) && ReplaysToScan(start, post, scan, ids, cs)
    requires i < |scan| == |ids| && j < |scan[i].columns| && k == ColumnKey(ids[i], scan[i].columns[j].name)
    requires k in start.columns && Noticeable(start.columns[k], scan[i].columns[j])
    ensures k in post.columns && Shows(b, post.columns[k], scan[i].columns[j])
    ensures post.columns[k].id == start.columns[k].id && post.columns[k].termId == start.columns[k].termId
    ensures OneRecord(cs, k, Change(source, ids[i], AlterColumn, TheColumn(scan[i].name, k.name),
                                    SignatureNow(start, k), Some(ScannedSignature(scan[i].columns[j]))))
  {
    hide Reconciled, Journalled, AllRecorded, ReplaysToScan, Shows, OneRecord, StoredSignature, ScannedSignature,
         Noticeable;
    NoticeableShows(start.columns[k], scan[i].columns[j]);
    ScannedColumnStored(b, source, start, post, scan, ids, i, j);
    ScannedColumnRecorded(b, source, start, post, scan, ids, cs, i, j);
  }

  // ---------------------------------------------------------------- a change that is not noticed

  const ALIAS_ROW := ColumnRow(1, "a full=b", "c", false, None, false, false, 1, None, None, 1.0, None)
  const ALIAS_COLUMN := ScannedColumn("n", "a", "b full=c", false, None, false, false, 1, None, None, 1.0)
  const ALIAS_TABLE := ScannedObject("t", "table", None, None, None, None, [ALIAS_COLUMN])
  const ALIAS_STORE :=
    Tables(map[0 := ObjectRow("s", "t", "table", None, None, None, None, 1)],
           map[ColumnKey(0, "n") := ALIAS_ROW], {}, 2)

  lemma AliasIsQuiet()
    ensures WellFormed(ALIAS_STORE) && StoreKeysDistinct(ALIAS_STORE, "s") && ScanKeysDistinct([ALIAS_TABLE])
    ensures AllNamesDistinct([ALIAS_TABLE]) && NoClashes(ALIAS_STORE, "s", [ALIAS_TABLE])
    ensures Quiet(ALIAS_STORE, "s", [ALIAS_TABLE])
  {
    SignatureAmbiguous();
    hide StoredSignature, ScannedSignature;
    assert SignatureNow(ALIAS_STORE, ColumnKey(0, "n")) == Some(ScannedSignature(ALIAS_COLUMN));
    assert Named(ALIAS_TABLE.columns, 1, "n") by {
      assert ALIAS_TABLE.columns[0].name == "n";
    }
    assert ObjectQuiet(ALIAS_STORE, 0, ALIAS_TABLE);
    assert OfSource(ALIAS_STORE, "s", 0) && KeyOf(ALIAS_STORE.objects[0]) == "t" == ScanKey(ALIAS_TABLE);
    assert QuietlyStored(ALIAS_STORE, "s", [ALIAS_TABLE][0]);
    assert StoredUnder(ALIAS_STORE, "s", ScanKey(ALIAS_TABLE), 0);
  }

  /** Both types of a column change, and the sync neither stores nor records it: the texts of a
      signature are not delimited. */
  method UnnoticedChange() returns (ok: bool, recorded: seq<Change>, kept: string)
    ensures ok && recorded == [] && kept == "a full=b" != ALIAS_COLUMN.dataType
  {
    hide Reconciled, WellFormed, StoreKeysDistinct, ScanKeysDistinct, AllNamesDistinct, NoClashes, Quiet;
    AliasIsQuiet();
    var store := new Store(SQLite, ALIAS_STORE, []);
    var writes;
    ghost var ids;
    ok, recorded, writes, ids := SaveSchema(store, "s", [ALIAS_TABLE]);
    kept := store.tables.columns[ColumnKey(0, "n")].dataType;
  }
}
