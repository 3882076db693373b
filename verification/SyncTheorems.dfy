/** What a schema sync achieves: convergence, a true journal and exact lineage, each with the
    exact condition under which it holds. */
module SyncTheorems {
  import opened Options
  import opened Catalog
  import opened Signatures
  import opened Journal
  import opened SyncInvariant
  import opened SyncSteps
  import opened SchemaSync
  import opened SourceSync

  // ---------------------------------------------------------------- object keys

  /** Keys by example and in general: no schema and an empty one are the same, any other is put in
      front with a dot. */
  lemma KeysAre(schema: string, name: string)
    ensures ObjectKey(None, name) == ObjectKey(Some(""), name) == name
    ensures schema != "" ==> |ObjectKey(Some(schema), name)| == |schema| + 1 + |name|
    ensures schema != "" ==> schema <= ObjectKey(Some(schema), name) && ObjectKey(Some(schema), name)[|schema|] == '.'
    ensures schema != "" ==> ObjectKey(Some(schema), name)[|schema| + 1..] == name
  {}

  lemma KeyFixesName(schema: Option<string>, a: string, b: string)
    ensures ObjectKey(schema, a) == ObjectKey(schema, b) <==> a == b
  {
    if schema.Some? && schema != Some("") && ObjectKey(schema, a) == ObjectKey(schema, b) {
      var p := schema.value + ".";
      assert (p + a)[|p|..] == a && (p + b)[|p|..] == b;
    }
  }

  /** Each scanned object is afterwards stored under its own key exactly when no scanned object
      shares its key with a stored object of another name: an update never writes the name. */
  lemma StoredUnderScannedKeys(
    b: Backend, source: string, start: Tables, post: Tables, scan: seq<ScannedObject>, ids: seq<Id>)
    requires Reconciled(b, source, start, post, scan, ids) && StoreKeysDistinct(start, source)
    ensures NamesAgree(start, source, scan) <==>
            forall i | 0 <= i < |scan| :: ids[i] in post.objects && KeyOf(post.objects[ids[i]]) == ScanKey(scan[i])
  {
    hide ColumnsAsScanned, Progress, ObjectKey;
    forall i | 0 <= i < |scan|
      ensures ids[i] in post.objects
      ensures KeyOf(post.objects[ids[i]]) == ScanKey(scan[i]) <==>
              ids[i] !in start.objects || start.objects[ids[i]].name == scan[i].name
    {
      assert ObjectSynced(b, start, post, source, ids[i], scan[i]);
      KeyFixesName(scan[i].schema, post.objects[ids[i]].name, scan[i].name);
    }
    forall o, i | OfSource(start, source, o) && 0 <= i < |scan| && KeyOf(start.objects[o]) == ScanKey(scan[i])
      ensures ids[i] == o
    {
      assert Resolves(start, source, ScanKey(scan[i]), ids[i]);
    }
    forall i | 0 <= i < |scan| && ids[i] in start.objects
      ensures OfSource(start, source, ids[i]) && KeyOf(start.objects[ids[i]]) == ScanKey(scan[i])
    {
      assert Resolves(start, source, ScanKey(scan[i]), ids[i]);
    }
  }

  /** The key a scanned object is stored under: its schema with the name of its match. */
  ghost function WrittenKey(start: Tables, source: string, obj: ScannedObject): string {
    ObjectKey(obj.schema, NameFor(start, source, obj))
  }

  lemma ResolvedIsMatch(start: Tables, source: string, obj: ScannedObject, o: Id)
    requires Resolves(start, source, ScanKey(obj), o) && StoreKeysDistinct(start, source)
    ensures Match(start, source, obj) == if o in start.objects then Some(o) else None
  {
    hide ObjectKey;
    assert o in start.objects ==> StoredUnder(start, source, ScanKey(obj), o);
  }

  /** After a sync the n-th scanned object is stored with its schema under its match's name. */
  lemma StoredKeyIs(
    b: Backend, source: string, start: Tables, post: Tables, scan: seq<ScannedObject>, ids: seq<Id>, n: nat)
    requires Reconciled(b, source, start, post, scan, ids) && StoreKeysDistinct(start, source) && n < |scan|
    ensures OfSource(post, source, ids[n]) && KeyOf(post.objects[ids[n]]) == WrittenKey(start, source, scan[n])
    ensures post.objects[ids[n]].name == NameFor(start, source, scan[n])
  {
    hide ColumnsAsScanned, Progress, ObjectKey;
    assert ObjectSynced(b, start, post, source, ids[n], scan[n]) && Resolves(start, source, ScanKey(scan[n]), ids[n]);
    assert ids[n] in ids;
    ResolvedIsMatch(start, source, scan[n], ids[n]);
    hide Resolves;
  }

  ghost function StoredKeys(t: Tables, source: string): set<string> {
    set o | o in t.objects && t.objects[o].sourceId == source :: KeyOf(t.objects[o])
  }

  function ScanKeys(scan: seq<ScannedObject>): set<string> {
    set i | 0 <= i < |scan| :: ScanKey(scan[i])
  }

  ghost function WrittenKeys(start: Tables, source: string, scan: seq<ScannedObject>): set<string> {
    set i | 0 <= i < |scan| :: WrittenKey(start, source, scan[i])
  }

  ghost predicate WrittenKeysDistinct(start: Tables, source: string, scan: seq<ScannedObject>) {
    forall i, j | 0 <= i < j < |scan| :: WrittenKey(start, source, scan[i]) != WrittenKey(start, source, scan[j])
  }

  /** The source's stored keys are exactly the written ones, and each is held by one object exactly
      when the written keys are distinct. */
  lemma KeysAfterSync(b: Backend, source: string, start: Tables, post: Tables, scan: seq<ScannedObject>, ids: seq<Id>)
    requires Reconciled(b, source, start, post, scan, ids) && StoreKeysDistinct(start, source)
    ensures StoredKeys(post, source) == WrittenKeys(start, source, scan)
    ensures StoreKeysDistinct(post, source) <==> WrittenKeysDistinct(start, source, scan)
  {
    AllKeysWritten(b, source, start, post, scan, ids);
    assert forall i, j | 0 <= i < j < |ids| :: ids[i] != ids[j];
    hide Reconciled, StoreKeysDistinct, KeysWritten;
    KeySets(source, start, post, scan, ids);
    KeysDistinct(source, start, post, scan, ids);
  }

  lemma AllKeysWritten(b: Backend, source: string, start: Tables, post: Tables, scan: seq<ScannedObject>, ids: seq<Id>)
    requires Reconciled(b, source, start, post, scan, ids) && StoreKeysDistinct(start, source)
    ensures KeysWritten(source, start, post, scan, ids)
  {
    hide ObjectSynced, Progress, Resolves, KeyOf, WrittenKey;
    forall n | 0 <= n < |scan|
      ensures OfSource(post, source, ids[n]) && KeyOf(post.objects[ids[n]]) == WrittenKey(start, source, scan[n])
    {
      StoredKeyIs(b, source, start, post, scan, ids, n);
    }
  }

  ghost predicate KeysWritten(source: string, start: Tables, post: Tables, scan: seq<ScannedObject>, ids: seq<Id>) {
    && |ids| == |scan| && (forall o :: OfSource(post, source, o) <==> o in ids)
    && (forall n | 0 <= n < |scan| ::
          OfSource(post, source, ids[n]) && KeyOf(post.objects[ids[n]]) == WrittenKey(start, source, scan[n]))
  }

  lemma KeySets(source: string, start: Tables, post: Tables, scan: seq<ScannedObject>, ids: seq<Id>)
    requires KeysWritten(source, start, post, scan, ids)
    ensures StoredKeys(post, source) == WrittenKeys(start, source, scan)
  {
    hide KeyOf, WrittenKey;
    forall n | 0 <= n < |scan| ensures WrittenKey(start, source, scan[n]) in StoredKeys(post, source) {
      assert OfSource(post, source, ids[n]);
    }
    forall o | OfSource(post, source, o) ensures KeyOf(post.objects[o]) in WrittenKeys(start, source, scan) {
      var n :| 0 <= n < |scan| && ids[n] == o;
      assert WrittenKey(start, source, scan[n]) in WrittenKeys(start, source, scan);
    }
  }

  lemma KeysDistinct(source: string, start: Tables, post: Tables, scan: seq<ScannedObject>, ids: seq<Id>)
    requires KeysWritten(source, start, post, scan, ids) && forall i, j | 0 <= i < j < |ids| :: ids[i] != ids[j]
    ensures StoreKeysDistinct(post, source) <==> WrittenKeysDistinct(start, source, scan)
  {
    hide KeyOf, WrittenKey;
    if WrittenKeysDistinct(start, source, scan) {
      forall o, p | OfSource(post, source, o) && OfSource(post, source, p) &&
        KeyOf(post.objects[o]) == KeyOf(post.objects[p])
        ensures o == p
      {
        var i :| 0 <= i < |scan| && ids[i] == o;
        var j :| 0 <= j < |scan| && ids[j] == p;
      }
    }
    if StoreKeysDistinct(post, source) {
      forall i, j | 0 <= i < j < |scan|
        ensures WrittenKey(start, source, scan[i]) != WrittenKey(start, source, scan[j])
      {
        assert OfSource(post, source, ids[i]) && OfSource(post, source, ids[j]);
      }
    }
  }

  lemma AgreeingKey(start: Tables, source: string, scan: seq<ScannedObject>, n: nat)
    requires NamesAgree(start, source, scan) && n < |scan|
    ensures WrittenKey(start, source, scan[n]) == ScanKey(scan[n])
  {
    AgreeingName(start, source, scan, n);
  }

  /** Convergence of keys: the source's stored keys are the scan's exactly when the written keys
      are, and certainly when names agree, with each key then held by one object. */
  lemma KeysConverge(b: Backend, source: string, start: Tables, post: Tables, scan: seq<ScannedObject>, ids: seq<Id>)
    requires Reconciled(b, source, start, post, scan, ids) && StoreKeysDistinct(start, source) && ScanKeysDistinct(scan)
    ensures StoredKeys(post, source) == ScanKeys(scan) <==> WrittenKeys(start, source, scan) == ScanKeys(scan)
    ensures NamesAgree(start, source, scan) ==>
      StoredKeys(post, source) == ScanKeys(scan) && StoreKeysDistinct(post, source)
  {
    KeysAfterSync(b, source, start, post, scan, ids);
    if NamesAgree(start, source, scan) {
      forall n | 0 <= n < |scan| ensures WrittenKey(start, source, scan[n]) == ScanKey(scan[n]) {
        AgreeingKey(start, source, scan, n);
      }
    }
    hide Reconciled, StoreKeysDistinct, StoredKeys, WrittenKey, ScanKey, NamesAgree;
  }

  /** A scanned object matched with a stored one of another name is stored under the joined key of
      its schema and the old name, which is not its own. */
  lemma MismatchedKey(
    b: Backend, source: string, start: Tables, post: Tables, scan: seq<ScannedObject>, ids: seq<Id>, n: nat, o: Id)
    requires Reconciled(b, source, start, post, scan, ids) && StoreKeysDistinct(start, source) && n < |scan|
    requires StoredUnder(start, source, ScanKey(scan[n]), o) && start.objects[o].name != scan[n].name
    ensures ids[n] == o && OfSource(post, source, o)
    ensures KeyOf(post.objects[o]) == ObjectKey(scan[n].schema, start.objects[o].name) != ScanKey(scan[n])
  {
    StoredKeyIs(b, source, start, post, scan, ids, n);
    assert Resolves(start, source, ScanKey(scan[n]), ids[n]);
    ResolvedIsMatch(start, source, scan[n], ids[n]);
    KeyFixesName(scan[n].schema, start.objects[o].name, scan[n].name);
    hide ObjectSynced, Progress, ObjectKey;
  }

  const STORED_DOTTED := ObjectRow("s", "a.b", "table", None, None, None, None, 0)
  const STORE_OF_ONE := Tables(map[0 := STORED_DOTTED], map[], {}, 1)
  const SCANNED_IN_SCHEMA := ScannedObject("b", "table", Some("a"), None, None, None, [])

  lemma MismatchIsAccepted()
    ensures WellFormed(STORE_OF_ONE) && StoreKeysDistinct(STORE_OF_ONE, "s") && ScanKeysDistinct([SCANNED_IN_SCHEMA])
    ensures AllNamesDistinct([SCANNED_IN_SCHEMA]) && NoClashes(STORE_OF_ONE, "s", [SCANNED_IN_SCHEMA])
    ensures StoredUnder(STORE_OF_ONE, "s", ScanKey(SCANNED_IN_SCHEMA), 0)
    ensures ScanKey(SCANNED_IN_SCHEMA) == "a.b" && ObjectKey(Some("a"), "a.b") == "a.a.b"
  {
    assert KeyOf(STORED_DOTTED) == "a.b" == ScanKey(SCANNED_IN_SCHEMA);
    assert StoredUnder(STORE_OF_ONE, "s", ScanKey(SCANNED_IN_SCHEMA), 0);
  }

  /** The mismatch, from a concrete store and scan: the sync succeeds, and leaves the object under
      a key the scan does not have. */
  method KeyMismatch(b: Backend) returns (ok: bool, stored: string, scanned: string)
    ensures ok && stored == "a.a.b" && scanned == "a.b"
  {
    hide Reconciled, KeyOf, ScanKey, NoClashes, WellFormed, StoreKeysDistinct;
    var store := new Store(b, STORE_OF_ONE, []);
    var scan := [SCANNED_IN_SCHEMA];
    MismatchIsAccepted();
    var detected, writes;
    ghost var ids;
    ok, detected, writes, ids := SaveSchema(store, "s", scan);
    MismatchedKey(b, "s", STORE_OF_ONE, store.tables, scan, ids, 0, 0);
    stored, scanned := KeyOf(store.tables.objects[0]), ScanKey(scan[0]);
  }

  /** A scanned column settles: its confidence survives the table, or the stored object under
      its object's key has the column with the scanned signature already. */
  ghost predicate Settles(b: Backend, start: Tables, source: string, obj: ScannedObject, col: ScannedColumn) {
    Survives(b, col) || exists o | OfSource(start, source, o) && KeyOf(start.objects[o]) == ScanKey(obj) ::
      SignatureNow(start, ColumnKey(o, col.name)) == Some(ScannedSignature(col))
  }

  ghost predicate AllSettle(b: Backend, start: Tables, source: string, scan: seq<ScannedObject>) {
    forall i, j | 0 <= i < |scan| && 0 <= j < |scan[i].columns| ::
      Settles(b, start, source, scan[i], scan[i].columns[j])
  }

  lemma NamesAgreeAfterSync(
    b: Backend, source: string, start: Tables, post: Tables, scan: seq<ScannedObject>, ids: seq<Id>)
    requires Reconciled(b, source, start, post, scan, ids) && StoreKeysDistinct(start, source)
    requires NamesAgree(start, source, scan) && ScanKeysDistinct(scan)
    ensures NamesAgree(post, source, scan)
  {
    StoredUnderScannedKeys(b, source, start, post, scan, ids);
    hide Progress, Resolves, ColumnsAsScanned, ObjectKey;
    forall o, i | OfSource(post, source, o) && 0 <= i < |scan| && KeyOf(post.objects[o]) == ScanKey(scan[i])
      ensures post.objects[o].name == scan[i].name
    {
      var j :| 0 <= j < |scan| && ids[j] == o;
      assert ObjectSynced(b, start, post, source, ids[j], scan[j]) && Resolves(start, source, ScanKey(scan[j]), ids[j]);
      assert i == j;
      KeyFixesName(scan[i].schema, post.objects[o].name, scan[i].name);
    }
  }

  // ---------------------------------------------------------------- columns and signatures

  lemma OverwrittenSignature(b: Backend, row: ColumnRow, id: Id, col: ScannedColumn)
    ensures StoredSignature(Overwritten(b, row, col)) == ScannedSignature(col) <==> Survives(b, col)
    ensures StoredSignature(NewColumn(b, id, col)) == ScannedSignature(col) <==> Survives(b, col)
  {
    var c := NormalizeConfidence(col.confidence);
    ConfidenceDecides(col.dataType, col.fullDataType, col.isNullable, col.isPrimaryKey, col.isUnique,
                      col.defaultValue, col.parentColumnPath, col.description, StoredConfidence(b, c), c);
    hide SixDigits, StoredConfidence, NormalizeConfidence, Signature;
  }

  lemma StoredAsScanned(
    b: Backend, source: string, start: Tables, post: Tables, scan: seq<ScannedObject>, ids: seq<Id>, i: nat)
    requires Reconciled(b, source, start, post, scan, ids) && i < |scan|
    ensures ColumnsAsScanned(b, start, post, ids[i], scan[i].columns)
  {
    hide Progress, ColumnsAsScanned;
    assert ObjectSynced(b, start, post, source, ids[i], scan[i]);
  }

  /** Convergence of columns: each object has exactly the scanned column names. */
  lemma ColumnNamesConverge(
    b: Backend, source: string, start: Tables, post: Tables, scan: seq<ScannedObject>, ids: seq<Id>, i: nat)
    requires Reconciled(b, source, start, post, scan, ids) && i < |scan|
    ensures (set k | k in post.columns && k.owner == ids[i] :: k.name) == (set c | c in scan[i].columns :: c.name)
  {
    var o, cols := ids[i], scan[i].columns;
    StoredAsScanned(b, source, start, post, scan, ids, i);
    hide Reconciled, Written;
    forall k | k in post.columns && k.owner == o ensures k.name in set c | c in cols :: c.name {
      assert ColumnKey(o, k.name) == k && Named(cols, |cols|, k.name);
    }
    forall c | c in cols ensures c.name in set k | k in post.columns && k.owner == o :: k.name {
      assert Named(cols, |cols|, c.name);
      assert ColumnKey(o, c.name) in post.columns && ColumnKey(o, c.name).owner == o;
    }
  }

  lemma WrittenSignatureConverges(b: Backend, start: Tables, post: Tables, k: ColumnKey, col: ScannedColumn)
    requires Written(b, start, post, k, col)
    ensures SignatureNow(post, k) == Some(ScannedSignature(col)) <==>
            SignatureNow(start, k) == Some(ScannedSignature(col)) || Survives(b, col)
  {
    OverwrittenSignature(b, if k in start.columns then start.columns[k] else post.columns[k], post.columns[k].id, col);
    hide StoredSignature, ScannedSignature, Survives, NewColumn, Overwritten;
  }

  /** Convergence of signatures: a stored signature equals the scanned one exactly when it did
      before the sync or the column's confidence survives the table. */
  lemma SignatureConverges(
    b: Backend, source: string, start: Tables, post: Tables, scan: seq<ScannedObject>, ids: seq<Id>, i: nat, j: nat)
    requires Reconciled(b, source, start, post, scan, ids) && i < |scan| && j < |scan[i].columns|
    ensures var k := ColumnKey(ids[i], scan[i].columns[j].name);
      SignatureNow(post, k) == Some(ScannedSignature(scan[i].columns[j])) <==>
      SignatureNow(start, k) == Some(ScannedSignature(scan[i].columns[j])) || Survives(b, scan[i].columns[j])
  {
    hide Progress, Written, SignatureNow, Survives, ScannedSignature;
    StoredAsScanned(b, source, start, post, scan, ids, i);
    WrittenSignatureConverges(b, start, post, ColumnKey(ids[i], scan[i].columns[j].name), scan[i].columns[j]);
  }

  /** A SQLite REAL keeps every confidence, so in SQLite every column settles. */
  lemma SQLiteSettles(start: Tables, source: string, scan: seq<ScannedObject>)
    ensures AllSettle(SQLite, start, source, scan)
  {
    hide SixDigits, ObjectKey, ScannedSignature, SignatureNow;
  }

  /** A Postgres DECIMAL(3,2) does not: 0.999 comes back as 1.00, so its column never converges. */
  lemma PostgresUnsettles(col: ScannedColumn)
    requires col.confidence == 0.999
    ensures !Survives(Postgres, col)
  {
    var c := 0.999;
    assert NormalizeConfidence(col.confidence) == c;
    assert (c * 100.0 + 0.5).Floor == 100;
    assert StoredConfidence(Postgres, c) == 1.0;
    assert (1.0 * 1000000.0).Floor == 1000000 && (c * 1000000.0).Floor == 999000;
    assert RoundHalfEven(1.0 * 1000000.0) == 1000000 && RoundHalfEven(c * 1000000.0) == 999000;
    assert Digits(1)[0] == '1' && Digits(0)[0] == '0';
    assert SixDigits(1.0)[0] == '1' && SixDigits(c)[0] == '0';
  }

  lemma SettlesMeans(
    b: Backend, source: string, start: Tables, post: Tables, scan: seq<ScannedObject>, ids: seq<Id>, i: nat, j: nat)
    requires Reconciled(b, source, start, post, scan, ids) && StoreKeysDistinct(start, source)
    requires i < |scan| && j < |scan[i].columns|
    ensures Settles(b, start, source, scan[i], scan[i].columns[j]) <==>
      SignatureNow(post, ColumnKey(ids[i], scan[i].columns[j].name)) == Some(ScannedSignature(scan[i].columns[j]))
  {
    SignatureConverges(b, source, start, post, scan, ids, i, j);
    assert Resolves(start, source, ScanKey(scan[i]), ids[i]);
    hide ObjectSynced, OthersKept, EdgesExact, IdentityKept, Survives, ObjectKey, StoredSignature, ScannedSignature;
  }

  // ---------------------------------------------------------------- the journal

  /** The journal explains the difference between the old catalogue and the replayed one, and
      nothing else: an object has an add (drop) record exactly when it is new (gone); a column of a
      surviving object has a record exactly when its signature moved, and the record holds the true
      two values. What the replayed view shows is the subject of ReplaysToScan. */
  lemma JournalExplains(source: string, start: Tables, post: Tables, cs: seq<Change>, k: ColumnKey)
    requires Journalled(source, start, post, cs)
    ensures Drops(cs, k.owner) <==> k.owner in start.objects && k.owner !in post.objects
    ensures (exists c | c in cs :: c.kind.AddObject? && c.objectId == k.owner) <==>
            k.owner !in start.objects && k.owner in post.objects
    ensures k.owner in post.objects ==>
      ((exists c | c in cs :: AboutColumn(c, k)) <==> SignatureNow(start, k) != At(Replay(ViewOf(start), cs).value, k))
    ensures k.owner in post.objects ==>
      forall c | c in cs && AboutColumn(c, k) ::
        c.oldValue == SignatureNow(start, k) && c.newValue == At(Replay(ViewOf(start), cs).value, k)
  {
    hide SignatureNow, ViewOf, Replay, Truthful, NoneTwice;
    ReplayObject(ViewOf(start), cs, k.owner);
    ViewAt(start, k);
    if k.owner in post.objects {
      ReplayColumn(ViewOf(start), cs, k);
    }
  }

  /** For a scanned column: there is a record exactly when its old signature was not the scanned
      one, and the record goes from the old signature to the scanned one. */
  lemma ColumnExplained(
    source: string, start: Tables, post: Tables, scan: seq<ScannedObject>, ids: seq<Id>, cs: seq<Change>, i: nat,
    j: nat)
    requires Journalled(source, start, post, cs) && ReplaysToScan(start, post, scan, ids, cs)
    requires i < |scan| && j < |scan[i].columns| && ids[i] in post.objects
    ensures var col := scan[i].columns[j];
      var k := ColumnKey(ids[i], col.name);
      && ((exists c | c in cs :: AboutColumn(c, k)) <==> SignatureNow(start, k) != Some(ScannedSignature(col)))
      && (forall c | c in cs && AboutColumn(c, k) ::
            c.oldValue == SignatureNow(start, k) && c.newValue == Some(ScannedSignature(col)))
  {
    JournalExplains(source, start, post, cs, ColumnKey(ids[i], scan[i].columns[j].name));
    hide SignatureNow, ViewOf, Replay, Journalled, ScannedSignature;
  }

  /** Every stored object of the source has its key in the scan. */
  ghost predicate AllKept(start: Tables, source: string, scan: seq<ScannedObject>) {
    forall o | OfSource(start, source, o) :: KeyOf(start.objects[o]) in ScanKeys(scan)
  }

  lemma KeptByKey(
    b: Backend, source: string, start: Tables, post: Tables, scan: seq<ScannedObject>, ids: seq<Id>, o: Id)
    requires Reconciled(b, source, start, post, scan, ids) && StoreKeysDistinct(start, source) && o in start.objects
    ensures o in post.objects <==> !OfSource(start, source, o) || KeyOf(start.objects[o]) in ScanKeys(scan)
  {
    hide ObjectSynced, EdgesExact, SameColumns, ObjectKey;
    if OfSource(start, source, o) {
      if o in post.objects {
        assert OfSource(post, source, o);
        var i :| 0 <= i < |ids| && ids[i] == o;
        assert Resolves(start, source, ScanKey(scan[i]), ids[i]);
      }
      if KeyOf(start.objects[o]) in ScanKeys(scan) {
        var i :| 0 <= i < |scan| && ScanKey(scan[i]) == KeyOf(start.objects[o]);
        assert Resolves(start, source, ScanKey(scan[i]), ids[i]);
        assert ids[i] in ids;
      }
    }
  }

  /** The journal table keeps every record exactly in SQLite, or when the scan has the key of every
      stored object of the source: in Postgres a deleted object takes the records about it along. */
  lemma JournalTableComplete(
    b: Backend, source: string, start: Tables, post: Tables, scan: seq<ScannedObject>, ids: seq<Id>,
    earlier: seq<Change>, cs: seq<Change>)
    requires Reconciled(b, source, start, post, scan, ids) && StoreKeysDistinct(start, source)
    requires Journalled(source, start, post, cs)
    ensures StoredJournal(b, earlier + cs, start.objects.Keys - post.objects.Keys) == earlier + cs <==>
            b.SQLite? || AllKept(start, source, scan)
  {
    forall o | o in start.objects
      ensures o in post.objects <==> !OfSource(start, source, o) || KeyOf(start.objects[o]) in ScanKeys(scan)
    {
      KeptByKey(b, source, start, post, scan, ids, o);
    }
    hide Reconciled, StoreKeysDistinct, KeyOf, ScanKeys, Replay, ViewOf, Truthful;
    var gone := start.objects.Keys - post.objects.Keys;
    if b.Postgres? {
      if gone == {} {
        forall o | OfSource(start, source, o) ensures KeyOf(start.objects[o]) in ScanKeys(scan) {
          assert o !in gone;
        }
        WithoutObjectsNone(earlier + cs);
      } else {
        var o :| o in gone;
        ReplayObject(ViewOf(start), cs, o);
        var c :| c in cs && c.kind.DropObject? && c.objectId == o;
        assert c in earlier + cs;
        WithoutObjectsHolds(earlier + cs, gone);
      }
    }
  }

  /** History lost, from a concrete store: an empty scan drops the one object, and the record of
      that is not in the Postgres journal afterwards. */
  method HistoryLost() returns (ok: bool, recorded: seq<Change>, kept: seq<Change>)
    ensures ok && exists c | c in recorded :: c.kind.DropObject? && c.objectId == 0 && c !in kept
  {
    hide Reconciled, Truthful, NoneTwice, Replay;
    var store := new Store(Postgres, STORE_OF_ONE, []);
    var writes;
    ghost var ids;
    ok, recorded, writes, ids := SaveSchema(store, "s", []);
    kept := store.journal;
    KeptByKey(Postgres, "s", STORE_OF_ONE, store.tables, [], ids, 0);
    ReplayObject(ViewOf(STORE_OF_ONE), recorded, 0);
    var c :| c in recorded && c.kind.DropObject? && c.objectId == 0;
    WithoutObjectsHolds([] + recorded, STORE_OF_ONE.objects.Keys - store.tables.objects.Keys);
  }

  /** Replaying the recorded changes over the old catalogue gives the new one exactly when every
      scanned column settles. */
  lemma ReplayGivesPost(
    b: Backend, source: string, start: Tables, post: Tables, scan: seq<ScannedObject>, ids: seq<Id>, cs: seq<Change>)
    requires Reconciled(b, source, start, post, scan, ids) && StoreKeysDistinct(start, source)
    requires ReplaysToScan(start, post, scan, ids, cs)
    ensures Replay(ViewOf(start), cs) == Some(ViewOf(post)) <==> AllSettle(b, start, source, scan)
  {
    hide Settles, Reconciled, StoreKeysDistinct, Replay, ViewOf, ShowsScan;
    var v := Replay(ViewOf(start), cs).value;
    if v == ViewOf(post) {
      forall i, j | 0 <= i < |scan| && 0 <= j < |scan[i].columns|
        ensures Settles(b, start, source, scan[i], scan[i].columns[j])
      {
        ShownSettles(b, source, start, post, scan, ids, v, i, j);
      }
    }
    if AllSettle(b, start, source, scan) {
      SettledShowsPost(b, source, start, post, scan, ids, v);
    }
  }

  /** In the view of the scan a column shows its stored signature exactly when it settles. */
  lemma ShownSettles(
    b: Backend, source: string, start: Tables, post: Tables, scan: seq<ScannedObject>, ids: seq<Id>, v: View, i: nat,
    j: nat)
    requires Reconciled(b, source, start, post, scan, ids) && StoreKeysDistinct(start, source)
    requires ShowsScan(v, post, scan, ids) && i < |scan| && j < |scan[i].columns|
    ensures var k := ColumnKey(ids[i], scan[i].columns[j].name);
      Settles(b, start, source, scan[i], scan[i].columns[j]) <==> At(v, k) == At(ViewOf(post), k)
  {
    assert |ids| == |scan|;
    hide Settles, Reconciled, StoreKeysDistinct, SignatureNow, ScannedSignature, ViewOf;
    SettlesMeans(b, source, start, post, scan, ids, i, j);
    ViewAt(post, ColumnKey(ids[i], scan[i].columns[j].name));
  }

  lemma SettledShowsPost(
    b: Backend, source: string, start: Tables, post: Tables, scan: seq<ScannedObject>, ids: seq<Id>, v: View)
    requires Reconciled(b, source, start, post, scan, ids) && StoreKeysDistinct(start, source)
    requires ShowsScan(v, post, scan, ids) && AllSettle(b, start, source, scan)
    ensures v == ViewOf(post)
  {
    hide Settles, Reconciled, StoreKeysDistinct, SignatureNow, StoredSignature, ScannedSignature;
    forall k | k in post.columns ensures At(v, k) == At(ViewOf(post), k) {
      ViewAt(post, k);
      if k.owner in ids {
        var i, j := FindScanned(b, source, start, post, scan, ids, k);
        ShownSettles(b, source, start, post, scan, ids, v, i, j);
      }
    }
    hide AllSettle;
    assert v.columns == ViewOf(post).columns;
  }

  lemma FindScanned(
    b: Backend, source: string, start: Tables, post: Tables, scan: seq<ScannedObject>, ids: seq<Id>, k: ColumnKey)
    returns (i: nat, j: nat)
    requires Reconciled(b, source, start, post, scan, ids) && k in post.columns && k.owner in ids
    ensures |ids| == |scan| && i < |scan| && j < |scan[i].columns| && k == ColumnKey(ids[i], scan[i].columns[j].name)
  {
    i :| 0 <= i < |ids| && ids[i] == k.owner;
    StoredAsScanned(b, source, start, post, scan, ids, i);
    hide Reconciled, Written;
    assert Named(scan[i].columns, |scan[i].columns|, k.name) by {
      assert k == ColumnKey(ids[i], k.name);
    }
    j :| 0 <= j < |scan[i].columns| && scan[i].columns[j].name == k.name;
  }

  // ---------------------------------------------------------------- lineage

  /** An identifier of a dropped object, or of a dropped column (directly or with its object). */
  ghost predicate Dropped(start: Tables, post: Tables, id: Id) {
    || (id in start.objects && id !in post.objects)
    || (exists k | k in start.columns :: k !in post.columns && start.columns[k].id == id)
  }

  /** After a sync the lineage edges are exactly the old ones that touched nothing dropped. */
  lemma LineageExact(source: string, start: Tables, post: Tables, e: Edge)
    requires Progress(source, start, post)
    ensures e in post.edges <==> e in start.edges && !Dropped(start, post, e.src) && !Dropped(start, post, e.dst)
  {
    DroppedIsGone(source, start, post, e.src);
    DroppedIsGone(source, start, post, e.dst);
    hide Gone, Dropped, WellFormed, OthersKept, IdentityKept;
  }

  lemma DroppedIsGone(source: string, start: Tables, post: Tables, id: Id)
    requires Progress(source, start, post)
    ensures Dropped(start, post, id) <==> Gone(start, post, id)
  {
    hide EdgesExact, OthersKept;
    forall k | k in start.columns && k !in post.columns && start.columns[k].id == id ensures id !in LiveIds(post) {
      forall l | l in post.columns ensures post.columns[l].id != id {}
    }
    forall k | k in start.columns && k in post.columns && start.columns[k].id == id ensures id in LiveIds(post) {
      assert post.columns[k].id == id;
    }
  }
}
