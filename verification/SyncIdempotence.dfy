/** Syncing the same scan twice: exactly when the second sync is silent. */
module SyncIdempotence {
  import opened Options
  import opened Catalog
  import opened Journal
  import opened SyncInvariant
  import opened SyncSteps
  import opened SchemaSync
  import opened SourceSync
  import opened SyncTheorems

  /** The signature a scanned column is stored with: the scanned one if the match had it already,
      else that of the row written from it. */
  ghost function AfterSignature(
    b: Backend, start: Tables, source: string, obj: ScannedObject, col: ScannedColumn): string
  {
    var m := Match(start, source, obj);
    var scanned := ScannedSignature(col);
    if m.Some? && SignatureNow(start, ColumnKey(m.value, col.name)) == Some(scanned) then scanned
    else StoredSignature(NewColumn(b, 0, col))
  }

  lemma WrittenAlike(b: Backend, row: ColumnRow, id: Id, col: ScannedColumn)
    ensures StoredSignature(Overwritten(b, row, col)) == StoredSignature(NewColumn(b, 0, col))
    ensures StoredSignature(NewColumn(b, id, col)) == StoredSignature(NewColumn(b, 0, col))
  {
    hide Signature, SixDigits, StoredConfidence, NormalizeConfidence;
  }

  lemma AfterSignatureIs(
    b: Backend, source: string, start: Tables, post: Tables, scan: seq<ScannedObject>, ids: seq<Id>, i: nat, j: nat)
    requires Reconciled(b, source, start, post, scan, ids) && StoreKeysDistinct(start, source)
    requires i < |scan| && j < |scan[i].columns|
    ensures SignatureNow(post, ColumnKey(ids[i], scan[i].columns[j].name))
         == Some(AfterSignature(b, start, source, scan[i], scan[i].columns[j]))
  {
    var k := ColumnKey(ids[i], scan[i].columns[j].name);
    var col := scan[i].columns[j];
    assert Resolves(start, source, ScanKey(scan[i]), ids[i]) && WellFormed(start);
    hide Reconciled, SignatureNow, StoredSignature, ScannedSignature, NewColumn, Written, StoreKeysDistinct,
         ObjectKey;
    ResolvedIsMatch(start, source, scan[i], ids[i]);
    StoredAsScanned(b, source, start, post, scan, ids, i);
    SignatureAfterWriting(b, start, post, k, col);
    if ids[i] !in start.objects {
      NoSignature(start, k);
    }
  }

  lemma NoSignature(t: Tables, k: ColumnKey)
    requires WellFormed(t) && k.owner !in t.objects
    ensures SignatureNow(t, k) == None
  {}

  lemma SignatureAfterWriting(b: Backend, start: Tables, post: Tables, k: ColumnKey, col: ScannedColumn)
    requires Written(b, start, post, k, col)
    ensures SignatureNow(post, k) == Some(
      if SignatureNow(start, k) == Some(ScannedSignature(col)) then ScannedSignature(col)
      else StoredSignature(NewColumn(b, 0, col)))
  {
    if k in start.columns {
      WrittenAlike(b, start.columns[k], 0, col);
    } else {
      WrittenAlike(b, post.columns[k], post.columns[k].id, col);
    }
    hide StoredSignature, ScannedSignature, NewColumn, Overwritten;
  }

  /** Stored from `was`, an object agrees with `obj` in everything a sync compares but the key. */
  ghost predicate EchoRow(b: Backend, start: Tables, source: string, was: ScannedObject, obj: ScannedObject) {
    && !NeedsUpdate(NewObject(source, was), obj)
    && (forall d | d in was.columns :: exists c | c in obj.columns :: c.name == d.name)
    && (forall c | c in obj.columns :: Echoed(b, start, source, was, c))
  }

  ghost predicate Echoed(b: Backend, start: Tables, source: string, was: ScannedObject, c: ScannedColumn) {
    exists d | d in was.columns :: d.name == c.name && AfterSignature(b, start, source, was, d) == ScannedSignature(c)
  }

  lemma ColumnEchoed(
    b: Backend, source: string, start: Tables, post: Tables, scan: seq<ScannedObject>, ids: seq<Id>, i: nat,
    c: ScannedColumn)
    requires Reconciled(b, source, start, post, scan, ids) && StoreKeysDistinct(start, source) && i < |scan|
    ensures SignatureNow(post, ColumnKey(ids[i], c.name)) == Some(ScannedSignature(c)) <==>
      Echoed(b, start, source, scan[i], c)
  {
    var k := ColumnKey(ids[i], c.name);
    StoredAsScanned(b, source, start, post, scan, ids, i);
    forall j | 0 <= j < |scan[i].columns|
      ensures SignatureNow(post, ColumnKey(ids[i], scan[i].columns[j].name))
           == Some(AfterSignature(b, start, source, scan[i], scan[i].columns[j]))
    {
      AfterSignatureIs(b, source, start, post, scan, ids, i, j);
    }
    hide Reconciled, StoreKeysDistinct, AfterSignature, ScannedSignature, StoredSignature, Written;
    if k in post.columns {
      assert Named(scan[i].columns, |scan[i].columns|, c.name);
      var j :| 0 <= j < |scan[i].columns| && scan[i].columns[j].name == c.name;
      assert scan[i].columns[j] in scan[i].columns;
    }
  }

  lemma ObjectEchoed(
    b: Backend, source: string, start: Tables, post: Tables, scan: seq<ScannedObject>, ids: seq<Id>, i: nat,
    obj: ScannedObject)
    requires Reconciled(b, source, start, post, scan, ids) && StoreKeysDistinct(start, source) && i < |scan|
    ensures ObjectQuiet(post, ids[i], obj) <==> EchoRow(b, start, source, scan[i], obj)
  {
    var was, o := scan[i], ids[i];
    assert ObjectSynced(b, start, post, source, ids[i], scan[i]);
    assert o in post.objects && (NeedsUpdate(post.objects[o], obj) <==> NeedsUpdate(NewObject(source, was), obj));
    StoredAsScanned(b, source, start, post, scan, ids, i);
    forall c: ScannedColumn
      ensures SignatureNow(post, ColumnKey(o, c.name)) == Some(ScannedSignature(c)) <==>
        Echoed(b, start, source, was, c)
    {
      ColumnEchoed(b, source, start, post, scan, ids, i, c);
    }
    hide Reconciled, StoreKeysDistinct, Echoed, ScannedSignature, SignatureNow, Written, NeedsUpdate, ObjectSynced;
    NamesEchoed(post, o, was.columns, obj.columns);
  }

  lemma NamesEchoed(t: Tables, o: Id, was: seq<ScannedColumn>, cols: seq<ScannedColumn>)
    requires forall m: string :: ColumnKey(o, m) in t.columns <==> Named(was, |was|, m)
    ensures (forall m: string | ColumnKey(o, m) in t.columns :: Named(cols, |cols|, m)) <==>
            forall d | d in was :: exists c | c in cols :: c.name == d.name
  {
    forall d | d in was ensures Named(was, |was|, d.name) {}
    forall m: string ensures Named(cols, |cols|, m) <==> exists c | c in cols :: c.name == m {}
    forall m: string | Named(was, |was|, m) ensures exists d | d in was :: d.name == m {}
    hide Named;
  }

  /** The condition for a silent second sync, on the old store and the scan: every scanned object
      finds one stored from the scan under its key and agreeing with it, and every written key is
      a scanned one. */
  ghost predicate Silent(b: Backend, start: Tables, source: string, scan: seq<ScannedObject>) {
    && (forall i | 0 <= i < |scan| :: SilentAt(b, start, source, scan, i))
    && WrittenKeys(start, source, scan) <= ScanKeys(scan)
  }

  ghost predicate SilentAt(b: Backend, start: Tables, source: string, scan: seq<ScannedObject>, i: nat)
    requires i < |scan|
  {
    exists j | 0 <= j < |scan| ::
      WrittenKey(start, source, scan[j]) == ScanKey(scan[i]) && EchoRow(b, start, source, scan[j], scan[i])
  }

  /** After any sync the stored catalogue agrees with the scan in everything a second sync compares
      exactly when that condition held of the old store. */
  lemma QuietAfterSync(b: Backend, source: string, start: Tables, post: Tables, scan: seq<ScannedObject>, ids: seq<Id>)
    requires Reconciled(b, source, start, post, scan, ids) && StoreKeysDistinct(start, source)
    ensures Quiet(post, source, scan) <==> Silent(b, start, source, scan)
  {
    hide Reconciled, StoreKeysDistinct, QuietlyStored, SilentAt, WrittenKeys, StoredKeys, ScanKeys, KeyOf, ScanKey;
    KeysAfterSync(b, source, start, post, scan, ids);
    forall i | 0 <= i < |scan| ensures QuietlyStored(post, source, scan[i]) <==> SilentAt(b, start, source, scan, i) {
      QuietAt(b, source, start, post, scan, ids, i);
    }
    KeysWithin(post, source, scan);
  }

  lemma QuietAt(
    b: Backend, source: string, start: Tables, post: Tables, scan: seq<ScannedObject>, ids: seq<Id>, i: nat)
    requires Reconciled(b, source, start, post, scan, ids) && StoreKeysDistinct(start, source) && i < |scan|
    ensures QuietlyStored(post, source, scan[i]) <==> SilentAt(b, start, source, scan, i)
  {
    AllKeysWritten(b, source, start, post, scan, ids);
    assert |ids| == |scan|;
    hide Reconciled, StoreKeysDistinct, QuietlyStored, SilentAt, ObjectQuiet, EchoRow, KeysWritten;
    forall j | 0 <= j < |scan|
      ensures ObjectQuiet(post, ids[j], scan[i]) <==> EchoRow(b, start, source, scan[j], scan[i])
    {
      ObjectEchoed(b, source, start, post, scan, ids, j, scan[i]);
    }
    QuietOrSilent(b, source, start, post, scan, ids, i);
  }

  lemma QuietOrSilent(
    b: Backend, source: string, start: Tables, post: Tables, scan: seq<ScannedObject>, ids: seq<Id>, i: nat)
    requires i < |scan| == |ids| && KeysWritten(source, start, post, scan, ids)
    requires forall j | 0 <= j < |scan| ::
      ObjectQuiet(post, ids[j], scan[i]) <==> EchoRow(b, start, source, scan[j], scan[i])
    ensures QuietlyStored(post, source, scan[i]) <==> SilentAt(b, start, source, scan, i)
  {
    hide ObjectQuiet, EchoRow, KeyOf, ScanKey, WrittenKey;
  }

  lemma KeysWithin(t: Tables, source: string, scan: seq<ScannedObject>)
    ensures (forall o | OfSource(t, source, o) ::
               exists i | 0 <= i < |scan| :: ScanKey(scan[i]) == KeyOf(t.objects[o])) <==>
            StoredKeys(t, source) <= ScanKeys(scan)
  {
    hide KeyOf, ScanKey;
    forall o | OfSource(t, source, o) ensures KeyOf(t.objects[o]) in StoredKeys(t, source) {}
    forall key ensures key in ScanKeys(scan) <==> exists i | 0 <= i < |scan| :: ScanKey(scan[i]) == key {}
  }

  /** When names agree that condition is that every scanned column settles. */
  lemma SilentWhenNamesAgree(b: Backend, start: Tables, source: string, scan: seq<ScannedObject>)
    requires NamesAgree(start, source, scan) && ScanKeysDistinct(scan) && AllNamesDistinct(scan) &&
      StoreKeysDistinct(start, source)
    ensures Silent(b, start, source, scan) <==> AllSettle(b, start, source, scan)
  {
    hide ScanKey, WrittenKey, EchoRow, Settles, StoreKeysDistinct;
    forall n | 0 <= n < |scan|
      ensures WrittenKey(start, source, scan[n]) == ScanKey(scan[n])
      ensures EchoRow(b, start, source, scan[n], scan[n]) <==>
              forall j | 0 <= j < |scan[n].columns| :: Settles(b, start, source, scan[n], scan[n].columns[j])
    {
      AgreeingKey(start, source, scan, n);
      EchoesItself(b, start, source, scan[n]);
    }
    hide NamesAgree;
    forall n | 0 <= n < |scan|
      ensures SilentAt(b, start, source, scan, n) <==> EchoRow(b, start, source, scan[n], scan[n])
    {
      forall j | 0 <= j < |scan| && WrittenKey(start, source, scan[j]) == ScanKey(scan[n]) ensures j == n {
        assert ScanKey(scan[j]) == ScanKey(scan[n]);
      }
    }
    assert WrittenKeys(start, source, scan) <= ScanKeys(scan);
    hide SilentAt, WrittenKeys;
  }

  lemma EchoesItself(b: Backend, start: Tables, source: string, obj: ScannedObject)
    requires DistinctNames(obj.columns) && StoreKeysDistinct(start, source)
    ensures EchoRow(b, start, source, obj, obj) <==>
            forall j | 0 <= j < |obj.columns| :: Settles(b, start, source, obj, obj.columns[j])
  {
    forall j | 0 <= j < |obj.columns|
      ensures Echoed(b, start, source, obj, obj.columns[j]) <==> Settles(b, start, source, obj, obj.columns[j])
    {
      EchoedIsSettled(b, start, source, obj, j);
    }
    hide Echoed, Settles, StoreKeysDistinct;
  }

  lemma EchoedIsSettled(b: Backend, start: Tables, source: string, obj: ScannedObject, j: nat)
    requires DistinctNames(obj.columns) && StoreKeysDistinct(start, source) && j < |obj.columns|
    ensures Echoed(b, start, source, obj, obj.columns[j]) <==> Settles(b, start, source, obj, obj.columns[j])
  {
    hide StoreKeysDistinct, SignatureNow, StoredSignature, ScannedSignature, Survives, ObjectKey, AfterSignature;
    AfterSettles(b, start, source, obj, obj.columns[j]);
  }

  lemma AfterSettles(b: Backend, start: Tables, source: string, obj: ScannedObject, col: ScannedColumn)
    requires StoreKeysDistinct(start, source)
    ensures AfterSignature(b, start, source, obj, col) == ScannedSignature(col) <==> Settles(b, start, source, obj, col)
  {
    hide SignatureNow, StoredSignature, ScannedSignature, Survives, ObjectKey, NewColumn, Overwritten;
    var m := Match(start, source, obj);
    OverwrittenSignature(b, NewColumn(b, 0, col), 0, col);
    forall o | OfSource(start, source, o) && KeyOf(start.objects[o]) == ScanKey(obj) ensures m == Some(o) {
      assert StoredUnder(start, source, ScanKey(obj), o);
    }
  }

  lemma {:induction false} ElementsAtMost(s: seq<string>)
    ensures |set x | x in s| <= |s|
    ensures (exists i, j | 0 <= i < j < |s| :: s[i] == s[j]) ==> |set x | x in s| < |s|
  {
    if s != [] {
      var init, last := s[..|s| - 1], s[|s| - 1];
      ElementsAtMost(init);
      assert (set x | x in s) == (set x | x in init) + {last};
      if i, j :| 0 <= i < j < |s| && s[i] == s[j] {
        if j < |init| {
          assert init[i] == init[j];
        } else {
          assert last in (set x | x in init);
        }
      }
    }
  }

  lemma {:induction false} ElementsOfDistinct(s: seq<string>)
    requires forall i, j | 0 <= i < j < |s| :: s[i] != s[j]
    ensures |set x | x in s| == |s|
  {
    if s != [] {
      var init, last := s[..|s| - 1], s[|s| - 1];
      ElementsOfDistinct(init);
      assert (set x | x in s) == (set x | x in init) + {last};
      assert last !in (set x | x in init);
    }
  }

  lemma Within(a: set<string>, b: set<string>)
    requires a <= b
    ensures |a| <= |b|
  {
    assert b == a + (b - a);
  }

  /** A silent second sync leaves no doubt about keys: every scanned key is some written key, so by
      their number the written keys are distinct. */
  lemma SilentKeysDistinct(b: Backend, start: Tables, source: string, scan: seq<ScannedObject>)
    requires Silent(b, start, source, scan) && ScanKeysDistinct(scan)
    ensures WrittenKeysDistinct(start, source, scan)
  {
    hide EchoRow, WrittenKey, ScanKey;
    var keys := seq(|scan|, i requires 0 <= i < |scan| => ScanKey(scan[i]));
    var written := seq(|scan|, i requires 0 <= i < |scan| => WrittenKey(start, source, scan[i]));
    ElementsOfDistinct(keys);
    ElementsAtMost(written);
    forall key | key in keys ensures key in written {
      var i :| 0 <= i < |keys| && keys[i] == key;
      assert SilentAt(b, start, source, scan, i);
      var j :| 0 <= j < |scan| && WrittenKey(start, source, scan[j]) == ScanKey(scan[i]);
      assert written[j] == key;
    }
    Within(set x | x in keys, set x | x in written);
    hide SilentAt, Silent;
    forall i, j | 0 <= i < j < |scan| ensures WrittenKey(start, source, scan[i]) != WrittenKey(start, source, scan[j]) {
      assert written[i] != written[j];
    }
  }

  lemma QuietNeverClashes(t: Tables, source: string, scan: seq<ScannedObject>)
    requires Quiet(t, source, scan) && StoreKeysDistinct(t, source)
    ensures NoClashes(t, source, scan)
  {
    hide ObjectKey, NeedsUpdate, ColumnsQuiet, Named, TakenByScan, TakenByStored;
    forall n | 0 <= n < |scan| ensures !Clashes(t, source, scan, n) {
      assert QuietlyStored(t, source, scan[n]);
      var o :| OfSource(t, source, o) && KeyOf(t.objects[o]) == ScanKey(scan[n]) && ObjectQuiet(t, o, scan[n]);
      assert StoredUnder(t, source, ScanKey(scan[n]), o);
    }
  }

  /** Syncing the same scan a second time succeeds in silence exactly under that condition. The
      second sync, like the first, needs a store whose keys are distinct; by SilentKeysDistinct a
      sync that leaves another one never meets the condition. */
  method SyncTwice(store: Store, source: string, scan: seq<ScannedObject>)
    returns (ok: bool, first: seq<Change>, again: bool, second: seq<Change>, secondWrites: nat)
    requires WellFormed(store.tables) && StoreKeysDistinct(store.tables, source) && ScanKeysDistinct(scan)
    requires AllNamesDistinct(scan) && NoClashes(store.tables, source, scan) &&
      WrittenKeysDistinct(store.tables, source, scan)
    modifies store
    ensures ok && (again && secondWrites == 0 <==> Silent(store.backend, old(store.tables), source, scan))
    ensures again && secondWrites == 0 ==> second == []
    ensures again && secondWrites == 0 ==> exists ids ::
      Reconciled(store.backend, source, old(store.tables), store.tables, scan, ids)
    ensures again && secondWrites == 0 ==>
      store.journal == StoredJournal(store.backend, old(store.journal) + first,
                                     old(store.tables).objects.Keys - store.tables.objects.Keys)
    ensures NamesAgree(old(store.tables), source, scan) ==>
      again && (secondWrites == 0 <==> AllSettle(store.backend, old(store.tables), source, scan))
  {
    hide WellFormed, StoreKeysDistinct, WrittenKeysDistinct, ScanKeysDistinct, AllNamesDistinct, NamesAgree,
         NoClashes, Quiet, Reconciled, Journalled, ReplaysToScan, AllSettle, Silent;
    ghost var start, ids := store.tables, [];
    var writes;
    ok, first, writes, ids := SaveSchema(store, source, scan);
    ghost var post, journal := store.tables, store.journal;
    SyncedAgain(store.backend, source, start, post, scan, ids);
    ghost var idsAgain;
    again, second, secondWrites, idsAgain := SaveSchema(store, source, scan);
    WithoutObjectsNone(journal);
    assert journal + [] == journal && post.objects.Keys - post.objects.Keys == {};
  }

  const UNSETTLED := ScannedColumn("c", "text", "text", false, None, false, false, 1, None, None, 0.999)
  const UNSETTLED_TABLE := ScannedObject("t", "table", None, None, None, None, [UNSETTLED])

  lemma UnsettledIsAccepted()
    ensures var t, scan := Tables(map[], map[], {}, 0), [UNSETTLED_TABLE];
      && WellFormed(t) && StoreKeysDistinct(t, "s") && ScanKeysDistinct(scan) && AllNamesDistinct(scan)
      && NoClashes(t, "s", scan) && WrittenKeysDistinct(t, "s", scan) && NamesAgree(t, "s", scan)
      && !AllSettle(Postgres, t, "s", scan)
  {
    PostgresUnsettles(UNSETTLED);
    hide Survives, ScannedSignature, SignatureNow;
    assert !Settles(Postgres, Tables(map[], map[], {}, 0), "s", [UNSETTLED_TABLE][0], UNSETTLED_TABLE.columns[0]);
  }

  /** A column of confidence 0.999 never settles in Postgres: the second of two equal syncs of a
      new source writes again. */
  method NeverSettles() returns (again: bool, secondWrites: nat)
    ensures again && secondWrites > 0
  {
    hide WellFormed, StoreKeysDistinct, WrittenKeysDistinct, ScanKeysDistinct, AllNamesDistinct, NamesAgree,
         NoClashes, AllSettle, Silent, Reconciled;
    UnsettledIsAccepted();
    var store := new Store(Postgres, Tables(map[], map[], {}, 0), []);
    var ok, first, second;
    ok, first, again, second, secondWrites := SyncTwice(store, "s", [UNSETTLED_TABLE]);
  }

  lemma SyncedAgain(b: Backend, source: string, start: Tables, post: Tables, scan: seq<ScannedObject>, ids: seq<Id>)
    requires Reconciled(b, source, start, post, scan, ids) && StoreKeysDistinct(start, source)
    requires ScanKeysDistinct(scan) && AllNamesDistinct(scan) && WrittenKeysDistinct(start, source, scan)
    ensures WellFormed(post) && StoreKeysDistinct(post, source)
    ensures Quiet(post, source, scan) <==> Silent(b, start, source, scan)
    ensures Quiet(post, source, scan) ==> NoClashes(post, source, scan)
    ensures NamesAgree(start, source, scan) ==>
      NoClashes(post, source, scan) && (Silent(b, start, source, scan) <==> AllSettle(b, start, source, scan))
  {
    assert WellFormed(post);
    hide Reconciled, WellFormed, Quiet, NamesAgree, StoreKeysDistinct, WrittenKeysDistinct, ScanKeysDistinct,
         AllNamesDistinct, AllSettle, Silent, NoClashes;
    QuietAfterSync(b, source, start, post, scan, ids);
    KeysAfterSync(b, source, start, post, scan, ids);
    if Quiet(post, source, scan) {
      QuietNeverClashes(post, source, scan);
    }
    if NamesAgree(start, source, scan) {
      NamesAgreeAfterSync(b, source, start, post, scan, ids);
      AgreeingNamesNeverClash(post, source, scan);
      SilentWhenNamesAgree(b, start, source, scan);
    }
  }
}
