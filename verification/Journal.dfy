/** The change journal and what it means to replay it. */
module Journal {
  import opened Options
  import opened Catalog

  datatype ChangeKind = AddObject | DropObject | AddColumn | AlterColumn | DropColumn

  /** The object_name field before printing: "table" or "table.column". */
  datatype Subject = TheObject(table: string) | TheColumn(table: string, column: string)

  datatype Change = Change(
    sourceId: string, objectId: Id, kind: ChangeKind, subject: Subject,
    oldValue: Option<string>, newValue: Option<string>)

  /** A catalogue seen through signatures: which objects exist, and each column's signature. */
  datatype View = View(objects: set<Id>, columns: map<ColumnKey, string>)

  function ViewOf(t: Tables): View {
    View(t.objects.Keys, map k | k in t.columns :: StoredSignature(t.columns[k]))
  }

  /** Applies one change, refusing one that does not fit the view: adding what is there,
      altering or dropping what is absent or had another value, altering to the same value. */
  function Apply(v: View, c: Change): Option<View> {
    match c.kind
    case AddObject =>
      if c.subject.TheObject? && c.objectId !in v.objects then Some(v.(objects := v.objects + {c.objectId})) else None
    case DropObject =>
      if c.subject.TheObject? && c.objectId in v.objects
      then Some(View(v.objects - {c.objectId}, map k | k in v.columns && k.owner != c.objectId :: v.columns[k]))
      else None
    case _ =>
      if c.subject.TheObject? || c.objectId !in v.objects then None else
      var k := ColumnKey(c.objectId, c.subject.column);
      var before := if k in v.columns then Some(v.columns[k]) else None;
      if c.oldValue != before || c.oldValue == c.newValue || (c.kind.AddColumn? <==> before.Some?) then None
      else if c.kind.DropColumn? then (if c.newValue.None? then Some(v.(columns := v.columns - {k})) else None)
      else if c.newValue.Some? then Some(v.(columns := v.columns[k := c.newValue.value])) else None
  }

  function Replay(v: View, cs: seq<Change>): Option<View> {
    if cs == [] then Some(v) else
    var w := Replay(v, cs[..|cs| - 1]);
    if w.None? then None else Apply(w.value, cs[|cs| - 1])
  }

  lemma ReplayOneMore(v: View, cs: seq<Change>, c: Change)
    ensures Replay(v, cs + [c]) ==
            if Replay(v, cs).None? then None else Apply(Replay(v, cs).value, c)
  {
    assert (cs + [c])[..|cs|] == cs;
  }

  /** What a change is about: an object, or one of its columns. */
  function About(c: Change): (Id, Option<string>) {
    (c.objectId, if c.subject.TheObject? then None else Some(c.subject.column))
  }

  ghost predicate NoneTwice(cs: seq<Change>) {
    forall i, j | 0 <= i < j < |cs| :: About(cs[i]) != About(cs[j])
  }

  function At(v: View, k: ColumnKey): Option<string> {
    if k in v.columns then Some(v.columns[k]) else None
  }

  ghost predicate AboutColumn(c: Change, k: ColumnKey) {
    About(c) == (k.owner, Some(k.name))
  }

  ghost predicate Drops(cs: seq<Change>, o: Id) {
    exists c | c in cs :: c.kind.DropObject? && c.objectId == o
  }

  lemma ApplyAt(v: View, c: Change, k: ColumnKey)
    requires Apply(v, c).Some? && !(c.kind.DropObject? && c.objectId == k.owner)
    ensures var w := Apply(v, c).value;
      if AboutColumn(c, k) then c.oldValue == At(v, k) && c.newValue == At(w, k) && c.oldValue != c.newValue
      else At(w, k) == At(v, k)
  {}

  /** Replaying changes that mention nothing twice: a column's value moves exactly by the one
      record about it, which carries its true old and new value. */
  lemma {:induction false} ReplayColumn(v: View, cs: seq<Change>, k: ColumnKey)
    requires Replay(v, cs).Some? && NoneTwice(cs) && !Drops(cs, k.owner)
    ensures (forall c | c in cs :: !AboutColumn(c, k)) ==> At(Replay(v, cs).value, k) == At(v, k)
    ensures forall c | c in cs && AboutColumn(c, k) ::
              c.oldValue == At(v, k) && c.newValue == At(Replay(v, cs).value, k) && c.oldValue != c.newValue
  {
    if cs != [] {
      var init, last := cs[..|cs| - 1], cs[|cs| - 1];
      assert cs == init + [last];
      hide Apply;
      var u := Replay(v, init).value;
      ReplayColumn(v, init, k);
      ApplyAt(u, last, k);
      assert forall c | c in init :: About(c) != About(last) by {
        forall c | c in init ensures About(c) != About(last) {
          var i :| 0 <= i < |init| && init[i] == c;
          assert cs[i] == c;
        }
      }
    }
  }

  lemma ApplyObject(v: View, c: Change, o: Id)
    requires Apply(v, c).Some?
    ensures o in Apply(v, c).value.objects <==>
            (o in v.objects && !(c.kind.DropObject? && c.objectId == o)) || (c.kind.AddObject? && c.objectId == o)
    ensures c.kind.DropObject? || c.kind.AddObject? ==> About(c) == (c.objectId, None)
  {}

  lemma {:induction false} ReplayObject(v: View, cs: seq<Change>, o: Id)
    requires Replay(v, cs).Some? && NoneTwice(cs)
    ensures Drops(cs, o) <==> o in v.objects && o !in Replay(v, cs).value.objects
    ensures (exists c | c in cs :: c.kind.AddObject? && c.objectId == o) <==>
            o !in v.objects && o in Replay(v, cs).value.objects
  {
    if cs != [] {
      var init, last := cs[..|cs| - 1], cs[|cs| - 1];
      assert cs == init + [last];
      ReplayObject(v, init, o);
      var u := Replay(v, init).value;
      assert Apply(u, last).Some?;
      ApplyObject(u, last, o);
      if last.objectId == o && last.kind.AddObject? { assert o !in u.objects; }
      if last.objectId == o && last.kind.DropObject? { assert o in u.objects; }
      hide Apply;
      forall c | c in init && (c.kind.DropObject? || c.kind.AddObject?) &&
        (last.kind.DropObject? || last.kind.AddObject?)
        ensures c.objectId != last.objectId
      {
        var i :| 0 <= i < |init| && init[i] == c;
        assert cs[i] == c && About(cs[i]) != About(cs[|cs| - 1]);
        ReplayStepAbout(v, cs, i);
      }
    }
  }

  lemma {:induction false} ReplayStepAbout(v: View, cs: seq<Change>, i: nat)
    requires i < |cs| && Replay(v, cs).Some?
    ensures cs[i].kind.DropObject? || cs[i].kind.AddObject? ==> About(cs[i]) == (cs[i].objectId, None)
  {
    var init := cs[..|cs| - 1];
    if i < |init| {
      assert init[i] == cs[i];
      ReplayStepAbout(v, init, i);
    } else {
      ApplyObject(Replay(v, init).value, cs[i], 0);
    }
  }

  /** The journal rows whose object is not among those deleted. */
  function WithoutObjects(cs: seq<Change>, gone: set<Id>): seq<Change> {
    if cs == [] then []
    else WithoutObjects(cs[..|cs| - 1], gone) +
         (if cs[|cs| - 1].objectId in gone then [] else [cs[|cs| - 1]])
  }

  lemma WithoutObjectsOneMore(cs: seq<Change>, c: Change, gone: set<Id>)
    ensures WithoutObjects(cs + [c], gone) == WithoutObjects(cs, gone) + (if c.objectId in gone then [] else [c])
  {
    assert (cs + [c])[..|cs|] == cs;
  }

  lemma {:induction false} WithoutObjectsTwice(cs: seq<Change>, a: set<Id>, b: set<Id>)
    ensures WithoutObjects(WithoutObjects(cs, a), b) == WithoutObjects(cs, a + b)
  {
    if cs != [] {
      var init, last := cs[..|cs| - 1], cs[|cs| - 1];
      WithoutObjectsTwice(init, a, b);
      if last.objectId in a {
        assert WithoutObjects(cs, a) == WithoutObjects(init, a);
      } else {
        WithoutObjectsOneMore(WithoutObjects(init, a), last, b);
      }
    }
  }

  lemma {:induction false} WithoutObjectsNone(cs: seq<Change>)
    ensures WithoutObjects(cs, {}) == cs
  {
    if cs != [] {
      WithoutObjectsNone(cs[..|cs| - 1]);
      assert cs == cs[..|cs| - 1] + [cs[|cs| - 1]];
    }
  }

  lemma {:induction false} WithoutObjectsHolds(cs: seq<Change>, gone: set<Id>)
    ensures forall c | c in WithoutObjects(cs, gone) :: c.objectId !in gone
  {
    if cs != [] {
      WithoutObjectsHolds(cs[..|cs| - 1], gone);
    }
  }
}
