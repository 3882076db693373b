/** Field inference over sampled MongoDB documents. A document is its fields in the arbitrary
    order in which the Go map yields them; a type counter is a multiset of type names. */
module MongoInference {
  import opened Options

  /** `generic` tells which of the two Go map types holds a nested document. */
  datatype Value = Scalar(kind: string) | Doc(generic: bool, fields: seq<Field>)
  datatype Field = Field(key: string, value: Value)

  function TypeOf(v: Value): string {
    if v.Doc? then "object" else v.kind
  }

  function Name(prefix: string, key: string): string {
    if prefix != "" then prefix + "." + key else key
  }

  type Counters = map<string, multiset<string>>

  function CountOf(ft: Counters, path: string): multiset<string> {
    if path in ft then ft[path] else multiset{}
  }

  // ---------------------------------------------------------------- what the extractors record

  /** The types recorded under a path by one pass over a list of fields. */
  function Hits(prefix: string, fields: seq<Field>, path: string): multiset<string>
    decreases fields
  {
    if fields == [] then multiset{}
    else Hits(prefix, fields[..|fields| - 1], path) + FieldHits(prefix, fields[|fields| - 1], path)
  }

  function FieldHits(prefix: string, f: Field, path: string): multiset<string>
    decreases f
  {
    var name := Name(prefix, f.key);
    (if name == path then multiset{TypeOf(f.value)} else multiset{}) +
    (if f.value.Doc? then Hits(name, f.value.fields, path) else multiset{})
  }

  /** `after` has, on top of `before`, what one pass over the fields records. */
  ghost predicate Extracted(before: Counters, after: Counters, prefix: string, fields: seq<Field>) {
    forall p: string :: CountOf(after, p) == CountOf(before, p) + Hits(prefix, fields, p)
  }

  ghost predicate Recorded(before: Counters, after: Counters, path: string, kind: string) {
    forall p: string :: CountOf(after, p) == CountOf(before, p) + (if p == path then multiset{kind} else multiset{})
  }

  lemma ExtractedNothing(ft: Counters, prefix: string)
    ensures Extracted(ft, ft, prefix, [])
  {}

  /** One more field: its own type, then whatever its nested document records. */
  lemma ExtractedField(
    ft0: Counters, ft1: Counters, ft2: Counters, ft3: Counters, prefix: string, fields: seq<Field>, i: nat)
    requires i < |fields| && Extracted(ft0, ft1, prefix, fields[..i])
    requires Recorded(ft1, ft2, Name(prefix, fields[i].key), TypeOf(fields[i].value))
    requires match fields[i].value
             case Doc(_, nested) => Extracted(ft2, ft3, Name(prefix, fields[i].key), nested)
             case Scalar(_) => ft3 == ft2
    ensures Extracted(ft0, ft3, prefix, fields[..i + 1])
  {
    hide Hits, FieldHits, CountOf;
    forall p: string ensures CountOf(ft3, p) == CountOf(ft0, p) + Hits(prefix, fields[..i + 1], p) {
      HitsOneMore(prefix, fields, i, p);
      FieldHitsAre(prefix, fields[i], p);
    }
  }

  lemma HitsOneMore(prefix: string, fields: seq<Field>, i: nat, p: string)
    requires i < |fields|
    ensures Hits(prefix, fields[..i + 1], p) == Hits(prefix, fields[..i], p) + FieldHits(prefix, fields[i], p)
  {
    hide FieldHits;
    assert fields[..i + 1][..i] == fields[..i];
  }

  /** A field records its own type under its name, and its nested fields below that name. */
  lemma FieldHitsAre(prefix: string, f: Field, p: string)
    ensures FieldHits(prefix, f, p) ==
      (if Name(prefix, f.key) == p then multiset{TypeOf(f.value)} else multiset{}) +
      (if f.value.Doc? then Hits(Name(prefix, f.key), f.value.fields, p) else multiset{})
  {}

  class Extractor {
    var fieldTypes: Counters

    constructor ()
      ensures fieldTypes == map[]
    {
      fieldTypes := map[];
    }

    method Record(path: string, kind: string)
      modifies this
      ensures Recorded(old(fieldTypes), fieldTypes, path, kind)
    {
      if path !in fieldTypes {
        fieldTypes := fieldTypes[path := multiset{}];
      }
      fieldTypes := fieldTypes[path := fieldTypes[path] + multiset{kind}];
    }

    /** The extractor for bson.M. */
    method ExtractFields(prefix: string, fields: seq<Field>)
      modifies this
      ensures Extracted(old(fieldTypes), fieldTypes, prefix, fields)
      decreases fields
    {
      hide Extracted, Recorded, Name;
      ExtractedNothing(fieldTypes, prefix);
      for i := 0 to |fields|
        invariant Extracted(old(fieldTypes), fieldTypes, prefix, fields[..i])
      {
        ghost var before := fieldTypes;
        var fieldName := Name(prefix, fields[i].key);
        Record(fieldName, TypeOf(fields[i].value));
        ghost var recorded := fieldTypes;
        match fields[i].value {
          case Doc(generic, nested) =>
            if !generic {
              ExtractFields(fieldName, nested);
            } else {
              ExtractFieldsGeneric(fieldName, nested);
            }
          case Scalar(_) =>
        }
        ExtractedField(old(fieldTypes), before, recorded, fieldTypes, prefix, fields, i);
      }
      assert fields[..|fields|] == fields;
    }

    /** The extractor for map[string]interface{}. */
    method ExtractFieldsGeneric(prefix: string, fields: seq<Field>)
      modifies this
      ensures Extracted(old(fieldTypes), fieldTypes, prefix, fields)
      decreases fields
    {
      hide Extracted, Recorded, Name;
      ExtractedNothing(fieldTypes, prefix);
      for i := 0 to |fields|
        invariant Extracted(old(fieldTypes), fieldTypes, prefix, fields[..i])
      {
        ghost var before := fieldTypes;
        var fieldName := Name(prefix, fields[i].key);
        Record(fieldName, TypeOf(fields[i].value));
        ghost var recorded := fieldTypes;
        match fields[i].value {
          case Doc(generic, nested) =>
            if generic {
              ExtractFieldsGeneric(fieldName, nested);
            } else {
              ExtractFields(fieldName, nested);
            }
          case Scalar(_) =>
        }
        ExtractedField(old(fieldTypes), before, recorded, fieldTypes, prefix, fields, i);
      }
      assert fields[..|fields|] == fields;
    }

    /** The sampling loop. */
    method ExtractAll(docs: seq<seq<Field>>)
      requires fieldTypes == map[]
      modifies this
      ensures forall p: string :: CountOf(fieldTypes, p) == AllHits(docs, p)
    {
      for i := 0 to |docs|
        invariant forall p: string :: CountOf(fieldTypes, p) == AllHits(docs[..i], p)
      {
        assert docs[..i + 1][..i] == docs[..i];
        ExtractFields("", docs[i]);
      }
      assert docs[..|docs|] == docs;
    }
  }

  function AllHits(docs: seq<seq<Field>>, path: string): multiset<string> {
    if docs == [] then multiset{}
    else AllHits(docs[..|docs| - 1], path) + Hits("", docs[|docs| - 1], path)
  }

  // ---------------------------------------------------------------- documents with plain keys

  predicate PlainKey(k: string) { k != "" && '.' !in k }

  /** Keys are non-empty, dot-free and distinct, at every level. */
  predicate Plain(fields: seq<Field>)
    decreases fields
  {
    && (forall i | 0 <= i < |fields| :: PlainKey(fields[i].key) && PlainValue(fields[i].value))
    && (forall i, j | 0 <= i < j < |fields| :: fields[i].key != fields[j].key)
  }

  predicate PlainValue(v: Value)
    decreases v
  {
    match v
    case Scalar(_) => true
    case Doc(_, fields) => Plain(fields)
  }

  function Find(fields: seq<Field>, key: string): Option<Value> {
    if fields == [] then None
    else if fields[|fields| - 1].key == key then Some(fields[|fields| - 1].value)
    else Find(fields[..|fields| - 1], key)
  }

  /** The type a document has at a path of keys, if the path is there. */
  function TypeAt(fields: seq<Field>, keys: seq<string>): Option<string>
    requires keys != []
    decreases |keys|
  {
    match Find(fields, keys[0])
    case None => None
    case Some(v) =>
      if |keys| == 1 then Some(TypeOf(v))
      else if v.Doc? then TypeAt(v.fields, keys[1..])
      else None
  }

  /** The printed path of a list of keys below a prefix. */
  function PathFrom(prefix: string, keys: seq<string>): string
    decreases |keys|
  {
    if keys == [] then prefix else PathFrom(Name(prefix, keys[0]), keys[1..])
  }

  predicate Below(path: string, base: string) {
    |base| < |path| && path[..|base|] == base && path[|base|] == '.'
  }

  lemma {:induction false} PathIsBelow(prefix: string, keys: seq<string>)
    requires forall k | k in keys :: PlainKey(k)
    ensures keys != [] && prefix != "" ==> Below(PathFrom(prefix, keys), prefix)
    ensures keys != [] ==> PathFrom(prefix, keys) != ""
    decreases |keys|
  {
    if keys != [] {
      var name := Name(prefix, keys[0]);
      assert keys[0] in keys;
      if keys[1..] != [] {
        PathIsBelow(name, keys[1..]);
        assert prefix != "" ==> PathFrom(prefix, keys)[..|prefix|] == name[..|prefix|];
      }
    }
  }

  /** Whatever a pass below a non-empty prefix records lies below that prefix. */
  lemma {:induction false} HitsBelow(prefix: string, fields: seq<Field>, path: string)
    requires prefix != "" && Plain(fields) && Hits(prefix, fields, path) != multiset{}
    ensures Below(path, prefix)
    decreases fields
  {
    var init, f := fields[..|fields| - 1], fields[|fields| - 1];
    assert PlainKey(f.key) && PlainValue(f.value);
    if Hits(prefix, init, path) != multiset{} {
      HitsBelow(prefix, init, path);
    } else {
      var name := Name(prefix, f.key);
      if name != path {
        HitsBelow(name, f.value.fields, path);
        assert path[..|prefix|] == name[..|prefix|];
      }
    }
  }

  /** Two different keys own disjoint sets of paths. */
  lemma KeysApart(prefix: string, a: string, b: string, path: string)
    requires PlainKey(a) && PlainKey(b)
    requires path == Name(prefix, a) || Below(path, Name(prefix, a))
    requires path == Name(prefix, b) || Below(path, Name(prefix, b))
    ensures a == b
  {
    KeyIsSegment(prefix, a, path);
    KeyIsSegment(prefix, b, path);
  }

  lemma KeyIsSegment(prefix: string, a: string, path: string)
    requires PlainKey(a) && (path == Name(prefix, a) || Below(path, Name(prefix, a)))
    ensures var n := if prefix == "" then 0 else |prefix| + 1;
      n <= |path| && FirstSegment(path[n..]) == a
  {
    var name, n := Name(prefix, a), if prefix == "" then 0 else |prefix| + 1;
    assert name[n..] == a && path[..|name|] == name;
    assert path[n..][..|a|] == path[..|name|][n..];
    SegmentIs(path[n..], a);
  }

  /** The text before the first dot. */
  function FirstSegment(s: string): string {
    if s == "" || s[0] == '.' then "" else [s[0]] + FirstSegment(s[1..])
  }

  lemma {:induction false} SegmentIs(s: string, a: string)
    requires '.' !in a && |a| <= |s| && s[..|a|] == a && (|a| < |s| ==> s[|a|] == '.')
    ensures FirstSegment(s) == a
  {
    if a != "" {
      assert s[0] == a[0] && s[1..][..|a| - 1] == a[1..] && a == [a[0]] + a[1..];
      SegmentIs(s[1..], a[1..]);
    }
  }

  /** A document records exactly its type at each path of plain keys, once. */
  lemma {:induction false} HitsAre(prefix: string, fields: seq<Field>, keys: seq<string>)
    requires Plain(fields) && keys != [] && forall k | k in keys :: PlainKey(k)
    ensures Hits(prefix, fields, PathFrom(prefix, keys)) ==
            match TypeAt(fields, keys) case None => multiset{} case Some(t) => multiset{t}
    decreases fields
  {
    var path := PathFrom(prefix, keys);
    if fields != [] {
      var init, f := fields[..|fields| - 1], fields[|fields| - 1];
      assert PlainKey(f.key) && PlainValue(f.value) && keys[0] in keys;
      HitsAre(prefix, init, keys);
      if f.key == keys[0] {
        NotFound(init, f.key);
        FieldHitsOwn(prefix, f, keys);
      } else {
        FieldHitsOther(prefix, f, keys);
      }
    }
  }

  lemma {:induction false} NotFound(fields: seq<Field>, key: string)
    requires forall i | 0 <= i < |fields| :: fields[i].key != key
    ensures Find(fields, key) == None
  {
    if fields != [] {
      NotFound(fields[..|fields| - 1], key);
    }
  }

  lemma FieldHitsOwn(prefix: string, f: Field, keys: seq<string>)
    requires PlainKey(f.key) && PlainValue(f.value) && keys != [] && keys[0] == f.key
    requires forall k | k in keys :: PlainKey(k)
    ensures FieldHits(prefix, f, PathFrom(prefix, keys)) ==
            if |keys| == 1 then multiset{TypeOf(f.value)}
            else if f.value.Doc? then
              match TypeAt(f.value.fields, keys[1..]) case None => multiset{} case Some(t) => multiset{t}
            else multiset{}
    decreases f, 0
  {
    var name := Name(prefix, f.key);
    var path := PathFrom(prefix, keys);
    if |keys| == 1 {
      assert path == name;
      if f.value.Doc? && Hits(name, f.value.fields, path) != multiset{} {
        HitsBelow(name, f.value.fields, path);
      }
    } else {
      PathIsBelow(name, keys[1..]);
      if f.value.Doc? {
        HitsAre(name, f.value.fields, keys[1..]);
      }
    }
  }

  lemma FieldHitsOther(prefix: string, f: Field, keys: seq<string>)
    requires PlainKey(f.key) && PlainValue(f.value) && keys != [] && keys[0] != f.key
    requires forall k | k in keys :: PlainKey(k)
    ensures FieldHits(prefix, f, PathFrom(prefix, keys)) == multiset{}
  {
    var path := PathFrom(prefix, keys);
    assert keys[0] in keys;
    var own := Name(prefix, keys[0]);
    if keys[1..] != [] {
      PathIsBelow(own, keys[1..]);
    }
    if FieldHits(prefix, f, path) != multiset{} {
      if Name(prefix, f.key) != path {
        HitsBelow(Name(prefix, f.key), f.value.fields, path);
      }
      KeysApart(prefix, keys[0], f.key, path);
    }
  }

  // ---------------------------------------------------------------- what the counters mean

  /** The types found at a path over all documents, one per document that has it. */
  function Seen(docs: seq<seq<Field>>, keys: seq<string>): multiset<string>
    requires keys != []
  {
    if docs == [] then multiset{}
    else
      Seen(docs[..|docs| - 1], keys) +
      match TypeAt(docs[|docs| - 1], keys) case None => multiset{} case Some(t) => multiset{t}
  }

  function DocsWith(docs: seq<seq<Field>>, keys: seq<string>): nat
    requires keys != []
  {
    if docs == [] then 0
    else DocsWith(docs[..|docs| - 1], keys) + if TypeAt(docs[|docs| - 1], keys).Some? then 1 else 0
  }

  predicate PlainKeys(keys: seq<string>) {
    keys != [] && forall k | k in keys :: PlainKey(k)
  }

  /** The counters of a path hold, for each type, the number of documents with that type there;
      their total is the number of documents that contain the path. */
  lemma {:induction false} CountersAre(docs: seq<seq<Field>>, keys: seq<string>)
    requires (forall d | d in docs :: Plain(d)) && PlainKeys(keys)
    ensures AllHits(docs, PathFrom("", keys)) == Seen(docs, keys)
    ensures |Seen(docs, keys)| == DocsWith(docs, keys)
  {
    if docs != [] {
      var init, last := docs[..|docs| - 1], docs[|docs| - 1];
      assert forall d | d in init :: d in docs;
      CountersAre(init, keys);
      HitsAre("", last, keys);
    }
  }

  /** A child is only found in a nested document. */
  lemma {:induction false} ParentIsObject(fields: seq<Field>, keys: seq<string>)
    requires |keys| > 1 && TypeAt(fields, keys).Some?
    ensures TypeAt(fields, keys[..|keys| - 1]) == Some("object")
    decreases |keys|
  {
    var parent := keys[..|keys| - 1];
    var v := Find(fields, keys[0]).value;
    if |keys| > 2 {
      ParentIsObject(v.fields, keys[1..]);
      assert keys[1..][..|keys[1..]| - 1] == parent[1..];
    }
  }

  /** A child's total never exceeds its parent's "object" count. */
  lemma {:induction false} ChildWithinParent(docs: seq<seq<Field>>, keys: seq<string>)
    requires |keys| > 1
    ensures |Seen(docs, keys)| <= Seen(docs, keys[..|keys| - 1])["object"]
  {
    if docs != [] {
      ChildWithinParent(docs[..|docs| - 1], keys);
      var last := docs[|docs| - 1];
      if TypeAt(last, keys).Some? {
        ParentIsObject(last, keys);
      }
    }
  }

  // ---------------------------------------------------------------- parent paths

  /** The text before the last dot, or none without a dot. */
  predicate IsParent(path: string, parent: string) {
    if '.' !in path then parent == ""
    else |parent| < |path| && path[..|parent|] == parent && path[|parent|] == '.' && '.' !in path[|parent| + 1..]
  }

  /** Scans from the end for the last dot. */
  method GetParentPath(fieldName: string) returns (parent: string)
    ensures IsParent(fieldName, parent)
  {
    var i := |fieldName| - 1;
    while i >= 0
      invariant -1 <= i < |fieldName|
      invariant '.' !in fieldName[i + 1..]
      decreases i + 1
    {
      if fieldName[i] == '.' {
        return fieldName[..i];
      }
      i := i - 1;
    }
    assert fieldName[0..] == fieldName;
    parent := "";
  }

  lemma {:induction false} PathSnoc(prefix: string, keys: seq<string>)
    requires keys != []
    ensures PathFrom(prefix, keys) == Name(PathFrom(prefix, keys[..|keys| - 1]), keys[|keys| - 1])
    decreases |keys|
  {
    if |keys| > 1 {
      PathSnoc(Name(prefix, keys[0]), keys[1..]);
      assert keys[1..][..|keys[1..]| - 1] == keys[..|keys| - 1][1..];
    }
  }

  /** The text before the last dot of a printed path is the path without its last key. */
  lemma ParentPathIs(keys: seq<string>, parent: string)
    requires PlainKeys(keys) && IsParent(PathFrom("", keys), parent)
    ensures parent == PathFrom("", keys[..|keys| - 1])
  {
    PathSnoc("", keys);
    var p, up, last := PathFrom("", keys), PathFrom("", keys[..|keys| - 1]), keys[|keys| - 1];
    assert last in keys;
    if |keys| == 1 {
      assert p == last && up == "";
    } else {
      assert forall k | k in keys[..|keys| - 1] :: k in keys;
      PathIsBelow("", keys[..|keys| - 1]);
      assert p == up + "." + last && p[|up|] == '.' && '.' in p;
      assert p[|up| + 1..] == last;
      LastDot(p, |up|, |parent|);
    }
  }

  lemma LastDot(p: string, i: nat, j: nat)
    requires i < |p| && j < |p| && p[i] == '.' && p[j] == '.' && '.' !in p[i + 1..] && '.' !in p[j + 1..]
    ensures i == j
  {
    forall k | i < k < |p| ensures p[k] != '.' { assert p[k] == p[i + 1..][k - i - 1]; }
    forall k | j < k < |p| ensures p[k] != '.' { assert p[k] == p[j + 1..][k - j - 1]; }
  }

  /** Every recorded path is a printed path of plain keys that some document has. */
  lemma {:induction false} HitsHavePath(prefix: string, fields: seq<Field>, path: string) returns (keys: seq<string>)
    requires Plain(fields) && Hits(prefix, fields, path) != multiset{}
    ensures PlainKeys(keys) && path == PathFrom(prefix, keys) && TypeAt(fields, keys).Some?
    decreases fields
  {
    var init, f := fields[..|fields| - 1], fields[|fields| - 1];
    assert PlainKey(f.key) && PlainValue(f.value);
    var name := Name(prefix, f.key);
    if Hits(prefix, init, path) != multiset{} {
      keys := HitsHavePath(prefix, init, path);
      FoundKey(init, keys[0]);
    } else if name == path {
      keys := [f.key];
      assert keys[1..] == [];
    } else {
      var more := HitsHavePath(name, f.value.fields, path);
      keys := [f.key] + more;
      assert keys[1..] == more;
    }
  }

  lemma {:induction false} FoundKey(fields: seq<Field>, key: string)
    requires Find(fields, key).Some?
    ensures exists i | 0 <= i < |fields| :: fields[i].key == key
  {
    if fields != [] && fields[|fields| - 1].key != key {
      FoundKey(fields[..|fields| - 1], key);
      var i :| 0 <= i < |fields| - 1 && fields[..|fields| - 1][i].key == key;
      assert fields[i].key == key;
    }
  }

  lemma {:induction false} AllHitsHavePath(docs: seq<seq<Field>>, path: string) returns (keys: seq<string>)
    requires (forall d | d in docs :: Plain(d)) && AllHits(docs, path) != multiset{}
    ensures PlainKeys(keys) && path == PathFrom("", keys) && DocsWith(docs, keys) > 0
  {
    var init, last := docs[..|docs| - 1], docs[|docs| - 1];
    assert forall d | d in init :: d in docs;
    if AllHits(init, path) != multiset{} {
      keys := AllHitsHavePath(init, path);
    } else {
      keys := HitsHavePath("", last, path);
    }
  }

  /** The set of recorded paths is closed under taking the parent path. */
  lemma PathsClosed(docs: seq<seq<Field>>, path: string, parent: string)
    requires (forall d | d in docs :: Plain(d)) && AllHits(docs, path) != multiset{}
    requires IsParent(path, parent)
    ensures parent == "" || AllHits(docs, parent)["object"] >= |AllHits(docs, path)|
  {
    var keys := AllHitsHavePath(docs, path);
    ParentPathIs(keys, parent);
    if |keys| > 1 {
      var up := keys[..|keys| - 1];
      assert forall k | k in up :: k in keys;
      CountersAre(docs, keys);
      CountersAre(docs, up);
      ChildWithinParent(docs, keys);
    }
  }

  /** With a dotted key the closure fails: the parent of "a.b" was never recorded. */
  lemma DottedKeyExample()
    ensures var docs := [[Field("a.b", Scalar("int"))]];
      AllHits(docs, "a.b") == multiset{"int"} && AllHits(docs, "a") == multiset{}
  {
    var f := Field("a.b", Scalar("int"));
    assert [f][..0] == [] && [[f]][..0] == [];
    assert Hits("", [f], "a.b") == multiset{"int"} && Hits("", [f], "a") == multiset{};
  }

  /** Some field of the document, at any level, has a dotted key and this path. */
  predicate DottedAt(prefix: string, fields: seq<Field>, path: string)
    decreases fields
  {
    exists i | 0 <= i < |fields| ::
      var f := fields[i];
      || (Name(prefix, f.key) == path && '.' in f.key)
      || (f.value.Doc? && DottedAt(Name(prefix, f.key), f.value.fields, path))
  }

  lemma OneName(prefix: string, key: string, parent: string)
    requires '.' !in key && IsParent(Name(prefix, key), parent)
    ensures parent == "" || parent == prefix
  {
    var p := Name(prefix, key);
    if prefix != "" {
      assert p[|prefix|] == '.' && p[..|prefix|] == prefix && p[|prefix| + 1..] == key;
      LastDot(p, |prefix|, |parent|);
    }
  }

  lemma HitsOfPrefix(prefix: string, fields: seq<Field>, path: string)
    requires fields != []
    ensures Hits(prefix, fields, path) ==
            Hits(prefix, fields[..|fields| - 1], path) + FieldHits(prefix, fields[|fields| - 1], path)
  {}

  lemma DottedInPart(prefix: string, fields: seq<Field>, path: string)
    requires fields != []
    ensures DottedAt(prefix, fields[..|fields| - 1], path) ==> DottedAt(prefix, fields, path)
  {
    var init := fields[..|fields| - 1];
    forall i | 0 <= i < |init| ensures init[i] == fields[i] {}
  }

  /** A path recorded by no dotted key has its parent recorded, as an object, unless it has none. */
  lemma {:induction false} ParentRecorded(prefix: string, fields: seq<Field>, path: string, parent: string)
    requires Hits(prefix, fields, path) != multiset{} && !DottedAt(prefix, fields, path) && IsParent(path, parent)
    ensures parent == "" || parent == prefix || "object" in Hits(prefix, fields, parent)
    decreases fields
  {
    hide IsParent;
    var init, f := fields[..|fields| - 1], fields[|fields| - 1];
    var name := Name(prefix, f.key);
    HitsOfPrefix(prefix, fields, parent);
    DottedInPart(prefix, fields, path);
    if Hits(prefix, init, path) != multiset{} {
      ParentRecorded(prefix, init, path, parent);
    } else if name == path {
      OneName(prefix, f.key, parent);
    } else {
      ParentRecorded(name, f.value.fields, path, parent);
      FieldHitsAre(prefix, f, parent);
    }
  }

  lemma {:induction false} DottedIsRecorded(prefix: string, fields: seq<Field>, path: string)
    requires DottedAt(prefix, fields, path)
    ensures Hits(prefix, fields, path) != multiset{}
    decreases fields
  {
    var i :| 0 <= i < |fields| &&
             ((Name(prefix, fields[i].key) == path && '.' in fields[i].key) ||
              (fields[i].value.Doc? && DottedAt(Name(prefix, fields[i].key), fields[i].value.fields, path)));
    HitsOfPrefix(prefix, fields, path);
    var f := fields[|fields| - 1];
    FieldHitsAre(prefix, f, path);
    if i < |fields| - 1 {
      var init := fields[..|fields| - 1];
      assert init[i] == fields[i];
      assert DottedAt(prefix, init, path);
      DottedIsRecorded(prefix, init, path);
    } else if Name(prefix, f.key) == path {
      assert TypeOf(f.value) in FieldHits(prefix, f, path);
    } else {
      DottedIsRecorded(Name(prefix, f.key), f.value.fields, path);
    }
  }

  lemma {:induction false} AllHitsFrom(docs: seq<seq<Field>>, path: string)
    ensures AllHits(docs, path) != multiset{} <==> HitIn(docs, path)
  {
    hide Hits;
    if docs != [] {
      var init, last := docs[..|docs| - 1], docs[|docs| - 1];
      AllHitsFrom(init, path);
      assert AllHits(docs, path) == AllHits(init, path) + Hits("", last, path);
      NonEmptySum(AllHits(init, path), Hits("", last, path));
      hide AllHits;
      assert docs == init + [last];
      if HitIn(init, path) {
        var d :| d in init && Hits("", d, path) != multiset{};
        assert d in docs;
      }
      if d :| d in docs && Hits("", d, path) != multiset{} {
        assert d in init || d == last;
      }
      assert last in docs;
    }
  }

  ghost predicate HitIn(docs: seq<seq<Field>>, path: string) {
    exists d | d in docs :: Hits("", d, path) != multiset{}
  }

  lemma NonEmptySum(a: multiset<string>, b: multiset<string>)
    ensures a + b != multiset{} <==> a != multiset{} || b != multiset{}
  {
    assert |a + b| == |a| + |b|;
  }

  ghost predicate Closed(docs: seq<seq<Field>>) {
    forall path, parent | AllHits(docs, path) != multiset{} && IsParent(path, parent) :: ParentIn(docs, parent)
  }

  ghost predicate ParentIn(docs: seq<seq<Field>>, parent: string) {
    parent == "" || AllHits(docs, parent) != multiset{}
  }

  predicate DottedIn(docs: seq<seq<Field>>, path: string) {
    exists d | d in docs :: DottedAt("", d, path)
  }

  /** The exact condition, for documents with any keys: the recorded paths are closed under the
      parent path if and only if the path of every dotted key has its parent among them. */
  lemma ClosedExactly(docs: seq<seq<Field>>)
    ensures Closed(docs) <==> forall path, parent | DottedIn(docs, path) && IsParent(path, parent) ::
      ParentIn(docs, parent)
  {
    hide IsParent, Hits, AllHits, DottedAt;
    forall path | DottedIn(docs, path) ensures AllHits(docs, path) != multiset{} {
      var d :| d in docs && DottedAt("", d, path);
      DottedIsRecorded("", d, path);
      AllHitsFrom(docs, path);
    }
    forall path, parent | AllHits(docs, path) != multiset{} && IsParent(path, parent) && !DottedIn(docs, path)
      ensures ParentIn(docs, parent)
    {
      AllHitsFrom(docs, path);
      AllHitsFrom(docs, parent);
      var d :| d in docs && Hits("", d, path) != multiset{};
      ParentRecorded("", d, path, parent);
      assert "object" in Hits("", d, parent) ==> Hits("", d, parent) != multiset{};
    }
  }

  // ---------------------------------------------------------------- the inferred column

  datatype Inferred = Inferred(kind: string, confidence: real, isNullable: bool)

  /** A type of maximal count, its share of the total, and nullable when the share is below one. */
  ghost predicate InferredFrom(r: Inferred, types: multiset<string>) {
    && r.kind in types && (forall t :: types[t] <= types[r.kind])
    && r.confidence == types[r.kind] as real / |types| as real
    && (r.isNullable <==> types[r.kind] < |types|)
  }

  /** The counting part of the inference, over the types in any order. */
  method InferColumn(types: multiset<string>) returns (r: Inferred)
    requires types != multiset{}
    ensures InferredFrom(r, types)
  {
    var left := types;
    var totalCount, maxCount, mostCommonType := 0, 0, "";
    while left != multiset{}
      invariant left <= types && forall t :: left[t] == 0 || left[t] == types[t]
      invariant totalCount + |left| == |types|
      invariant forall t | t !in left :: types[t] <= maxCount
      invariant maxCount == 0 ==> left == types
      invariant maxCount > 0 ==> mostCommonType in types && types[mostCommonType] == maxCount
      decreases |left|
    {
      var t :| t in left;
      var count := types[t];
      totalCount := totalCount + count;
      if count > maxCount {
        maxCount := count;
        mostCommonType := t;
      }
      left := left[t := 0];
    }
    var confidence := maxCount as real / totalCount as real;
    Share(maxCount, totalCount);
    r := Inferred(mostCommonType, confidence, confidence < 1.0);
  }

  lemma Share(part: nat, whole: nat)
    requires whole > 0
    ensures part as real / whole as real < 1.0 <==> part < whole
  {
    var x := part as real / whole as real;
    assert x * whole as real == part as real;
  }

  /** Nullability is about mixed types, not about absence: if every document that has the field
      has it with one type, the column is inferred not nullable however many lack it. */
  lemma {:induction false} OneTypeNotNullable(docs: seq<seq<Field>>, keys: seq<string>, t: string)
    requires keys != [] && forall d | d in docs :: TypeAt(d, keys) == None || TypeAt(d, keys) == Some(t)
    ensures Seen(docs, keys)[t] == |Seen(docs, keys)|
  {
    if docs != [] {
      assert forall d | d in docs[..|docs| - 1] :: d in docs;
      assert docs[|docs| - 1] in docs;
      OneTypeNotNullable(docs[..|docs| - 1], keys, t);
    }
  }

  /** Two documents have the path with different types. */
  predicate Mixed(docs: seq<seq<Field>>, keys: seq<string>)
    requires keys != []
  {
    exists i, j | 0 <= i < |docs| && 0 <= j < |docs| ::
      TypeAt(docs[i], keys).Some? && TypeAt(docs[j], keys).Some? && TypeAt(docs[i], keys) != TypeAt(docs[j], keys)
  }

  /** Some document lacks the path. */
  predicate Absent(docs: seq<seq<Field>>, keys: seq<string>)
    requires keys != []
  {
    exists i | 0 <= i < |docs| :: TypeAt(docs[i], keys) == None
  }

  lemma {:induction false} SeenHas(docs: seq<seq<Field>>, keys: seq<string>, i: nat)
    requires keys != [] && i < |docs| && TypeAt(docs[i], keys).Some?
    ensures Seen(docs, keys)[TypeAt(docs[i], keys).value] >= 1
  {
    if i < |docs| - 1 {
      SeenHas(docs[..|docs| - 1], keys, i);
    }
  }

  lemma {:induction false} SeenIsSomewhere(docs: seq<seq<Field>>, keys: seq<string>, t: string) returns (i: nat)
    requires keys != [] && t in Seen(docs, keys)
    ensures i < |docs| && TypeAt(docs[i], keys) == Some(t)
  {
    if TypeAt(docs[|docs| - 1], keys) == Some(t) {
      i := |docs| - 1;
    } else {
      i := SeenIsSomewhere(docs[..|docs| - 1], keys, t);
    }
  }

  lemma TwoKinds(m: multiset<string>, a: string, b: string)
    requires a != b
    ensures m[a] + m[b] <= |m|
  {
    var rest := m[a := 0][b := 0];
    assert |m[a := 0]| == |m| - m[a] && |rest| == |m[a := 0]| - m[b];
  }

  /** The code infers nullable exactly when types are mixed. */
  lemma NullableIsMixed(docs: seq<seq<Field>>, keys: seq<string>, r: Inferred)
    requires keys != [] && InferredFrom(r, Seen(docs, keys))
    ensures r.isNullable <==> Mixed(docs, keys)
  {
    var types := Seen(docs, keys);
    var k := SeenIsSomewhere(docs, keys, r.kind);
    if Mixed(docs, keys) {
      var i, j :| 0 <= i < |docs| && 0 <= j < |docs| && TypeAt(docs[i], keys).Some? && TypeAt(docs[j], keys).Some?
                  && TypeAt(docs[i], keys) != TypeAt(docs[j], keys);
      SeenHas(docs, keys, i);
      SeenHas(docs, keys, j);
      var other := if TypeAt(docs[i], keys) == Some(r.kind) then TypeAt(docs[j], keys).value
                   else TypeAt(docs[i], keys).value;
      TwoKinds(types, r.kind, other);
    } else {
      forall d | d in docs ensures TypeAt(d, keys) == None || TypeAt(d, keys) == Some(r.kind) {
        var i :| 0 <= i < |docs| && docs[i] == d;
        assert TypeAt(docs[k], keys) == Some(r.kind);
      }
      OneTypeNotNullable(docs, keys, r.kind);
    }
  }

  lemma {:induction false} DocsWithIs(docs: seq<seq<Field>>, keys: seq<string>)
    requires keys != []
    ensures DocsWith(docs, keys) <= |docs|
    ensures DocsWith(docs, keys) < |docs| <==> Absent(docs, keys)
  {
    if docs != [] {
      var init := docs[..|docs| - 1];
      DocsWithIs(init, keys);
      hide TypeAt;
      if Absent(init, keys) {
        var i :| 0 <= i < |init| && TypeAt(init[i], keys) == None;
        assert docs[i] == init[i];
      }
      if i :| 0 <= i < |docs| && TypeAt(docs[i], keys) == None {
        assert i < |init| ==> init[i] == docs[i];
      }
    }
  }

  /** The promise, nullable exactly when some document lacks the field, is kept for a field if and
      only if its types are mixed exactly when some document lacks it. */
  lemma NullableAsPromised(docs: seq<seq<Field>>, keys: seq<string>, r: Inferred)
    requires keys != [] && InferredFrom(r, Seen(docs, keys))
    ensures (r.isNullable <==> DocsWith(docs, keys) < |docs|) <==> (Mixed(docs, keys) <==> Absent(docs, keys))
  {
    NullableIsMixed(docs, keys, r);
    DocsWithIs(docs, keys);
  }

  lemma OneScalar(key: string, kind: string)
    requires key != ""
    ensures Hits("", [Field(key, Scalar(kind))], key) == multiset{kind} && Hits("", [], key) == multiset{}
  {
    assert [Field(key, Scalar(kind))][..0] == [];
  }

  lemma TwoDocs(x: seq<Field>, y: seq<Field>, path: string)
    ensures AllHits([x, y], path) == Hits("", x, path) + Hits("", y, path)
  {
    hide Hits;
    assert [x, y][..1] == [x] && [x][..0] == [];
    assert AllHits([x], path) == Hits("", x, path);
  }

  /** The promise broken both ways, from concrete documents: a field that a document lacks is
      inferred not nullable, and a field that none lacks is inferred nullable. */
  method NullabilityMisread() returns (missing: Inferred, everywhere: Inferred)
    ensures !missing.isNullable && everywhere.isNullable
  {
    hide Hits, AllHits;
    var a, b := Field("a", Scalar("int")), Field("a", Scalar("string"));
    OneScalar("a", "int");
    OneScalar("a", "string");
    TwoDocs([a], [], "a");
    TwoDocs([a], [b], "a");
    var lacking := new Extractor();
    lacking.ExtractAll([[a], []]);
    assert CountOf(lacking.fieldTypes, "a") == multiset{"int"};
    missing := InferColumn(lacking.fieldTypes["a"]);
    var mixed := new Extractor();
    mixed.ExtractAll([[a], [b]]);
    assert CountOf(mixed.fieldTypes, "a") == multiset{"int", "string"};
    everywhere := InferColumn(mixed.fieldTypes["a"]);
    assert everywhere.kind == "int" || everywhere.kind == "string";
  }
}
