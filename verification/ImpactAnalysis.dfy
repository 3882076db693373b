/** The impact report: the search over the query's rows, sorted by distance, name and id. */
module ImpactAnalysis {
  import opened TextOrder
  import opened Lineage
  import opened Impact

  predicate Before(a: ImpactObject, b: ImpactObject) {
    if a.distance != b.distance then a.distance < b.distance
    else if a.name != b.name then Less(a.name, b.name)
    else Less(a.id, b.id)
  }

  ghost predicate Ranked(s: seq<ImpactObject>) {
    forall i, j | 0 <= i < j < |s| :: Before(s[i], s[j])
  }

  lemma BeforeIsStrict(a: ImpactObject, b: ImpactObject)
    requires Before(a, b)
    ensures !Before(b, a) && a != b
  {
    if a.distance == b.distance && a.name != b.name {
      Asymmetric(a.name, b.name);
    } else if a.distance == b.distance {
      Asymmetric(a.id, b.id);
      Irreflexive(a.id);
    }
  }

  lemma BeforeTransitive(a: ImpactObject, b: ImpactObject, c: ImpactObject)
    requires Before(a, b) && Before(b, c)
    ensures Before(a, c)
  {
    if a.distance == b.distance == c.distance {
      if a.name != b.name && b.name != c.name {
        Transitive(a.name, b.name, c.name);
        Irreflexive(a.name);
        if a.name == c.name {
          Asymmetric(a.name, b.name);
        }
      } else if a.name == b.name == c.name {
        Transitive(a.id, b.id, c.id);
      }
    }
  }

  lemma BeforeTotal(a: ImpactObject, b: ImpactObject)
    requires a.id != b.id
    ensures Before(a, b) || Before(b, a)
  {
    Total(a.name, b.name);
    Total(a.id, b.id);
  }

  function Insert(s: seq<ImpactObject>, x: ImpactObject): (r: seq<ImpactObject>)
    ensures multiset(r) == multiset(s) + multiset{x}
  {
    if s == [] || Before(x, s[0]) then [x] + s
    else
      assert s == [s[0]] + s[1..];
      [s[0]] + Insert(s[1..], x)
  }

  lemma {:induction false} InsertRanked(s: seq<ImpactObject>, x: ImpactObject)
    requires Ranked(s) && forall y | y in s :: y.id != x.id
    ensures Ranked(Insert(s, x))
  {
    if s != [] && Before(x, s[0]) {
      forall j | 0 <= j < |s| ensures Before(x, s[j]) {
        if j > 0 {
          BeforeTransitive(x, s[0], s[j]);
        }
      }
      hide Before;
    } else if s != [] {
      BeforeTotal(x, s[0]);
      hide Before;
      InsertRanked(s[1..], x);
      var r := Insert(s[1..], x);
      forall j | 0 <= j < |r| ensures Before(s[0], r[j]) {
        assert r[j] in multiset(r);
        if r[j] != x {
          assert r[j] in s[1..];
        }
      }
    }
  }

  /** The order decides the list: whatever order the map was walked in, and whatever sorting
      algorithm is used, the report is the same. */
  lemma {:induction false} RankedUnique(s: seq<ImpactObject>, t: seq<ImpactObject>)
    requires Ranked(s) && Ranked(t) && multiset(s) == multiset(t)
    ensures s == t
  {
    assert |multiset(s)| == |s| && |multiset(t)| == |t|;
    if s != [] {
      SameHead(s, t);
      TailRanked(s);
      TailRanked(t);
      hide Ranked;
      RankedUnique(s[1..], t[1..]);
      assert s == [s[0]] + s[1..] && t == [t[0]] + t[1..];
    }
  }

  lemma TailRanked(s: seq<ImpactObject>)
    requires Ranked(s) && s != []
    ensures Ranked(s[1..]) && multiset(s[1..]) == multiset(s) - multiset{s[0]}
  {
    hide Before;
    assert s == [s[0]] + s[1..];
  }

  lemma SameHead(s: seq<ImpactObject>, t: seq<ImpactObject>)
    requires Ranked(s) && Ranked(t) && s != [] && t != [] && multiset(s) == multiset(t)
    ensures s[0] == t[0]
  {
    hide Before;
    assert s[0] in multiset(t) && t[0] in multiset(s);
    var i :| 0 <= i < |t| && t[i] == s[0];
    var j :| 0 <= j < |s| && s[j] == t[0];
    if i > 0 && j > 0 {
      BeforeIsStrict(t[0], t[i]);
    }
  }

  /** Lists the found objects in the map's arbitrary order and sorts them. */
  method Report(impacts: map<string, ImpactObject>) returns (report: seq<ImpactObject>)
    requires forall v | v in impacts :: impacts[v].id == v
    ensures Ranked(report) && |report| == |impacts|
    ensures forall i, j | 0 <= i < j < |report| :: report[i].distance <= report[j].distance
    ensures forall i, j | 0 <= i < j < |report| && report[i].distance == report[j].distance ::
      AtMost(report[i].name, report[j].name)
    ensures forall i, j | 0 <= i < j < |report| && report[i].distance == report[j].distance
                          && report[i].name == report[j].name :: Less(report[i].id, report[j].id)
    ensures forall o :: o in report <==> o.id in impacts && impacts[o.id] == o
  {
    hide Before, Insert;
    report := [];
    var left := impacts.Keys;
    while left != {}
      invariant left <= impacts.Keys && Ranked(report) && |report| + |left| == |impacts|
      invariant forall o :: o in multiset(report) <==> o.id in impacts && o.id !in left && impacts[o.id] == o
      decreases |left|
    {
      var v :| v in left;
      assert forall y | y in report :: y in multiset(report);
      InsertRanked(report, impacts[v]);
      InsertSize(report, impacts[v]);
      report := Insert(report, impacts[v]);
      left := left - {v};
    }
    assert forall o :: o in report <==> o in multiset(report);
    RankedMeans(report);
  }

  /** Nearest first, then by name, then by id. */
  lemma RankedMeans(s: seq<ImpactObject>)
    requires Ranked(s)
    ensures forall i, j | 0 <= i < j < |s| :: s[i].distance <= s[j].distance
    ensures forall i, j | 0 <= i < j < |s| && s[i].distance == s[j].distance :: AtMost(s[i].name, s[j].name)
    ensures forall i, j | 0 <= i < j < |s| && s[i].distance == s[j].distance && s[i].name == s[j].name ::
      Less(s[i].id, s[j].id)
  {
    hide Less;
  }

  lemma InsertSize(s: seq<ImpactObject>, x: ImpactObject)
    ensures |Insert(s, x)| == |s| + 1
    ensures multiset(Insert(s, x)) == multiset(s) + multiset{x}
  {
    assert |multiset(Insert(s, x))| == |Insert(s, x)|;
  }

  lemma {:induction false} WalkInGraph(rows: seq<Edge>, g: seq<Edge>, root: string, es: seq<Edge>, v: string)
    requires IsWalk(rows, root, es, v) && forall e | e in rows :: e in g
    ensures IsWalk(g, root, es, v)
  {
    if es != [] {
      WalkInGraph(rows, g, root, es[..|es| - 1], es[|es| - 1].sourceId);
    }
  }

  lemma ReportsInGraph(
    rows: seq<Edge>, g: seq<Edge>, root: string, rootName: string, v: string, d: nat, o: ImpactObject)
    requires Reports(rows, root, rootName, v, d, o) && forall e | e in rows :: e in g
    ensures Reports(g, root, rootName, v, d, o)
  {
    var es: seq<Edge>, e: Edge :|
      && IsWalk(rows, root, es, e.sourceId) && e in rows && e.targetId == v && |es| + 1 == d
      && o == ImpactObject(v, e.targetName, e.targetType, e.targetObjectName, e.targetSourceName,
                           JoinPath([rootName] + TargetNames(es + [e])), d);
    WalkInGraph(rows, g, root, es, e.sourceId);
  }

  ghost predicate Found(report: seq<ImpactObject>, v: string, d: nat) {
    exists o | o in report :: o.id == v && o.distance == d
  }

  /** The report over the rows the store returns for depth 10, in whatever order: exactly the
      nodes other than the root at true distance at most 10 in the whole graph, each once with
      that distance and the names along a real walk of that length, strictly sorted. */
  method GetImpactAnalysis(g: seq<Edge>, columnId: string, rows: seq<Edge>) returns (report: seq<ImpactObject>)
    requires TypedById(g, columnId)
    requires multiset(rows) == multiset(LineageDownward(g, columnId, 10))
    ensures Ranked(report)
    ensures forall i, j | 0 <= i < j < |report| :: report[i].distance <= report[j].distance
    ensures forall i, j | 0 <= i < j < |report| && report[i].distance == report[j].distance ::
      AtMost(report[i].name, report[j].name)
    ensures forall i, j | 0 <= i < j < |report| && report[i].distance == report[j].distance
                          && report[i].name == report[j].name :: Less(report[i].id, report[j].id)
    ensures forall v: string, d: nat ::
      Found(report, v, d) <==> v != columnId && d <= 10 && Shortest(g, columnId, v, d)
    ensures forall i, j | 0 <= i < j < |report| :: report[i].id != report[j].id
    ensures forall o | o in report :: Reports(g, columnId, RootName(rows, columnId), o.id, o.distance, o)
  {
    hide Reports, RootName, LevelsUpTo, Level, Ranked, TypedById, LineageDownward, SameRows, Shortest;
    var impacts := Search(rows, columnId);
    report := Report(impacts);
    RankedMeans(report);
    SameMembers(rows, g, columnId);
    forall v: string, d: nat
      ensures Found(report, v, d) <==> v != columnId && d <= 10 && Shortest(g, columnId, v, d)
    {
      Distances(g, columnId, rows, impacts, report, v, d);
    }
    RowsAreEdges(rows, g, columnId);
    forall o | o in report ensures Reports(g, columnId, RootName(rows, columnId), o.id, o.distance, o) {
      ReportsInGraph(rows, g, columnId, RootName(rows, columnId), o.id, o.distance, o);
    }
    ReportedOnce(impacts, report);
  }

  lemma RowsAreEdges(rows: seq<Edge>, g: seq<Edge>, root: string)
    requires TypedById(g, root) && SameRows(rows, g, root, 10)
    ensures forall e | e in rows :: e in g
  {
    LevelsAreWithin(g, root, 10);
    hide LevelsUpTo, Within;
  }

  lemma ReportedOnce(impacts: map<string, ImpactObject>, report: seq<ImpactObject>)
    requires Ranked(report) && forall o | o in report :: o.id in impacts && impacts[o.id] == o
    ensures forall i, j | 0 <= i < j < |report| :: report[i].id != report[j].id
  {
    hide Before;
    forall i, j | 0 <= i < j < |report| ensures report[i].id != report[j].id {
      assert report[i] in report && report[j] in report;
      BeforeIsStrict(report[i], report[j]);
    }
  }

  lemma SameMembers(rows: seq<Edge>, g: seq<Edge>, root: string)
    requires multiset(rows) == multiset(LineageDownward(g, root, 10))
    ensures SameRows(rows, g, root, 10)
  {
    hide LevelsUpTo, Level;
    forall e ensures e in rows <==> e in LevelsUpTo(g, root, 10) {
      assert e in rows <==> e in multiset(rows);
    }
  }

  lemma Distances(
    g: seq<Edge>, root: string, rows: seq<Edge>, impacts: map<string, ImpactObject>, report: seq<ImpactObject>,
    v: string, d: nat)
    requires TypedById(g, root) && SameRows(rows, g, root, 10)
    requires forall u: string :: u in impacts <==> u != root && exists c: nat :: Shortest(rows, root, u, c)
    requires forall u | u in impacts :: impacts[u].id == u && Shortest(rows, root, u, impacts[u].distance)
    requires forall o :: o in report <==> o.id in impacts && impacts[o.id] == o
    ensures Found(report, v, d) <==> v != root && d <= 10 && Shortest(g, root, v, d)
  {
    RowsDistance(g, root, rows, 10, v, d);
    hide Reach, TypedById, SameRows;
    if v in impacts {
      assert impacts[v] in report;
      if Shortest(rows, root, v, d) {
        ShortestUnique(rows, root, v, d, impacts[v].distance);
      }
    }
  }
}
