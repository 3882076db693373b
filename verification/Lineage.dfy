/** The lineage graph, the depth-bounded recursive query over it, and true distances. */
module Lineage {
  datatype NodeType = ColumnNode | ObjectNode

  datatype Edge = Edge(
    id: string, sourceId: string, targetId: string, sourceType: NodeType, targetType: NodeType,
    sourceName: string, targetName: string, targetObjectName: string, targetSourceName: string)

  // ---------------------------------------------------------------- the recursive query

  function Outgoing(g: seq<Edge>, id: string, t: NodeType): (es: seq<Edge>)
    ensures forall e :: e in es <==> e in g && e.sourceId == id && e.sourceType == t
  {
    if g == [] then []
    else (if g[0].sourceId == id && g[0].sourceType == t then [g[0]] else []) + Outgoing(g[1..], id, t)
  }

  /** One round of the recursive member: every row joined with the edges leaving its target. */
  function Join(rows: seq<Edge>, g: seq<Edge>): (es: seq<Edge>)
    ensures forall e :: e in es <==>
      e in g && exists l | l in rows :: l.targetId == e.sourceId && l.targetType == e.sourceType
  {
    if rows == [] then []
    else Outgoing(g, rows[0].targetId, rows[0].targetType) + Join(rows[1..], g)
  }

  /** The rows the query produces at depth `d`, one per walk. */
  function Level(g: seq<Edge>, root: string, d: nat): seq<Edge>
    requires d >= 1
  {
    if d == 1 then Outgoing(g, root, ColumnNode) else Join(Level(g, root, d - 1), g)
  }

  function LevelsUpTo(g: seq<Edge>, root: string, d: nat): seq<Edge> {
    if d == 0 then [] else LevelsUpTo(g, root, d - 1) + Level(g, root, d)
  }

  function LineageDownward(g: seq<Edge>, root: string, depth: int): seq<Edge> {
    LevelsUpTo(g, root, if depth <= 0 then 10 else depth)
  }

  // ---------------------------------------------------------------- walks and distances

  /** The nodes at the end of a walk of exactly `n` edges from the root. */
  ghost function Reach(g: seq<Edge>, root: string, n: nat): set<string> {
    if n == 0 then {root}
    else set e | e in g && e.sourceId in Reach(g, root, n - 1) :: e.targetId
  }

  ghost predicate Shortest(g: seq<Edge>, root: string, v: string, d: nat) {
    v in Reach(g, root, d) && forall m: nat | m < d :: v !in Reach(g, root, m)
  }

  /** Identifiers determine node types as far as the query can tell: the root is a column, and
      an edge leaves a node under the type under which edges arrive. */
  ghost predicate TypedById(g: seq<Edge>, root: string) {
    && (forall e | e in g && e.sourceId == root :: e.sourceType == ColumnNode)
    && (forall e, f | e in g && f in g && e.targetId == f.sourceId :: e.targetType == f.sourceType)
  }

  lemma {:induction false} LevelIsReach(g: seq<Edge>, root: string, d: nat)
    requires d >= 1 && TypedById(g, root)
    ensures forall e :: e in Level(g, root, d) <==> e in g && e.sourceId in Reach(g, root, d - 1)
  {
    if d > 1 {
      LevelIsReach(g, root, d - 1);
      forall e | e in g && e.sourceId in Reach(g, root, d - 1) ensures e in Level(g, root, d) {
        var l :| l in g && l.sourceId in Reach(g, root, d - 2) && l.targetId == e.sourceId;
        assert l in Level(g, root, d - 1);
      }
    }
  }

  lemma {:induction false} ReachMonotone(g: seq<Edge>, h: seq<Edge>, root: string, n: nat)
    requires forall e | e in g :: e in h
    ensures Reach(g, root, n) <= Reach(h, root, n)
  {
    if n > 0 {
      ReachMonotone(g, h, root, n - 1);
    }
  }

  /** Some walk of fewer than `n` edges ends at the node. */
  ghost predicate Within(g: seq<Edge>, root: string, n: nat, id: string) {
    exists m: nat :: m < n && id in Reach(g, root, m)
  }

  lemma WithinNext(g: seq<Edge>, root: string, n: nat, id: string)
    ensures Within(g, root, n + 1, id) <==> Within(g, root, n, id) || id in Reach(g, root, n)
  {
    hide Reach;
  }

  /** The rows up to a depth are the edges of the graph whose source is nearer than that. */
  lemma {:induction false} LevelsAreWithin(g: seq<Edge>, root: string, depth: nat)
    requires TypedById(g, root)
    ensures forall e :: e in LevelsUpTo(g, root, depth) <==> e in g && Within(g, root, depth, e.sourceId)
  {
    hide Level, Reach, TypedById, Within;
    if depth > 0 {
      LevelsAreWithin(g, root, depth - 1);
      LevelIsReach(g, root, depth);
      forall e ensures e in LevelsUpTo(g, root, depth) <==> e in g && Within(g, root, depth, e.sourceId) {
        WithinNext(g, root, depth - 1, e.sourceId);
      }
    } else {
      forall e: Edge ensures !Within(g, root, 0, e.sourceId) {
        NotWithinZero(g, root, e.sourceId);
      }
    }
  }

  lemma NotWithinZero(g: seq<Edge>, root: string, id: string)
    ensures !Within(g, root, 0, id)
  {}

  /** A list of edges holding the same rows as the query, in any order. */
  ghost predicate SameRows(rows: seq<Edge>, g: seq<Edge>, root: string, depth: nat) {
    forall e :: e in rows <==> e in LevelsUpTo(g, root, depth)
  }

  lemma ReachNext(g: seq<Edge>, h: seq<Edge>, root: string, n: nat)
    requires Reach(g, root, n) == Reach(h, root, n)
    requires forall e: Edge | e.sourceId in Reach(g, root, n) :: e in g <==> e in h
    ensures Reach(g, root, n + 1) == Reach(h, root, n + 1)
  {}

  /** The query's rows reach, within its depth, exactly what the whole graph reaches. */
  lemma {:induction false} RowsReach(g: seq<Edge>, root: string, rows: seq<Edge>, depth: nat, n: nat)
    requires TypedById(g, root) && n <= depth && SameRows(rows, g, root, depth)
    ensures Reach(rows, root, n) == Reach(g, root, n)
  {
    hide Reach, LevelsUpTo, TypedById, SameRows;
    if n > 0 {
      RowsReach(g, root, rows, depth, n - 1);
      forall e: Edge | e.sourceId in Reach(g, root, n - 1) ensures e in rows <==> e in g {
        RowHere(g, root, rows, depth, n - 1, e);
      }
      ReachNext(rows, g, root, n - 1);
    } else {
      ReachStart(rows, root);
      ReachStart(g, root);
    }
  }

  lemma ReachStart(g: seq<Edge>, root: string)
    ensures Reach(g, root, 0) == {root}
  {}

  lemma RowHere(g: seq<Edge>, root: string, rows: seq<Edge>, depth: nat, m: nat, e: Edge)
    requires TypedById(g, root) && SameRows(rows, g, root, depth) && m < depth && e.sourceId in Reach(g, root, m)
    ensures e in rows <==> e in g
  {
    hide LevelsUpTo, Reach, TypedById;
    LevelsAreWithin(g, root, depth);
    assert Within(g, root, depth, e.sourceId);
  }

  /** Distances in the query's rows are the true distances of the whole graph up to the depth. */
  lemma RowsDistance(g: seq<Edge>, root: string, rows: seq<Edge>, depth: nat, v: string, d: nat)
    requires TypedById(g, root) && SameRows(rows, g, root, depth)
    ensures Shortest(rows, root, v, d) <==> d <= depth && Shortest(g, root, v, d)
  {
    hide LevelsUpTo, TypedById, SameRows, Reach;
    forall m: nat | m <= depth ensures Reach(rows, root, m) == Reach(g, root, m) {
      RowsReach(g, root, rows, depth, m);
    }
    if d > depth && v in Reach(rows, root, d) {
      NothingFarther(g, root, rows, depth, v, d);
    }
  }

  /** Whatever the rows reach at all, they reach within the depth. */
  lemma NothingFarther(g: seq<Edge>, root: string, rows: seq<Edge>, depth: nat, v: string, d: nat)
    requires TypedById(g, root) && SameRows(rows, g, root, depth)
    requires v in Reach(rows, root, d) && d > 0
    ensures exists m: nat :: m <= depth && v in Reach(rows, root, m)
  {
    hide LevelsUpTo, TypedById;
    var e :| e in rows && e.sourceId in Reach(rows, root, d - 1) && e.targetId == v;
    LevelsAreWithin(g, root, depth);
    var m: nat :| m < depth && e.sourceId in Reach(g, root, m);
    RowsReach(g, root, rows, depth, m);
    assert v in Reach(rows, root, m + 1);
  }

  lemma ShortestUnique(g: seq<Edge>, root: string, v: string, c: nat, d: nat)
    requires Shortest(g, root, v, c) && Shortest(g, root, v, d)
    ensures c == d
  {}

  lemma ShortestExists(g: seq<Edge>, root: string, v: string, n: nat)
    requires v in Reach(g, root, n)
    ensures exists d: nat :: d <= n && Shortest(g, root, v, d)
  {
    if m: nat :| m < n && v in Reach(g, root, m) {
      ShortestExists(g, root, v, m);
    } else {
      assert Shortest(g, root, v, n);
    }
  }

  /** A node at distance d > 0 has a predecessor at distance d - 1. */
  lemma ShortestStep(g: seq<Edge>, root: string, v: string, d: nat)
    requires Shortest(g, root, v, d) && d > 0
    ensures exists e | e in g :: e.targetId == v && Shortest(g, root, e.sourceId, d - 1)
  {
    var e :| e in g && e.sourceId in Reach(g, root, d - 1) && e.targetId == v;
    forall m: nat | m < d - 1 ensures e.sourceId !in Reach(g, root, m) {
      assert v !in Reach(g, root, m + 1);
    }
  }

  // ---------------------------------------------------------------- walks as edge lists

  ghost predicate IsWalk(g: seq<Edge>, root: string, es: seq<Edge>, v: string) {
    if es == [] then v == root
    else var last := es[|es| - 1];
      last in g && last.targetId == v && IsWalk(g, root, es[..|es| - 1], last.sourceId)
  }

  ghost function TargetNames(es: seq<Edge>): seq<string> {
    seq(|es|, i requires 0 <= i < |es| => es[i].targetName)
  }

  lemma WalkOneMore(g: seq<Edge>, root: string, es: seq<Edge>, v: string, e: Edge)
    requires IsWalk(g, root, es, v) && e in g && e.sourceId == v
    ensures IsWalk(g, root, es + [e], e.targetId) && TargetNames(es + [e]) == TargetNames(es) + [e.targetName]
  {
    assert (es + [e])[..|es|] == es;
  }

  ghost predicate WalkTo(g: seq<Edge>, root: string, v: string, n: nat) {
    exists es :: |es| == n && IsWalk(g, root, es, v)
  }

  /** A node is reached by exactly `n` edges when a walk of that many edges ends at it. */
  lemma {:induction false} ReachedByWalk(g: seq<Edge>, root: string, v: string, n: nat)
    ensures v in Reach(g, root, n) <==> WalkTo(g, root, v, n)
    decreases n
  {
    if n == 0 {
      assert v == root ==> IsWalk(g, root, [], v);
    } else {
      hide WalkTo;
      if v in Reach(g, root, n) {
        var e :| e in g && e.sourceId in Reach(g, root, n - 1) && e.targetId == v;
        ReachedByWalk(g, root, e.sourceId, n - 1);
        WalkLonger(g, root, n, e);
      }
      if WalkTo(g, root, v, n) {
        var e := WalkShorter(g, root, v, n);
        ReachedByWalk(g, root, e.sourceId, n - 1);
      }
    }
  }

  lemma WalkLonger(g: seq<Edge>, root: string, n: nat, e: Edge)
    requires n > 0 && e in g && WalkTo(g, root, e.sourceId, n - 1)
    ensures WalkTo(g, root, e.targetId, n)
  {
    var es :| |es| == n - 1 && IsWalk(g, root, es, e.sourceId);
    WalkOneMore(g, root, es, e.sourceId, e);
    assert |es + [e]| == n;
  }

  lemma WalkShorter(g: seq<Edge>, root: string, v: string, n: nat) returns (e: Edge)
    requires n > 0 && WalkTo(g, root, v, n)
    ensures e in g && e.targetId == v && WalkTo(g, root, e.sourceId, n - 1)
  {
    var es :| |es| == n && IsWalk(g, root, es, v);
    e := es[n - 1];
    assert |es[..n - 1]| == n - 1 && IsWalk(g, root, es[..n - 1], e.sourceId);
  }

  /** The downward query answers distances up to its depth, and up to ten without one. */
  lemma DownwardDistance(g: seq<Edge>, root: string, depth: int, v: string, d: nat)
    requires TypedById(g, root)
    ensures Shortest(LineageDownward(g, root, depth), root, v, d) <==>
            d <= (if depth > 0 then depth else 10) && Shortest(g, root, v, d)
  {
    hide TypedById, LevelsUpTo, Shortest;
    RowsDistance(g, root, LineageDownward(g, root, depth), if depth > 0 then depth else 10, v, d);
  }
}
