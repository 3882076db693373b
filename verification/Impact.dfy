/** Impact analysis: a breadth-first search with path tracking over the rows of the lineage
    query, followed by a sort. */
module Impact {
  import opened TextOrder
  import opened Lineage

  datatype Item = Item(node: string, path: seq<string>)

  datatype ImpactObject = ImpactObject(
    id: string, name: string, kind: NodeType, objectName: string, sourceName: string,
    impactPath: string, distance: nat)

  // ---------------------------------------------------------------- adjacency and root name

  /** The rows leaving a node, whatever its type, in row order. */
  function EdgesFrom(rows: seq<Edge>, id: string): (es: seq<Edge>)
    ensures forall e :: e in es <==> e in rows && e.sourceId == id
  {
    if rows == [] then []
    else
      var init, last := rows[..|rows| - 1], rows[|rows| - 1];
      assert rows == init + [last];
      EdgesFrom(init, id) + (if last.sourceId == id then [last] else [])
  }

  function RootName(rows: seq<Edge>, root: string): string {
    if rows == [] then root
    else
      var last := rows[|rows| - 1];
      if last.sourceId == root && last.sourceName != "" then last.sourceName else RootName(rows[..|rows| - 1], root)
  }

  function AdjacentTo(adjacency: map<string, seq<Edge>>, id: string): seq<Edge> {
    if id in adjacency then adjacency[id] else []
  }

  method BuildAdjacency(rows: seq<Edge>, root: string) returns (adjacency: map<string, seq<Edge>>, rootName: string)
    ensures forall id: string :: AdjacentTo(adjacency, id) == EdgesFrom(rows, id)
    ensures rootName == RootName(rows, root)
  {
    adjacency, rootName := map[], root;
    for i := 0 to |rows|
      invariant forall id: string :: AdjacentTo(adjacency, id) == EdgesFrom(rows[..i], id)
      invariant rootName == RootName(rows[..i], root)
    {
      var edge := rows[i];
      assert rows[..i + 1][..i] == rows[..i];
      if edge.sourceId == root && edge.sourceName != "" {
        rootName := edge.sourceName;
      }
      adjacency := adjacency[edge.sourceId := AdjacentTo(adjacency, edge.sourceId) + [edge]];
    }
    assert rows[..|rows|] == rows;
  }

  // ---------------------------------------------------------------- the search, on values

  ghost function Nodes(queue: seq<Item>): set<string> {
    set i | i in queue :: i.node
  }

  /** Every recorded distance is the true one. */
  ghost predicate TrueDistances(rows: seq<Edge>, root: string, best: map<string, nat>) {
    root in best && forall v | v in best :: Shortest(rows, root, v, best[v])
  }

  /** All nodes up to a distance are known. */
  ghost predicate Complete(rows: seq<Edge>, root: string, best: map<string, nat>, d: nat) {
    forall v: string, c: nat | Shortest(rows, root, v, c) && c <= d :: v in best
  }

  /** The queue holds known nodes, each once, by distance, spanning at most one step. */
  ghost predicate Ordered(best: map<string, nat>, queue: seq<Item>, d: nat) {
    && (forall i | 0 <= i < |queue| :: queue[i].node in best && d <= best[queue[i].node] <= d + 1)
    && (forall i, j | 0 <= i < j < |queue| ::
          queue[i].node != queue[j].node && best[queue[i].node] <= best[queue[j].node])
  }

  ghost predicate Expanded(rows: seq<Edge>, best: map<string, nat>, v: string) {
    forall e | e in rows && e.sourceId == v :: e.targetId in best
  }

  ghost predicate AllExpandedBut(rows: seq<Edge>, best: map<string, nat>, open: set<string>) {
    forall v | v in best && v !in open :: Expanded(rows, best, v)
  }

  /** Between two rounds, with the head of the queue at distance `d`. */
  ghost predicate Searching(rows: seq<Edge>, root: string, best: map<string, nat>, queue: seq<Item>) {
    && TrueDistances(rows, root, best)
    && AllExpandedBut(rows, best, Nodes(queue))
    && (queue != [] ==>
          && queue[0].node in best && Ordered(best, queue, best[queue[0].node])
          && Complete(rows, root, best, best[queue[0].node]))
  }

  /** In the middle of a round: node `v` is taken and the edges `done` of it are followed. */
  ghost predicate Expanding(
    rows: seq<Edge>, root: string, best: map<string, nat>, queue: seq<Item>, v: string, followed: seq<Edge>)
  {
    && TrueDistances(rows, root, best) && v in best && v !in Nodes(queue)
    && AllExpandedBut(rows, best, Nodes(queue) + {v})
    && (forall e | e in followed :: e.targetId in best)
    && Ordered(best, queue, best[v]) && Complete(rows, root, best, best[v])
  }

  lemma SearchStart(rows: seq<Edge>, root: string, path: seq<string>)
    ensures Searching(rows, root, map[root := 0], [Item(root, path)])
  {
    var best: map<string, nat> := map[root := 0];
    assert Nodes([Item(root, path)]) == {root} by { assert Item(root, path) in [Item(root, path)]; }
    assert Shortest(rows, root, root, 0);
  }

  lemma NodesTail(queue: seq<Item>)
    requires queue != []
    ensures Nodes(queue) == Nodes(queue[1..]) + {queue[0].node}
  {
    assert queue == [queue[0]] + queue[1..];
    assert forall i | i in queue[1..] :: i in queue;
  }

  lemma OrderedTail(best: map<string, nat>, queue: seq<Item>, d: nat)
    requires queue != [] && Ordered(best, queue, d)
    ensures Ordered(best, queue[1..], d) && queue[0].node !in Nodes(queue[1..])
  {
    forall i | i in queue[1..] ensures i.node != queue[0].node {
      var n :| 0 <= n < |queue[1..]| && queue[1..][n] == i;
      assert queue[n + 1] == i;
    }
  }

  lemma Take(rows: seq<Edge>, root: string, best: map<string, nat>, queue: seq<Item>)
    requires Searching(rows, root, best, queue) && queue != []
    ensures Expanding(rows, root, best, queue[1..], queue[0].node, [])
  {
    hide Complete, TrueDistances, AllExpandedBut, Nodes, Ordered;
    NodesTail(queue);
    OrderedTail(best, queue, best[queue[0].node]);
  }

  /** The guard of the loop: a known target never has a worse distance recorded. */
  lemma KnownIsNear(
    rows: seq<Edge>, root: string, best: map<string, nat>, queue: seq<Item>, v: string, followed: seq<Edge>, e: Edge)
    requires Expanding(rows, root, best, queue, v, followed) && e in rows && e.sourceId == v
    ensures e.targetId in best ==> best[e.targetId] <= best[v] + 1
  {
    hide Ordered, Complete, AllExpandedBut, Nodes;
    assert v in Reach(rows, root, best[v]);
    assert e.targetId in Reach(rows, root, best[v] + 1);
  }

  lemma NewIsNext(
    rows: seq<Edge>, root: string, best: map<string, nat>, queue: seq<Item>, v: string, followed: seq<Edge>, e: Edge)
    requires Expanding(rows, root, best, queue, v, followed) && e in rows && e.sourceId == v && e.targetId !in best
    ensures Shortest(rows, root, e.targetId, best[v] + 1)
  {
    hide Ordered, AllExpandedBut, Nodes;
    assert v in Reach(rows, root, best[v]);
    assert e.targetId in Reach(rows, root, best[v] + 1);
    forall m: nat | m <= best[v] ensures e.targetId !in Reach(rows, root, m) {
      if e.targetId in Reach(rows, root, m) {
        ShortestExists(rows, root, e.targetId, m);
      }
    }
  }

  lemma FollowNew(
    rows: seq<Edge>, root: string, best: map<string, nat>, queue: seq<Item>, v: string, followed: seq<Edge>,
    e: Edge, path: seq<string>)
    requires Expanding(rows, root, best, queue, v, followed) && e in rows && e.sourceId == v && e.targetId !in best
    ensures Expanding(rows, root, best[e.targetId := best[v] + 1], queue + [Item(e.targetId, path)], v, followed + [e])
  {
    hide Shortest, Ordered, Nodes, AllExpandedBut, Reach;
    NewIsNext(rows, root, best, queue, v, followed, e);
    NodesAppend(queue, Item(e.targetId, path));
    OrderedAppend(best, queue, best[v], Item(e.targetId, path));
    ExpandedGrows(rows, best, Nodes(queue) + {v}, e.targetId, best[v] + 1);
    assert Nodes(queue) + {v} + {e.targetId} == Nodes(queue) + {e.targetId} + {v};
  }

  lemma NodesAppend(queue: seq<Item>, i: Item)
    ensures Nodes(queue + [i]) == Nodes(queue) + {i.node}
  {
    assert i in queue + [i] && forall j | j in queue :: j in queue + [i];
  }

  lemma OrderedAppend(best: map<string, nat>, queue: seq<Item>, d: nat, i: Item)
    requires Ordered(best, queue, d) && i.node !in best
    ensures Ordered(best[i.node := d + 1], queue + [i], d)
  {}

  lemma ExpandedGrows(rows: seq<Edge>, best: map<string, nat>, open: set<string>, w: string, d: nat)
    requires AllExpandedBut(rows, best, open)
    ensures AllExpandedBut(rows, best[w := d], open + {w})
  {}

  lemma FollowKnown(
    rows: seq<Edge>, root: string, best: map<string, nat>, queue: seq<Item>, v: string, followed: seq<Edge>, e: Edge)
    requires Expanding(rows, root, best, queue, v, followed) && e.targetId in best
    ensures Expanding(rows, root, best, queue, v, followed + [e])
  {
    hide TrueDistances, AllExpandedBut, Ordered, Complete, Nodes;
  }

  lemma Finish(rows: seq<Edge>, root: string, best: map<string, nat>, queue: seq<Item>, v: string, followed: seq<Edge>)
    requires Expanding(rows, root, best, queue, v, followed)
    requires forall e | e in rows && e.sourceId == v :: e in followed
    ensures Searching(rows, root, best, queue)
  {
    AllFollowed(rows, root, best, queue, v, followed);
    hide TrueDistances, AllExpandedBut, Complete, Nodes, Expanded;
    if queue != [] && best[queue[0].node] == best[v] + 1 {
      NextLayerComplete(rows, root, best, queue, v);
    }
    if queue != [] {
      NarrowerOrder(best, queue, best[v]);
    }
  }

  lemma AllFollowed(
    rows: seq<Edge>, root: string, best: map<string, nat>, queue: seq<Item>, v: string, followed: seq<Edge>)
    requires Expanding(rows, root, best, queue, v, followed)
    requires forall e | e in rows && e.sourceId == v :: e in followed
    ensures AllExpandedBut(rows, best, Nodes(queue))
  {
    hide TrueDistances, Ordered, Complete, Nodes;
  }

  lemma NarrowerOrder(best: map<string, nat>, queue: seq<Item>, d: nat)
    requires queue != [] && Ordered(best, queue, d)
    ensures Ordered(best, queue, best[queue[0].node])
  {}

  /** Once the queue has moved on by one, the next layer is fully known. */
  lemma NextLayerComplete(rows: seq<Edge>, root: string, best: map<string, nat>, queue: seq<Item>, v: string)
    requires TrueDistances(rows, root, best) && AllExpandedBut(rows, best, Nodes(queue)) && v in best
    requires queue != [] && Ordered(best, queue, best[v]) && Complete(rows, root, best, best[v])
    requires best[queue[0].node] == best[v] + 1
    ensures Complete(rows, root, best, best[v] + 1)
  {
    QueueIsLayer(best, queue, best[v]);
    hide Ordered, Reach, Nodes;
    forall u: string | Shortest(rows, root, u, best[v] + 1) ensures u in best {
      ShortestStep(rows, root, u, best[v] + 1);
      var e :| e in rows && e.targetId == u && Shortest(rows, root, e.sourceId, best[v]);
      assert e.sourceId in best;
      ShortestUnique(rows, root, e.sourceId, best[v], best[e.sourceId]);
      assert Expanded(rows, best, e.sourceId);
    }
    hide Shortest;
  }

  lemma QueueIsLayer(best: map<string, nat>, queue: seq<Item>, d: nat)
    requires queue != [] && Ordered(best, queue, d) && best[queue[0].node] == d + 1
    ensures forall n | n in Nodes(queue) :: n in best && best[n] == d + 1
  {
    forall i | i in queue ensures i.node in best && best[i.node] == d + 1 {
      var n :| 0 <= n < |queue| && queue[n] == i;
    }
  }

  /** With the queue empty, the search knows every node the rows reach. */
  lemma {:induction false} NothingMissed(rows: seq<Edge>, root: string, best: map<string, nat>, n: nat)
    requires Searching(rows, root, best, [])
    ensures Reach(rows, root, n) <= best.Keys
  {
    if n > 0 {
      NothingMissed(rows, root, best, n - 1);
      forall u | u in Reach(rows, root, n) ensures u in best {
        var e :| e in rows && e.sourceId in Reach(rows, root, n - 1) && e.targetId == u;
        assert Expanded(rows, best, e.sourceId);
      }
    }
  }

  // ---------------------------------------------------------------- paths

  function JoinPath(path: seq<string>): string {
    if path == [] then "" else if |path| == 1 then path[0] else path[0] + " -> " + JoinPath(path[1..])
  }

  /** A printed path grows by an arrow and a name. */
  lemma {:induction false} JoinPathGrows(path: seq<string>, name: string)
    ensures JoinPath([name]) == name
    ensures path != [] ==> JoinPath(path + [name]) == JoinPath(path) + " -> " + name
  {
    if |path| > 1 {
      JoinPathGrows(path[1..], name);
      assert (path + [name])[1..] == path[1..] + [name];
      var p, q := path[0], JoinPath(path[1..]);
      assert p + " -> " + (q + " -> " + name) == (p + " -> " + q) + " -> " + name;
    } else if |path| == 1 {
      assert (path + [name])[1..] == [name];
    }
  }

  /** The path names the nodes along a real walk of exactly `d` edges. */
  ghost predicate PathTo(rows: seq<Edge>, root: string, rootName: string, v: string, d: nat, path: seq<string>) {
    exists es :: IsWalk(rows, root, es, v) && |es| == d && path == [rootName] + TargetNames(es)
  }

  /** The report on a node: its distance, the attributes an edge arriving at it carries, and the
      joined names along a walk that ends with that edge. */
  ghost predicate Reports(rows: seq<Edge>, root: string, rootName: string, v: string, d: nat, o: ImpactObject) {
    exists es: seq<Edge>, e: Edge ::
      && IsWalk(rows, root, es, e.sourceId) && e in rows && e.targetId == v && |es| + 1 == d
      && o == ImpactObject(v, e.targetName, e.targetType, e.targetObjectName, e.targetSourceName,
                           JoinPath([rootName] + TargetNames(es + [e])), d)
  }

  lemma PathOneMore(rows: seq<Edge>, root: string, rootName: string, v: string, d: nat, path: seq<string>, e: Edge)
    requires PathTo(rows, root, rootName, v, d, path) && e in rows && e.sourceId == v
    ensures PathTo(rows, root, rootName, e.targetId, d + 1, path + [e.targetName])
    ensures Reports(rows, root, rootName, e.targetId, d + 1,
              ImpactObject(e.targetId, e.targetName, e.targetType, e.targetObjectName, e.targetSourceName,
                           JoinPath(path + [e.targetName]), d + 1))
  {
    var es :| IsWalk(rows, root, es, v) && |es| == d && path == [rootName] + TargetNames(es);
    WalkOneMore(rows, root, es, v, e);
    assert path + [e.targetName] == [rootName] + TargetNames(es + [e]);
  }

  // ---------------------------------------------------------------- the search

  /** Reports and queued paths are about real walks of the recorded length. */
  ghost predicate Tracked(
    rows: seq<Edge>, root: string, rootName: string, best: map<string, nat>,
    impacts: map<string, ImpactObject>, queue: seq<Item>)
  {
    && impacts.Keys == best.Keys - {root}
    && (forall v | v in impacts :: Reports(rows, root, rootName, v, best[v], impacts[v]))
    && (forall i | i in queue :: i.node in best && PathTo(rows, root, rootName, i.node, best[i.node], i.path))
  }

  lemma TrackedStart(rows: seq<Edge>, root: string, rootName: string)
    ensures Tracked(rows, root, rootName, map[root := 0], map[], [Item(root, [rootName])])
  {
    assert IsWalk(rows, root, [], root) && [rootName] + TargetNames([]) == [rootName];
  }

  lemma TrackedNew(
    rows: seq<Edge>, root: string, rootName: string, best: map<string, nat>, impacts: map<string, ImpactObject>,
    queue: seq<Item>, w: string, d: nat, path: seq<string>, o: ImpactObject)
    requires Tracked(rows, root, rootName, best, impacts, queue) && w !in best && root in best
    requires PathTo(rows, root, rootName, w, d, path) && Reports(rows, root, rootName, w, d, o)
    ensures Tracked(rows, root, rootName, best[w := d], impacts[w := o], queue + [Item(w, path)])
  {
    hide PathTo, Reports;
    forall i | i in queue + [Item(w, path)]
      ensures i.node in best[w := d] && PathTo(rows, root, rootName, i.node, best[w := d][i.node], i.path)
    {
      if i != Item(w, path) {
        assert i in queue;
      }
    }
  }

  lemma KnownNodesBounded(rows: seq<Edge>, root: string, best: map<string, nat>)
    requires TrueDistances(rows, root, best)
    ensures best.Keys <= {root} + set e | e in rows :: e.targetId
  {
    forall v | v in best ensures v in {root} + set e | e in rows :: e.targetId {
      assert v in Reach(rows, root, best[v]);
    }
  }

  lemma LeftOver(universe: set<string>, small: set<string>, large: set<string>)
    requires small <= large <= universe
    ensures |universe - large| <= |universe - small|
    ensures small != large ==> |universe - large| < |universe - small|
  {
    var rest := universe - large;
    assert universe - small == rest + (large - small);
    assert |universe - small| == |rest| + |large - small|;
  }

  lemma EdgesFromAre(rows: seq<Edge>, v: string)
    ensures forall e :: e in EdgesFrom(rows, v) <==> e in rows && e.sourceId == v
  {}

  /** One round: follows every edge of the node just taken. */
  method Expand(rows: seq<Edge>, root: string, rootName: string, edges: seq<Edge>, current: Item,
                best0: map<string, nat>, impacts0: map<string, ImpactObject>, queue0: seq<Item>)
    returns (best: map<string, nat>, impacts: map<string, ImpactObject>, queue: seq<Item>)
    requires Expanding(rows, root, best0, queue0, current.node, [])
    requires Tracked(rows, root, rootName, best0, impacts0, queue0)
    requires current.node in best0 && PathTo(rows, root, rootName, current.node, best0[current.node], current.path)
    requires forall e :: e in edges <==> e in rows && e.sourceId == current.node
    ensures Expanding(rows, root, best, queue, current.node, edges)
    ensures Tracked(rows, root, rootName, best, impacts, queue)
    ensures best0.Keys <= best.Keys && (best0.Keys == best.Keys ==> queue == queue0)
  {
    hide Expanding, Tracked, PathTo, Reports, JoinPath;
    best, impacts, queue := best0, impacts0, queue0;
    ExpandingKnows(rows, root, best, queue, current.node, []);
    hide TrueDistances;
    for k := 0 to |edges|
      invariant current.node in best && best[current.node] == best0[current.node] && root in best
      invariant Expanding(rows, root, best, queue, current.node, edges[..k])
      invariant Tracked(rows, root, rootName, best, impacts, queue)
      invariant best0.Keys <= best.Keys && (best0.Keys == best.Keys ==> queue == queue0)
    {
      var edge := edges[k];
      assert edge in edges && edges[..k + 1] == edges[..k] + [edge];
      var distance := best[current.node] + 1;
      KnownIsNear(rows, root, best, queue, current.node, edges[..k], edge);
      if edge.targetId in best && best[edge.targetId] <= distance {
        FollowKnown(rows, root, best, queue, current.node, edges[..k], edge);
      } else {
        var nextPath := current.path + [edge.targetName];
        var impact := ImpactObject(edge.targetId, edge.targetName, edge.targetType, edge.targetObjectName,
                                   edge.targetSourceName, JoinPath(nextPath), distance);
        FollowNew(rows, root, best, queue, current.node, edges[..k], edge, nextPath);
        PathOneMore(rows, root, rootName, current.node, best[current.node], current.path, edge);
        TrackedNew(rows, root, rootName, best, impacts, queue, edge.targetId, distance, nextPath, impact);
        best := best[edge.targetId := distance];
        impacts := impacts[edge.targetId := impact];
        queue := queue + [Item(edge.targetId, nextPath)];
      }
    }
    assert edges[..|edges|] == edges;
  }

  /** The breadth-first search: exactly the nodes other than the root that the rows reach, each
      with its shortest distance and a path of that length. */
  method Search(rows: seq<Edge>, root: string) returns (impacts: map<string, ImpactObject>)
    ensures forall v: string :: v in impacts <==> v != root && exists d: nat :: Shortest(rows, root, v, d)
    ensures forall v | v in impacts ::
      && impacts[v].id == v && Shortest(rows, root, v, impacts[v].distance)
      && Reports(rows, root, RootName(rows, root), v, impacts[v].distance, impacts[v])
  {
    hide Searching, Expanding, Tracked, RootName, EdgesFrom, AdjacentTo, Shortest, Reports, PathTo, TrueDistances;
    var adjacency, rootName := BuildAdjacency(rows, root);
    var best: map<string, nat> := map[root := 0];
    var queue := [Item(root, [rootName])];
    impacts := map[];
    SearchStart(rows, root, [rootName]);
    TrackedStart(rows, root, rootName);
    ghost var universe := {root} + set e | e in rows :: e.targetId;
    while queue != []
      invariant Searching(rows, root, best, queue) && Tracked(rows, root, rootName, best, impacts, queue)
      decreases |universe - best.Keys|, |queue|
    {
      ghost var best0 := best;
      var current := queue[0];
      Take(rows, root, best, queue);
      TrackedTail(rows, root, rootName, best, impacts, queue);
      queue := queue[1..];
      var edges := AdjacentTo(adjacency, current.node);
      EdgesFromAre(rows, current.node);
      best, impacts, queue := Expand(rows, root, rootName, edges, current, best, impacts, queue);
      ExpandingKnows(rows, root, best, queue, current.node, edges);
      Finish(rows, root, best, queue, current.node, edges);
      KnownNodesBounded(rows, root, best);
      LeftOver(universe, best0.Keys, best.Keys);
    }
    SearchDone(rows, root, rootName, best, impacts);
  }

  lemma TrackedTail(
    rows: seq<Edge>, root: string, rootName: string, best: map<string, nat>,
    impacts: map<string, ImpactObject>, queue: seq<Item>)
    requires Tracked(rows, root, rootName, best, impacts, queue) && queue != []
    ensures Tracked(rows, root, rootName, best, impacts, queue[1..])
    ensures queue[0].node in best && PathTo(rows, root, rootName, queue[0].node, best[queue[0].node], queue[0].path)
  {
    hide PathTo, Reports;
    assert queue[0] in queue && forall i | i in queue[1..] :: i in queue;
  }

  lemma ExpandingKnows(
    rows: seq<Edge>, root: string, best: map<string, nat>, queue: seq<Item>, v: string, followed: seq<Edge>)
    requires Expanding(rows, root, best, queue, v, followed)
    ensures v in best && TrueDistances(rows, root, best) && root in best
  {}

  lemma SearchDone(
    rows: seq<Edge>, root: string, rootName: string, best: map<string, nat>, impacts: map<string, ImpactObject>)
    requires Searching(rows, root, best, []) && Tracked(rows, root, rootName, best, impacts, [])
    ensures forall v: string :: v in impacts <==> v != root && exists d: nat :: Shortest(rows, root, v, d)
    ensures forall v | v in impacts ::
      && impacts[v].id == v && Shortest(rows, root, v, impacts[v].distance)
      && Reports(rows, root, rootName, v, impacts[v].distance, impacts[v])
  {
    forall v: string, d: nat | Shortest(rows, root, v, d) ensures v in best {
      NothingMissed(rows, root, best, d);
    }
    hide Shortest, Reach;
  }
}
