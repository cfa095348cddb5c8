/** The router's maximum-flow estimate: shortest augmenting paths of bounded length on a
    residual graph with reverse edges. */
module MaxFlow {
  import opened Options
  import opened Lists
  import opened Graphs
  import opened Ledger
  import opened NetworkFlow
  import H = HopReach

  /** A queued path with its narrowest capacity; the path without edges has no bound. */
  datatype Probe = Probe(path: seq<Node>, flow: Option<int>)

  ghost predicate Narrowest(res: Network, path: seq<Node>, flow: Option<int>)
  {
    && (flow.None? <==> |path| == 1)
    && (flow.Some? ==> Roomy(res, path, flow.value) && exists i :: 0 <= i < |path| - 1 && Get(res, (path[i], path[i + 1])) == flow.value)
  }

  /** A simple path of the residual graph from `s`, with its bottleneck. */
  ghost predicate Probes(res: Network, s: Node, p: Probe)
  {
    IsPath(res.Keys, p.path) && p.path[0] == s && Distinct(p.path) && Narrowest(res, p.path, p.flow)
  }

  function Last(p: Probe): Node
  {
    if p.path == [] then "" else p.path[|p.path| - 1]
  }

  /** The queue as nodes and depths. */
  ghost function Plain(queue: seq<Probe>): (q: seq<(Node, int)>)
    ensures |q| == |queue| && forall i :: 0 <= i < |queue| ==> q[i] == (Last(queue[i]), |queue[i].path| - 1)
  {
    seq(|queue|, i requires 0 <= i < |queue| => (Last(queue[i]), |queue[i].path| - 1))
  }

  function Extended(res: Network, p: Probe, v: Node): Probe
  {
    var cap := Get(res, (Last(p), v));
    Probe(p.path + [v], Some(if p.flow.Some? && p.flow.value <= cap then p.flow.value else cap))
  }

  lemma PathGrows(e: set<Edge>, p: seq<Node>, v: Node)
    requires IsPath(e, p) && Distinct(p) && (p[|p| - 1], v) in e && v !in p
    ensures IsPath(e, p + [v]) && Distinct(p + [v])
  {
  }

  lemma RoomyGrows(res: Network, p: seq<Node>, v: Node, x: int)
    requires p != [] && Roomy(res, p, x) && Get(res, (p[|p| - 1], v)) >= x
    ensures Roomy(res, p + [v], x)
  {
    var r := p + [v];
    forall i | 0 <= i < |r| - 1 ensures Get(res, (r[i], r[i + 1])) >= x {
      if i < |p| - 1 { assert Get(res, (p[i], p[i + 1])) >= x; }
    }
  }

  lemma NarrowAt(res: Network, path: seq<Node>, flow: int, i: nat)
    requires i + 1 < |path| && Roomy(res, path, flow) && Get(res, (path[i], path[i + 1])) == flow
    ensures Narrowest(res, path, Some(flow))
  {
  }

  lemma NarrowestGrows(res: Network, p: Probe, v: Node)
    requires p.path != [] && Narrowest(res, p.path, p.flow)
    ensures Narrowest(res, Extended(res, p, v).path, Extended(res, p, v).flow)
  {
    var cap, r, n := Get(res, (Last(p), v)), Extended(res, p, v), |p.path|;
    assert Last(p) == p.path[n - 1] && r.path == p.path + [v];
    if p.flow.Some? && p.flow.value <= cap {
      var i :| 0 <= i < n - 1 && Get(res, (p.path[i], p.path[i + 1])) == p.flow.value;
      assert Roomy(res, p.path, p.flow.value);
      hide Roomy, Get, Last, Narrowest;
      RoomyGrows(res, p.path, v, p.flow.value);
      NarrowAt(res, p.path + [v], p.flow.value, i);
    } else {
      RoomyShrinks(res, p, cap);
      hide Roomy, Get, Last, Narrowest;
      RoomyGrows(res, p.path, v, cap);
      NarrowAt(res, p.path + [v], cap, n - 1);
    }
  }

  lemma RoomyShrinks(res: Network, p: Probe, x: int)
    requires p.path != [] && Narrowest(res, p.path, p.flow) && (p.flow.None? || p.flow.value >= x)
    ensures Roomy(res, p.path, x)
  {
  }

  lemma ExtendedProbes(res: Network, s: Node, p: Probe, v: Node)
    requires Probes(res, s, p) && (Last(p), v) in res && v !in p.path
    ensures Probes(res, s, Extended(res, p, v))
  {
    assert p.path != [];
    hide IsPath, Distinct, Narrowest;
    PathGrows(res.Keys, p.path, v);
    NarrowestGrows(res, p, v);
  }

  /** What the queue keeps: every entry is a probe over seen nodes within the hop limit. */
  ghost predicate QueueGood(res: Network, s: Node, maxHops: int, queue: seq<Probe>, seen: set<Node>)
  {
    forall p :: p in queue ==> Probes(res, s, p) && (forall y :: y in p.path ==> y in seen) && (|p.path| == 1 || |p.path| - 1 <= maxHops)
  }

  ghost predicate Waiting(queue: seq<Probe>, t: Node)
  {
    exists p :: p in queue && Last(p) == t
  }

  lemma PushProbe(res: Network, s: Node, maxHops: int, queue: seq<Probe>, seen: set<Node>, top: Probe, v: Node)
    requires QueueGood(res, s, maxHops, queue, seen) && Probes(res, s, top) && (forall y :: y in top.path ==> y in seen)
    requires (Last(top), v) in res && v !in seen && |top.path| - 1 < maxHops
    ensures QueueGood(res, s, maxHops, queue + [Extended(res, top, v)], seen + {v})
    ensures Plain(queue + [Extended(res, top, v)]) == Plain(queue) + [(v, |top.path| - 1 + 1)]
  {
    ExtendedProbes(res, s, top, v);
    hide Probes;
    assert Last(Extended(res, top, v)) == v;
  }

  /** One node's turn: every neighbour not seen before is queued with the path to it. */
  method Expand(res: Network, s: Node, ghost t: Node, ghost maxHops: int, top: Probe, q0: seq<Probe>, seen0: set<Node>,
                ghost dep0: map<Node, nat>, ghost universe: set<Node>)
    returns (queue: seq<Probe>, seen: set<Node>, ghost dep: map<Node, nat>)
    requires Probes(res, s, top) && (forall y :: y in top.path ==> y in seen0) && |top.path| - 1 < maxHops && Last(top) != t
    requires QueueGood(res, s, maxHops, q0, seen0) && seen0 == dep0.Keys && seen0 <= universe && Endpoints(res.Keys) <= universe
    requires Last(top) in dep0 && dep0[Last(top)] == |top.path| - 1
    requires H.Layered(res.Keys, s, maxHops, Plain(q0), H.QueueNodes(Plain(q0)) + {Last(top)}, dep0, |top.path| - 1)
    requires t in seen0 ==> Waiting(q0, t)
    ensures QueueGood(res, s, maxHops, queue, seen) && seen == dep.Keys && seen0 <= seen <= universe
    ensures H.Layered(res.Keys, s, maxHops, Plain(queue), H.QueueNodes(Plain(queue)), dep, |top.path| - 1)
    ensures t in seen ==> Waiting(queue, t)
    ensures seen == seen0 ==> |queue| == |q0|
  {
    hide H.Layered, H.QueueNodes, Plain, Probes, QueueGood, Waiting;
    queue, seen, dep := q0, seen0, dep0;
    var cur, depth := Last(top), |top.path| - 1;
    var nbrs := set e | e in res && e.0 == cur :: e.1;
    var rest := nbrs;
    while rest != {}
      invariant rest <= nbrs && seen == dep.Keys && seen0 <= seen <= universe && (seen == seen0 ==> |queue| == |q0|)
      invariant QueueGood(res, s, maxHops, queue, seen) && cur in dep && dep[cur] == depth
      invariant H.Layered(res.Keys, s, maxHops, Plain(queue), H.QueueNodes(Plain(queue)) + {cur}, dep, depth)
      invariant t in seen ==> Waiting(queue, t)
      invariant forall v :: v in nbrs - rest ==> v in dep && dep[v] <= depth + 1
      decreases rest
    {
      var v :| v in rest;
      assert (cur, v) in res;
      assert Last(Extended(res, top, v)) == v;
      if v in seen {
        H.SeenWithin(res.Keys, s, maxHops, Plain(queue), H.QueueNodes(Plain(queue)) + {cur}, dep, depth, v);
      } else {
        assert v in Endpoints(res.Keys);
        PushProbe(res, s, maxHops, queue, seen, top, v);
        H.DiscoverInQueue(res.Keys, s, maxHops, Plain(queue), dep, cur, v);
        WaitingGrows(queue, Extended(res, top, v), t);
        queue := queue + [Extended(res, top, v)];
        seen := seen + {v};
        dep := dep[v := depth + 1];
      }
      rest := rest - {v};
    }
    AllNeighbours(res, dep, cur, nbrs);
    H.FinishNode(res.Keys, s, maxHops, Plain(queue), H.QueueNodes(Plain(queue)), dep, depth, cur);
  }

  lemma WaitingGrows(queue: seq<Probe>, p: Probe, t: Node)
    ensures Waiting(queue, t) ==> Waiting(queue + [p], t)
    ensures Last(p) == t ==> Waiting(queue + [p], t)
  {
    assert p in queue + [p];
    if Waiting(queue, t) {
      var w :| w in queue && Last(w) == t;
      assert w in queue + [p];
    }
  }

  lemma AllNeighbours(res: Network, dep: map<Node, nat>, cur: Node, nbrs: set<Node>)
    requires nbrs == (set e | e in res && e.0 == cur :: e.1) && cur in dep
    requires forall v :: v in nbrs ==> v in dep && dep[v] <= dep[cur] + 1
    ensures H.Expanded(res.Keys, dep, cur)
  {
    forall w | (cur, w) in res.Keys ensures w in dep && dep[w] <= dep[cur] + 1 {
      assert (cur, w).1 in nbrs;
    }
  }

  /** What the search keeps between turns. */
  ghost predicate Searching(res: Network, s: Node, t: Node, maxHops: int, queue: seq<Probe>, seen: set<Node>, dep: map<Node, nat>, d: int, universe: set<Node>)
  {
    && seen == dep.Keys && seen <= universe
    && QueueGood(res, s, maxHops, queue, seen)
    && H.Layered(res.Keys, s, maxHops, Plain(queue), H.QueueNodes(Plain(queue)), dep, d)
    && (t in seen ==> Waiting(queue, t))
  }

  lemma SearchStarts(res: Network, s: Node, t: Node, maxHops: int, universe: set<Node>)
    requires s in universe
    ensures Searching(res, s, t, maxHops, [Probe([s], None)], {s}, map[s := 0], 0, universe)
  {
    var queue := [Probe([s], None)];
    H.StartLayer(res.Keys, s, maxHops);
    assert Plain(queue) == [(s, 0)];
    assert queue[0] in queue && Last(queue[0]) == s;
  }

  lemma PopLayer(res: Network, s: Node, maxHops: int, queue: seq<Probe>, dep: map<Node, nat>, d: int)
    requires H.Layered(res.Keys, s, maxHops, Plain(queue), H.QueueNodes(Plain(queue)), dep, d) && queue != []
    ensures Last(queue[0]) in dep && dep[Last(queue[0])] == |queue[0].path| - 1
    ensures H.Layered(res.Keys, s, maxHops, Plain(queue[1..]), H.QueueNodes(Plain(queue[1..])) + {Last(queue[0])}, dep, |queue[0].path| - 1)
  {
    hide H.Layered, H.QueueNodes;
    H.PopFront(res.Keys, s, maxHops, Plain(queue), dep, d);
    assert Plain(queue)[1..] == Plain(queue[1..]);
  }

  lemma PopWaiting(queue: seq<Probe>, t: Node)
    requires Waiting(queue, t) && queue != [] && Last(queue[0]) != t
    ensures Waiting(queue[1..], t)
  {
    var w :| w in queue && Last(w) == t;
    assert queue == [queue[0]] + queue[1..];
    assert w in queue[1..];
  }

  lemma PopGood(res: Network, s: Node, maxHops: int, queue: seq<Probe>, seen: set<Node>)
    requires QueueGood(res, s, maxHops, queue, seen) && queue != []
    ensures QueueGood(res, s, maxHops, queue[1..], seen) && Probes(res, s, queue[0])
    ensures (forall y :: y in queue[0].path ==> y in seen) && (|queue[0].path| == 1 || |queue[0].path| - 1 <= maxHops)
  {
    hide Probes;
    assert queue[0] in queue;
    assert forall p :: p in queue[1..] ==> p in queue;
  }

  /** The first entry is a probe whose node is due, and the rest of the queue waits. */
  lemma SearchPops(res: Network, s: Node, t: Node, maxHops: int, queue: seq<Probe>, seen: set<Node>, dep: map<Node, nat>, d: int, universe: set<Node>)
    requires Searching(res, s, t, maxHops, queue, seen, dep, d, universe) && queue != []
    ensures var top := queue[0];
            && Probes(res, s, top) && (forall y :: y in top.path ==> y in seen) && (|top.path| == 1 || |top.path| - 1 <= maxHops)
            && Last(top) in dep && dep[Last(top)] == |top.path| - 1
            && QueueGood(res, s, maxHops, queue[1..], seen)
            && H.Layered(res.Keys, s, maxHops, Plain(queue[1..]), H.QueueNodes(Plain(queue[1..])) + {Last(top)}, dep, |top.path| - 1)
            && (Last(top) != t && t in seen ==> Waiting(queue[1..], t))
  {
    hide H.Layered, H.QueueNodes, Probes, QueueGood, Waiting, Plain;
    PopGood(res, s, maxHops, queue, seen);
    PopLayer(res, s, maxHops, queue, dep, d);
    if t in seen && Last(queue[0]) != t { PopWaiting(queue, t); }
  }

  lemma SelfProbe(res: Network, s: Node)
    ensures Probes(res, s, Probe([s], None)) && Last(Probe([s], None)) == s
  {
  }

  /** A shortest augmenting path of at most `maxHops` edges with its bottleneck, and none only if
      there is none. From a node to itself it is the path without edges, whatever the graph. */
  method Search(res: Network, s: Node, t: Node, maxHops: int) returns (r: Option<Probe>)
    ensures r.Some? ==> Probes(res, s, r.value) && Last(r.value) == t && (s == t || H.Within(res.Keys, s, t, maxHops))
    ensures r.None? ==> s != t && !H.Within(res.Keys, s, t, maxHops)
    ensures s == t ==> r == Some(Probe([s], None))
  {
    hide *;
    SelfProbe(res, s);
    if s == t { return Some(Probe([s], None)); }
    r := SearchOn(res, s, t, maxHops);
  }

  method SearchOn(res: Network, s: Node, t: Node, maxHops: int) returns (r: Option<Probe>)
    requires s != t
    ensures r.Some? ==> Probes(res, s, r.value) && Last(r.value) == t && H.Within(res.Keys, s, t, maxHops)
    ensures r.None? ==> !H.Within(res.Keys, s, t, maxHops)
  {
    hide *;
    var queue := [Probe([s], None)];
    var seen := {s};
    ghost var dep: map<Node, nat> := map[s := 0];
    ghost var d := 0;
    ghost var universe := Endpoints(res.Keys) + {s};
    SearchStarts(res, s, t, maxHops, universe);
    while queue != []
      invariant Searching(res, s, t, maxHops, queue, seen, dep, d, universe)
      decreases universe - seen, |queue|
    {
      var top := queue[0];
      if Last(top) == t {
        FoundWithin(res, s, t, maxHops, queue, seen, dep, d, universe);
        return Some(top);
      }
      queue, seen, dep := Turn(res, s, t, maxHops, queue, seen, dep, d, universe);
      d := |top.path| - 1;
    }
    NothingFound(res, s, t, maxHops, seen, dep, d, universe);
    return None;
  }

  /** Takes the first path off the queue and expands it unless it is too long. */
  method Turn(res: Network, s: Node, ghost t: Node, maxHops: int, q0: seq<Probe>, seen0: set<Node>, ghost dep0: map<Node, nat>, ghost d: int, ghost universe: set<Node>)
    returns (queue: seq<Probe>, seen: set<Node>, ghost dep: map<Node, nat>)
    requires Searching(res, s, t, maxHops, q0, seen0, dep0, d, universe) && q0 != [] && Last(q0[0]) != t && Endpoints(res.Keys) <= universe
    ensures Searching(res, s, t, maxHops, queue, seen, dep, |q0[0].path| - 1, universe)
    ensures universe - seen < universe - seen0 || (seen == seen0 && |queue| < |q0|)
  {
    hide *;
    var top := q0[0];
    SearchPops(res, s, t, maxHops, q0, seen0, dep0, d, universe);
    SearchBooks(res, s, t, maxHops, q0, seen0, dep0, d, universe);
    queue, seen, dep := q0[1..], seen0, dep0;
    if |top.path| > maxHops {
      H.FinishNode(res.Keys, s, maxHops, Plain(queue), H.QueueNodes(Plain(queue)), dep, |top.path| - 1, Last(top));
    } else {
      queue, seen, dep := Expand(res, s, t, maxHops, top, queue, seen, dep, universe);
    }
    SearchGoesOn(res, s, t, maxHops, queue, seen, dep, |top.path| - 1, universe);
    SeenGrows(seen0, seen, universe);
  }

  lemma SeenGrows(a: set<Node>, b: set<Node>, universe: set<Node>)
    requires a <= b <= universe
    ensures a == b || universe - b < universe - a
  {
    if a != b {
      var x :| x in b && x !in a;
      assert x in universe - a;
    }
  }

  lemma SearchBooks(res: Network, s: Node, t: Node, maxHops: int, queue: seq<Probe>, seen: set<Node>, dep: map<Node, nat>, d: int, universe: set<Node>)
    requires Searching(res, s, t, maxHops, queue, seen, dep, d, universe)
    ensures seen == dep.Keys && seen <= universe
  {
  }

  lemma SearchGoesOn(res: Network, s: Node, t: Node, maxHops: int, queue: seq<Probe>, seen: set<Node>, dep: map<Node, nat>, d: int, universe: set<Node>)
    requires seen == dep.Keys && seen <= universe && QueueGood(res, s, maxHops, queue, seen)
    requires H.Layered(res.Keys, s, maxHops, Plain(queue), H.QueueNodes(Plain(queue)), dep, d) && (t in seen ==> Waiting(queue, t))
    ensures Searching(res, s, t, maxHops, queue, seen, dep, d, universe)
  {
  }

  lemma FoundWithin(res: Network, s: Node, t: Node, maxHops: int, queue: seq<Probe>, seen: set<Node>, dep: map<Node, nat>, d: int, universe: set<Node>)
    requires Searching(res, s, t, maxHops, queue, seen, dep, d, universe) && queue != [] && Last(queue[0]) == t && s != t
    ensures Probes(res, s, queue[0]) && H.Within(res.Keys, s, t, maxHops)
  {
    hide H.Layered, H.QueueNodes, Plain;
    PopGood(res, s, maxHops, queue, seen);
    assert IsPathFrom(res.Keys, queue[0].path, s, t);
  }

  lemma NothingFound(res: Network, s: Node, t: Node, maxHops: int, seen: set<Node>, dep: map<Node, nat>, d: int, universe: set<Node>)
    requires Searching(res, s, t, maxHops, [], seen, dep, d, universe)
    ensures !H.Within(res.Keys, s, t, maxHops)
  {
    assert Plain([]) == [];
    assert t !in dep;
    H.NotWithin(res.Keys, s, t, maxHops, [], dep, d);
  }

  // ----- the rounds -----

  /** The answer, or no answer at all: between a node and itself every round finds the path
      without edges again and changes nothing, so the loop never ends. */
  datatype Answer = Amount(value: int) | Endless

  ghost function NodesOf(g: Network, s: Node, t: Node): set<Node>
  {
    Endpoints(g.Keys) + {s, t}
  }

  function TotalFlow(paths: seq<(seq<Node>, int)>): int
  {
    if paths == [] then 0 else TotalFlow(paths[..|paths| - 1]) + paths[|paths| - 1].1
  }

  /** A round between a node and itself leaves the residual graph as it is. */
  lemma SelfRoundRepeats(res: Network, s: Node, x: int)
    ensures PushPath(res, [s], x) == res
  {
  }

  /** The residual update, hop by hop. */
  method PushAlong(res0: Network, path: seq<Node>, x: int) returns (res: Network)
    ensures res == PushPath(res0, path, x)
  {
    res := res0;
    assert path[0..] == path;
    for i := 0 to if |path| > 0 then |path| - 1 else 0
      invariant PushPath(res, path[i..], x) == PushPath(res0, path, x)
    {
      assert path[i..][1..] == path[i + 1..];
      res := Push(res, path[i], path[i + 1], x);
    }
  }

  lemma ResidualInside(g: Network, res: Network, nodes: set<Node>)
    requires IsResidual(g, res) && Endpoints(g.Keys) <= nodes
    ensures Endpoints(res.Keys) <= nodes
  {
    forall e | e in res ensures e.0 in nodes && e.1 in nodes {
      assert Get(res, (e.0, e.1)) + Get(res, (e.1, e.0)) == Get(g, (e.0, e.1)) + Get(g, (e.1, e.0));
      assert Get(res, (e.1, e.0)) >= 0;
      assert (e.0, e.1) in g.Keys || (e.1, e.0) in g.Keys;
    }
  }

  /** One round keeps the residual graph a flow's, larger by the bottleneck. */
  lemma RoundCarries(g: Network, nodes: set<Node>, res: Network, s: Node, t: Node, value: int, p: Probe)
    requires Carries(g, nodes, res, s, t, value) && s != t && s in nodes && Endpoints(g.Keys) <= nodes && Probes(res, s, p) && Last(p) == t
    ensures p.flow.Some? && p.flow.value > 0 && Carries(g, nodes, PushPath(res, p.path, p.flow.value), s, t, value + p.flow.value)
  {
    hide Out;
    assert |p.path| > 1;
    var i :| 0 <= i < |p.path| - 1 && Get(res, (p.path[i], p.path[i + 1])) == p.flow.value;
    assert (p.path[i], p.path[i + 1]) in res.Keys;
    ResidualInside(g, res, nodes);
    PathInside(res.Keys, p.path, nodes);
    AugmentCarries(g, nodes, res, s, t, value, p.path, p.flow.value);
  }

  /** A flow is bounded by what leaves the source. */
  lemma SourceBound(g: Network, nodes: set<Node>, res: Network, s: Node, t: Node, value: int)
    requires Carries(g, nodes, res, s, t, value) && s in nodes && s != t
    ensures value <= CutCapacity(g, {s}, nodes)
  {
    CarriesFlow(g, nodes, res, s, t, value);
    WeakDuality(g, nodes, FlowOf(g, res), s, t, value, {s});
  }

  /** In a graph of few nodes no path is too long. */
  lemma ShortEnough(e: set<Edge>, nodes: set<Node>, s: Node, t: Node, maxHops: int)
    requires Endpoints(e) <= nodes && s in nodes && |nodes| <= maxHops + 1
    ensures Reach(e, s, t) <==> H.Within(e, s, t, maxHops)
  {
    if Reach(e, s, t) {
      var p :| IsPathFrom(e, p, s, t);
      var q := CutLoops(e, p);
      PathInside(e, q, nodes);
      ElemsSize(q);
      SubsetSize(Elems(q), nodes);
    }
  }

  /** The estimate is the value of a real flow, given by the residual graph it ends with; the
      paths' capacities add up to it. It is the maximum exactly when that graph joins source
      and target no more, in particular when the graph has at most one node more than the hop
      limit; otherwise the limit has hidden an augmenting path. It ends exactly when source and
      target differ. */
  method CalculateMaxFlow(g: Network, s: Node, t: Node, maxHops: int) returns (r: Answer, paths: seq<(seq<Node>, int)>, ghost res: Network)
    requires forall e :: e in g ==> g[e] > 0
    ensures r.Endless? <==> s == t
    ensures r.Amount? ==> Carries(g, NodesOf(g, s, t), res, s, t, r.value) && IsFlow(g, NodesOf(g, s, t), FlowOf(g, res), s, t, r.value)
    ensures r.Amount? ==> r.value == TotalFlow(paths) >= 0 && !H.Within(res.Keys, s, t, maxHops)
    ensures r.Amount? ==> (Maximum(g, NodesOf(g, s, t), s, t, r.value) <==> !Reach(res.Keys, s, t))
    ensures r.Amount? && |NodesOf(g, s, t)| <= maxHops + 1 ==> Maximum(g, NodesOf(g, s, t), s, t, r.value)
    ensures r.Amount? && !H.Within(g.Keys, s, t, maxHops) ==> r.value == 0
  {
    hide *;
    ghost var nodes := NodesOf(g, s, t);
    var residual, value := g, 0;
    paths, res := [], g;
    ProgressStarts(g, s, t, maxHops);
    while true
      invariant Progress(g, residual, s, t, value, maxHops)
      invariant value == TotalFlow(paths) >= 0
      decreases Left(g, s, t, value)
    {
      var found := Search(residual, s, t, maxHops);
      if found.None? { break; }
      if found.value.flow.None? {
        UnboundedIsSelf(residual, s, t, found.value);
        return Endless, paths, residual;
      }
      var flow := found.value.flow.value;
      ProgressStep(g, residual, s, t, value, maxHops, found.value);
      TotalStep(paths, (found.value.path, flow));
      residual := PushAlong(residual, found.value.path, flow);
      value := value + flow;
      paths := paths + [(found.value.path, flow)];
    }
    res := residual;
    FinalResidual(g, nodes, res, s, t, value, maxHops);
    r := Amount(value);
  }

  lemma TotalStep(paths: seq<(seq<Node>, int)>, p: (seq<Node>, int))
    ensures TotalFlow(paths + [p]) == TotalFlow(paths) + p.1
    ensures TotalFlow([]) == 0
  {
    var r := paths + [p];
    assert r[..|r| - 1] == paths;
  }

  /** What the rounds keep: the residual graph of a flow of the value so far, still the whole
      graph if nothing was found at first. */
  ghost predicate Progress(g: Network, res: Network, s: Node, t: Node, value: int, maxHops: int)
  {
    && (s != t ==> Carries(g, NodesOf(g, s, t), res, s, t, value))
    && ((res == g && value == 0) || H.Within(g.Keys, s, t, maxHops))
  }

  /** How much more could leave the source. */
  ghost function Left(g: Network, s: Node, t: Node, value: int): int
  {
    if s == t then 0 else CutCapacity(g, {s}, NodesOf(g, s, t)) - value
  }

  lemma ProgressStarts(g: Network, s: Node, t: Node, maxHops: int)
    requires forall e :: e in g ==> g[e] > 0
    ensures Progress(g, g, s, t, 0, maxHops) && TotalFlow([]) == 0
  {
    StartCarries(g, NodesOf(g, s, t), s, t);
  }

  lemma ProgressStep(g: Network, res: Network, s: Node, t: Node, value: int, maxHops: int, p: Probe)
    requires Progress(g, res, s, t, value, maxHops) && Probes(res, s, p) && Last(p) == t && p.flow.Some? && (s == t || H.Within(res.Keys, s, t, maxHops))
    ensures p.flow.value > 0 && s != t
    ensures Progress(g, PushPath(res, p.path, p.flow.value), s, t, value + p.flow.value, maxHops)
    ensures 0 <= Left(g, s, t, value + p.flow.value) < Left(g, s, t, value)
  {
    BoundedIsOther(res, s, p);
    hide Carries, Probes, CutCapacity, H.Within, Last;
    var nodes := NodesOf(g, s, t);
    RoundCarries(g, nodes, res, s, t, value, p);
    SourceBound(g, nodes, PushPath(res, p.path, p.flow.value), s, t, value + p.flow.value);
  }

  lemma UnboundedIsSelf(res: Network, s: Node, t: Node, p: Probe)
    requires Probes(res, s, p) && Last(p) == t && p.flow.None?
    ensures s == t
  {
  }

  lemma BoundedIsOther(res: Network, s: Node, p: Probe)
    requires Probes(res, s, p) && p.flow.Some?
    ensures s != Last(p)
  {
    assert |p.path| != 1;
    assert |p.path| > 1;
  }

  lemma FinalResidual(g: Network, nodes: set<Node>, res: Network, s: Node, t: Node, value: int, maxHops: int)
    requires Progress(g, res, s, t, value, maxHops) && nodes == NodesOf(g, s, t) && s != t && !H.Within(res.Keys, s, t, maxHops)
    ensures Carries(g, nodes, res, s, t, value) && (!H.Within(g.Keys, s, t, maxHops) ==> value == 0)
    ensures IsFlow(g, nodes, FlowOf(g, res), s, t, value)
    ensures Maximum(g, nodes, s, t, value) <==> !Reach(res.Keys, s, t)
    ensures |nodes| <= maxHops + 1 ==> Maximum(g, nodes, s, t, value)
  {
    hide IsFlow, Maximum, H.Within, Reach;
    CarriesFlow(g, nodes, res, s, t, value);
    ResidualInside(g, res, nodes);
    MaximumIff(g, nodes, res, s, t, value);
    if |nodes| <= maxHops + 1 { ShortEnough(res.Keys, nodes, s, t, maxHops); }
  }

  // ----- what the hop limit costs -----

  /** A chain of lines, one atom each. */
  ghost function Chain(nodes: seq<Node>): Network
  {
    map e | e in ChainEdges(nodes) :: 1
  }

  function Link(nodes: seq<Node>, i: nat): Edge
    requires i + 1 < |nodes|
  {
    (nodes[i], nodes[i + 1])
  }

  function ChainEdges(nodes: seq<Node>): set<Edge>
  {
    set i | 0 <= i < |nodes| - 1 :: Link(nodes, i)
  }

  lemma {:induction false} ChainOrder(nodes: seq<Node>, p: seq<Node>, i: nat)
    requires Distinct(nodes) && nodes != [] && IsPath(Chain(nodes).Keys, p) && p[0] == nodes[0] && i < |p|
    ensures i < |nodes| && p[i] == nodes[i]
    decreases i
  {
    if i > 0 {
      ChainOrder(nodes, p, i - 1);
      var j := i - 1;
      assert (p[j], p[j + 1]) in Chain(nodes);
      var k :| 0 <= k < |nodes| - 1 && Link(nodes, k) == (p[j], p[j + 1]);
      assert k == j;
    }
  }

  /** On a chain longer than the limit the estimate is zero, although an atom can flow. */
  lemma LongChainIsMissed(nodes: seq<Node>, maxHops: int)
    requires Distinct(nodes) && |nodes| >= 2 && |nodes| - 1 > maxHops
    ensures var g, s, t := Chain(nodes), nodes[0], nodes[|nodes| - 1];
            !H.Within(g.Keys, s, t, maxHops) && !Maximum(g, NodesOf(g, s, t), s, t, 0)
  {
    var g, s, t := Chain(nodes), nodes[0], nodes[|nodes| - 1];
    forall p | IsPathFrom(g.Keys, p, s, t) ensures |p| == |nodes| {
      ChainOrder(nodes, p, |p| - 1);
    }
    forall i | 0 <= i < |nodes| - 1 ensures (nodes[i], nodes[i + 1]) in g {
      assert Link(nodes, i) in ChainEdges(nodes);
    }
    ChainFlows(g, NodesOf(g, s, t), nodes);
  }

  lemma ChainFlows(g: Network, all: set<Node>, nodes: seq<Node>)
    requires IsPath(g.Keys, nodes) && Distinct(nodes) && |nodes| >= 2 && (forall e :: e in g ==> g[e] > 0)
    requires Endpoints(g.Keys) <= all && nodes[0] in all
    ensures !Maximum(g, all, nodes[0], nodes[|nodes| - 1], 0)
  {
    var s, t := nodes[0], nodes[|nodes| - 1];
    StartCarries(g, all, s, t);
    hide Carries;
    PathIsRoomy(g, nodes);
    PathInside(g.Keys, nodes, all);
    AugmentCarries(g, all, g, s, t, 0, nodes, 1);
    CarriesFlow(g, all, PushPath(g, nodes, 1), s, t, 1);
  }
}
