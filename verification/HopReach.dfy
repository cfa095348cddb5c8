/** Hop-bounded breadth-first reachability over trust lines, and the sender/receiver
    pairs it makes routable. */
module HopReach {
  import opened Graphs
  import L = Lists

  /** `v` can be reached from `u` over at most `h` trust lines. */
  ghost predicate Within(e: set<Edge>, u: Node, v: Node, h: int)
  {
    exists p :: IsPathFrom(e, p, u, v) && |p| - 1 <= h
  }

  /** The edges the topology keeps: both ends named and different. */
  function TrustEdges(items: seq<Edge>): (e: set<Edge>)
  {
    set i | 0 <= i < |items| && items[i].0 != "" && items[i].1 != "" && items[i].0 != items[i].1 :: items[i]
  }

  ghost predicate Lists(adj: map<Node, seq<Node>>, e: set<Edge>)
  {
    && (forall u, v :: u in adj && v in adj[u] ==> (u, v) in e)
    && (forall u, v :: (u, v) in e ==> u in adj && v in adj[u])
  }

  method BuildTopology(items: seq<Edge>) returns (adj: map<Node, seq<Node>>)
    ensures Lists(adj, TrustEdges(items))
    ensures forall u, v :: u in adj && v in adj[u] <==> (u, v) in items && u != "" && v != "" && u != v
  {
    adj := map[];
    for i := 0 to |items|
      invariant forall u, v :: u in adj && v in adj[u] ==> (u, v) in TrustEdges(items)
      invariant forall j :: 0 <= j < i && items[j].0 != "" && items[j].1 != "" && items[j].0 != items[j].1
                  ==> items[j].0 in adj && items[j].1 in adj[items[j].0]
    {
      var (fp, tp) := items[i];
      if fp != "" && tp != "" && fp != tp {
        assert items[i] in TrustEdges(items);
        adj := adj[fp := L.ListAt(adj, fp) + [tp]];
      }
    }
  }

  /** The successors of `v` are known and no deeper than one step below it. */
  ghost predicate Expanded(e: set<Edge>, dep: map<Node, nat>, v: Node)
    requires v in dep
  {
    forall w :: (v, w) in e ==> w in dep && dep[w] <= dep[v] + 1
  }

  /** What the queue and the seen set keep. `dep` records the depth at which each seen
      node was found; `open` are the seen nodes not yet expanded; `d` is the current layer. */
  ghost predicate Layered(e: set<Edge>, src: Node, maxHops: int, q: seq<(Node, int)>, open: set<Node>, dep: map<Node, nat>, d: int)
  {
    && src in dep && dep[src] == 0
    && (forall v :: v in dep ==> Within(e, src, v, dep[v]) && dep[v] <= d + 1)
    && (forall i :: 0 <= i < |q| ==> q[i].0 in dep && dep[q[i].0] == q[i].1 && d <= q[i].1)
    && (forall i, j :: 0 <= i < j < |q| ==> q[i].1 <= q[j].1)
    && (forall v :: v in dep && v !in open && dep[v] < maxHops ==> Expanded(e, dep, v))
  }

  ghost function QueueNodes(q: seq<(Node, int)>): set<Node>
  {
    set i | 0 <= i < |q| :: q[i].0
  }

  lemma PopFront(e: set<Edge>, src: Node, maxHops: int, q: seq<(Node, int)>, dep: map<Node, nat>, d: int)
    requires Layered(e, src, maxHops, q, QueueNodes(q), dep, d) && |q| > 0
    ensures Layered(e, src, maxHops, q[1..], QueueNodes(q[1..]) + {q[0].0}, dep, q[0].1)
    ensures q[0].0 in dep && dep[q[0].0] == q[0].1 >= 0
  {
    var rest := q[1..];
    forall v | v in QueueNodes(q) ensures v in QueueNodes(rest) + {q[0].0} {
      var i :| 0 <= i < |q| && q[i].0 == v;
      if i > 0 { assert rest[i - 1] == q[i]; }
    }
  }

  lemma Discover(e: set<Edge>, src: Node, maxHops: int, q: seq<(Node, int)>, open: set<Node>, dep: map<Node, nat>, cur: Node, nxt: Node)
    requires cur in dep && (cur, nxt) in e && nxt !in dep
    requires Layered(e, src, maxHops, q, open, dep, dep[cur])
    ensures Layered(e, src, maxHops, q + [(nxt, dep[cur] + 1)], open + {nxt}, dep[nxt := dep[cur] + 1], dep[cur])
  {
    var p :| IsPathFrom(e, p, src, cur) && |p| - 1 <= dep[cur];
    assert IsPathFrom(e, p + [nxt], src, nxt);
    assert Within(e, src, nxt, dep[cur] + 1);
  }

  lemma QueuePush(q: seq<(Node, int)>, x: (Node, int))
    ensures QueueNodes(q + [x]) == QueueNodes(q) + {x.0}
  {
    var r := q + [x];
    forall v | v in QueueNodes(q) + {x.0} ensures v in QueueNodes(r) {
      if v == x.0 {
        assert r[|q|].0 == v;
      } else {
        var i :| 0 <= i < |q| && q[i].0 == v;
        assert r[i].0 == v;
      }
    }
  }

  lemma DiscoverInQueue(e: set<Edge>, src: Node, maxHops: int, q: seq<(Node, int)>, dep: map<Node, nat>, cur: Node, nxt: Node)
    requires cur in dep && (cur, nxt) in e && nxt !in dep
    requires Layered(e, src, maxHops, q, QueueNodes(q) + {cur}, dep, dep[cur])
    ensures var q' := q + [(nxt, dep[cur] + 1)];
            Layered(e, src, maxHops, q', QueueNodes(q') + {cur}, dep[nxt := dep[cur] + 1], dep[cur])
  {
    Discover(e, src, maxHops, q, QueueNodes(q) + {cur}, dep, cur, nxt);
    QueuePush(q, (nxt, dep[cur] + 1));
    assert QueueNodes(q) + {cur} + {nxt} == QueueNodes(q + [(nxt, dep[cur] + 1)]) + {cur};
  }

  lemma FinishNode(e: set<Edge>, src: Node, maxHops: int, q: seq<(Node, int)>, open: set<Node>, dep: map<Node, nat>, d: int, cur: Node)
    requires cur in dep && Layered(e, src, maxHops, q, open + {cur}, dep, d)
    requires dep[cur] < maxHops ==> Expanded(e, dep, cur)
    ensures Layered(e, src, maxHops, q, open, dep, d)
  {
  }

  /** With nothing left to expand, every node within the bound was found, no deeper than
      its shortest path. */
  lemma {:induction false} AllFound(e: set<Edge>, src: Node, maxHops: int, dep: map<Node, nat>, d: int, p: seq<Node>)
    requires Layered(e, src, maxHops, [], {}, dep, d)
    requires IsPath(e, p) && p[0] == src && |p| - 1 <= maxHops
    ensures p[|p| - 1] in dep && dep[p[|p| - 1]] <= |p| - 1
    decreases |p|
  {
    if |p| > 1 {
      var q := p[..|p| - 1];
      forall i | 0 <= i < |q| - 1 ensures (q[i], q[i + 1]) in e {
        assert (p[i], p[i + 1]) in e;
      }
      AllFound(e, src, maxHops, dep, d, q);
      assert (p[|p| - 2], p[|p| - 1]) in e;
      assert Expanded(e, dep, q[|q| - 1]);
    }
  }

  lemma StepWithin(e: set<Edge>, src: Node, cur: Node, nxt: Node, k: int, h: int)
    requires Within(e, src, cur, k) && k < h && (cur, nxt) in e
    ensures Within(e, src, nxt, h)
  {
    var p :| IsPathFrom(e, p, src, cur) && |p| - 1 <= k;
    assert IsPathFrom(e, p + [nxt], src, nxt);
  }

  lemma StartLayer(e: set<Edge>, src: Node, maxHops: int)
    ensures Layered(e, src, maxHops, [(src, 0)], QueueNodes([(src, 0)]), map[src := 0], 0)
  {
    assert IsPathFrom(e, [src], src, src);
    assert [(src, 0)][0].0 == src;
  }

  lemma Successor(adj: map<Node, seq<Node>>, e: set<Edge>, u: Node, i: nat)
    requires Lists(adj, e) && i < |L.ListAt(adj, u)|
    ensures (u, L.ListAt(adj, u)[i]) in e && L.ListAt(adj, u)[i] in Endpoints(e)
  {
    assert (u, L.ListAt(adj, u)[i]) in e;
  }

  lemma AllSuccessors(adj: map<Node, seq<Node>>, e: set<Edge>, dep: map<Node, nat>, u: Node)
    requires Lists(adj, e) && u in dep
    requires forall k :: 0 <= k < |L.ListAt(adj, u)| ==> L.ListAt(adj, u)[k] in dep && dep[L.ListAt(adj, u)[k]] <= dep[u] + 1
    ensures Expanded(e, dep, u)
  {
    forall w | (u, w) in e ensures w in dep && dep[w] <= dep[u] + 1 {
      var k :| 0 <= k < |adj[u]| && adj[u][k] == w;
      assert L.ListAt(adj, u)[k] == w;
    }
  }

  /** One node's turn: report a hit, or queue every successor not seen before. */
  method Expand(adj: map<Node, seq<Node>>, ghost e: set<Edge>, ghost src: Node, dst: Node, ghost maxHops: int, ghost universe: set<Node>,
                cur: Node, depth: int, q0: seq<(Node, int)>, seen0: set<Node>, ghost dep0: map<Node, nat>)
    returns (hit: bool, q: seq<(Node, int)>, seen: set<Node>, ghost dep: map<Node, nat>)
    requires Lists(adj, e) && Endpoints(e) <= universe && depth < maxHops
    requires seen0 == dep0.Keys && seen0 <= universe && cur in dep0 && dep0[cur] == depth
    requires Layered(e, src, maxHops, q0, QueueNodes(q0) + {cur}, dep0, depth) && dst !in dep0
    ensures hit ==> Within(e, src, dst, maxHops)
    ensures !hit ==> seen == dep.Keys && seen0 <= seen <= universe && (seen == seen0 ==> |q| == |q0|)
    ensures !hit ==> Layered(e, src, maxHops, q, QueueNodes(q), dep, depth) && dst !in dep
  {
    hide *;
    q, seen, dep := q0, seen0, dep0;
    var nbrs := L.ListAt(adj, cur);
    for i := 0 to |nbrs|
      invariant seen == dep.Keys && seen0 <= seen <= universe && (seen == seen0 ==> |q| == |q0|)
      invariant cur in dep && dep[cur] == depth
      invariant Layered(e, src, maxHops, q, QueueNodes(q) + {cur}, dep, depth) && dst !in dep
      invariant forall k :: 0 <= k < i ==> nbrs[k] in dep && dep[nbrs[k]] <= depth + 1
    {
      var nxt := nbrs[i];
      Successor(adj, e, cur, i);
      if nxt == dst {
        SeenWithin(e, src, maxHops, q, QueueNodes(q) + {cur}, dep, depth, cur);
        StepWithin(e, src, cur, dst, depth, maxHops);
        return true, q, seen, dep;
      }
      if nxt in seen {
        SeenWithin(e, src, maxHops, q, QueueNodes(q) + {cur}, dep, depth, nxt);
      } else {
        DiscoverInQueue(e, src, maxHops, q, dep, cur, nxt);
        seen := seen + {nxt};
        q := q + [(nxt, depth + 1)];
        dep := dep[nxt := depth + 1];
      }
    }
    AllSuccessors(adj, e, dep, cur);
    FinishNode(e, src, maxHops, q, QueueNodes(q), dep, depth, cur);
    hit := false;
  }

  /** True exactly when both names are non-empty and the target is the source or lies
      within the hop bound. */
  method Reachable(adj: map<Node, seq<Node>>, ghost e: set<Edge>, src: Node, dst: Node, maxHops: int) returns (r: bool)
    requires Lists(adj, e)
    ensures r <==> src != "" && dst != "" && (src == dst || Within(e, src, dst, maxHops))
  {
    if src == "" || dst == "" { return false; }
    if src == dst { return true; }
    var q: seq<(Node, int)> := [(src, 0)];
    var seen := {src};
    ghost var dep: map<Node, nat> := map[src := 0];
    ghost var d := 0;
    ghost var universe := Endpoints(e) + {src};
    StartLayer(e, src, maxHops);
    hide *;
    while |q| > 0
      invariant seen == dep.Keys && seen <= universe
      invariant Layered(e, src, maxHops, q, QueueNodes(q), dep, d) && dst !in dep
      decreases universe - seen, |q|
    {
      var (cur, depth) := q[0];
      PopFront(e, src, maxHops, q, dep, d);
      q := q[1..];
      d := depth;
      if depth < maxHops {
        var hit;
        hit, q, seen, dep := Expand(adj, e, src, dst, maxHops, universe, cur, depth, q, seen, dep);
        if hit { return true; }
      } else {
        FinishNode(e, src, maxHops, q, QueueNodes(q), dep, d, cur);
      }
    }
    NotWithin(e, src, dst, maxHops, q, dep, d);
    return false;
  }

  lemma SeenWithin(e: set<Edge>, src: Node, maxHops: int, q: seq<(Node, int)>, open: set<Node>, dep: map<Node, nat>, d: int, v: Node)
    requires Layered(e, src, maxHops, q, open, dep, d) && v in dep
    ensures Within(e, src, v, dep[v]) && dep[v] <= d + 1
  {
  }

  lemma NotWithin(e: set<Edge>, src: Node, dst: Node, maxHops: int, q: seq<(Node, int)>, dep: map<Node, nat>, d: int)
    requires |q| == 0 && Layered(e, src, maxHops, q, QueueNodes(q), dep, d) && dst !in dep
    ensures !Within(e, src, dst, maxHops)
  {
    assert q == [] && QueueNodes(q) == {};
    forall p | IsPathFrom(e, p, src, dst) && |p| - 1 <= maxHops ensures false {
      AllFound(e, src, maxHops, dep, d, p);
    }
  }

  /** A sender can pay a receiver when the receiver reaches the sender within six trust lines. */
  ghost predicate Routable(e: set<Edge>, pids: seq<Node>, sender: Node, receiver: Node)
  {
    && sender in pids && receiver in pids && sender != receiver && sender != "" && receiver != ""
    && Within(e, receiver, sender, 6)
  }

  predicate TrustHop(items: seq<Edge>, u: Node, v: Node)
  {
    (u, v) in items && u != "" && v != "" && u != v
  }

  /** A path over the given lines, each between two named, different ends. */
  ghost predicate TrustPath(items: seq<Edge>, p: seq<Node>)
  {
    |p| > 0 && forall i :: 0 <= i < |p| - 1 ==> TrustHop(items, p[i], p[i + 1])
  }

  lemma TrustPathIs(items: seq<Edge>, p: seq<Node>)
    ensures TrustPath(items, p) <==> IsPath(TrustEdges(items), p)
  {
    if IsPath(TrustEdges(items), p) {
      forall i | 0 <= i < |p| - 1 ensures TrustHop(items, p[i], p[i + 1]) {
        assert (p[i], p[i + 1]) in TrustEdges(items);
      }
    }
    if TrustPath(items, p) {
      forall i | 0 <= i < |p| - 1 ensures (p[i], p[i + 1]) in TrustEdges(items) {
        assert TrustHop(items, p[i], p[i + 1]);
      }
    }
  }

  lemma RoutableIs(items: seq<Edge>, pids: seq<Node>, s: Node, r: Node)
    ensures Routable(TrustEdges(items), pids, s, r) <==>
              && s in pids && r in pids && s != r && s != "" && r != ""
              && exists p: seq<Node> :: TrustPath(items, p) && p[0] == r && p[|p| - 1] == s && |p| <= 7
  {
    var e := TrustEdges(items);
    if Within(e, r, s, 6) {
      var p :| IsPathFrom(e, p, r, s) && |p| - 1 <= 6;
      TrustPathIs(items, p);
    }
    if p: seq<Node> :| TrustPath(items, p) && p[0] == r && p[|p| - 1] == s && |p| <= 7 {
      TrustPathIs(items, p);
      assert IsPathFrom(e, p, r, s);
    }
  }

  method RoutablePairs(items: seq<Edge>, pids: seq<Node>) returns (pairs: seq<(Node, Node)>)
    ensures forall s, r :: (s, r) in pairs <==> Routable(TrustEdges(items), pids, s, r)
    ensures forall s, r ::
              (s, r) in pairs <==>
                && s in pids && r in pids && s != r && s != "" && r != ""
                && exists p: seq<Node> :: TrustPath(items, p) && p[0] == r && p[|p| - 1] == s && |p| <= 7
  {
    var adj := BuildTopology(items);
    ghost var e := TrustEdges(items);
    pairs := [];
    for i := 0 to |pids|
      invariant forall s, r :: (s, r) in pairs <==> s in pids[..i] && Routable(e, pids, s, r)
    {
      assert pids[..i + 1] == pids[..i] + [pids[i]];
      for j := 0 to |pids|
        invariant forall s, r :: (s, r) in pairs <==>
                    (s in pids[..i] || (s == pids[i] && r in pids[..j])) && Routable(e, pids, s, r)
      {
        assert pids[..j + 1] == pids[..j] + [pids[j]];
        if pids[i] != pids[j] {
          var ok := Reachable(adj, e, pids[j], pids[i], 6);
          if ok {
            pairs := pairs + [(pids[i], pids[j])];
          }
        }
      }
      assert pids[..|pids|] == pids;
    }
    assert pids[..|pids|] == pids;
    forall s, r
      ensures Routable(e, pids, s, r) <==>
              && s in pids && r in pids && s != r && s != "" && r != ""
              && exists p: seq<Node> :: TrustPath(items, p) && p[0] == r && p[|p| - 1] == s && |p| <= 7
    {
      RoutableIs(items, pids, s, r);
    }
  }
}
