/** The iterative Kosaraju pass over a trust graph: two explicit-stack depth-first
    searches whose lists are the strongly connected components, in topological order. */
module Kosaraju {
  import opened Lists
  import opened Graphs

  type Adjacency = map<Node, seq<Node>>

  /** `g` lists the successors of each node of `nodes` under `e`. */
  ghost predicate Successors(g: Adjacency, e: set<Edge>, nodes: set<Node>)
  {
    && g.Keys == nodes
    && (forall u, v :: u in g ==> (v in g[u] <==> (u, v) in e))
    && Endpoints(e) <= nodes
  }

  /** `g` lists the predecessors of each node of `nodes` under `e`. */
  ghost predicate Predecessors(g: Adjacency, e: set<Edge>, nodes: set<Node>)
  {
    && g.Keys == nodes
    && (forall u, v :: u in g ==> (v in g[u] <==> (v, u) in e))
    && Endpoints(e) <= nodes
  }

  /** Lists `v` under `u`, and makes sure both have a list. */
  function Link(g: Adjacency, u: Node, v: Node): (r: Adjacency)
  {
    var g1 := g[u := ListAt(g, u) + [v]];
    g1[v := ListAt(g1, v)]
  }

  lemma LinkSuccessor(g: Adjacency, e: set<Edge>, nodes: set<Node>, u: Node, v: Node)
    requires Successors(g, e, nodes)
    ensures Successors(Link(g, u, v), e + {(u, v)}, nodes + {u, v})
  {
    var r := Link(g, u, v);
    forall x, y | x in r ensures y in r[x] <==> (x, y) in e + {(u, v)} {
      if x !in g { assert (x, y) in e ==> x in Endpoints(e); }
    }
    assert Endpoints(e + {(u, v)}) <= Endpoints(e) + {u, v};
  }

  lemma LinkPredecessor(g: Adjacency, e: set<Edge>, nodes: set<Node>, u: Node, v: Node)
    requires Predecessors(g, e, nodes)
    ensures Predecessors(Link(g, v, u), e + {(u, v)}, nodes + {u, v})
  {
    var r := Link(g, v, u);
    forall x, y | x in r ensures y in r[x] <==> (y, x) in e + {(u, v)} {
      if x !in g { assert (y, x) in e ==> x in Endpoints(e); }
    }
    assert Endpoints(e + {(u, v)}) <= Endpoints(e) + {u, v};
    assert r.Keys == nodes + {u, v};
  }

  lemma NoEdges(nodes: set<Node>, edges: seq<Edge>, g: Adjacency)
    requires g.Keys == nodes && forall n :: n in g ==> g[n] == []
    ensures Successors(g, EdgeSet(edges[..0]), nodes + Endpoints(EdgeSet(edges[..0])))
    ensures Predecessors(g, EdgeSet(edges[..0]), nodes + Endpoints(EdgeSet(edges[..0])))
  {
    assert EdgeSet(edges[..0]) == {};
    assert nodes + Endpoints({}) == nodes;
  }

  method BuildAdjacency(nodes: set<Node>, edges: seq<Edge>) returns (g: Adjacency, gr: Adjacency)
    ensures Successors(g, EdgeSet(edges), nodes + Endpoints(EdgeSet(edges)))
    ensures Predecessors(gr, EdgeSet(edges), nodes + Endpoints(EdgeSet(edges)))
  {
    hide *;
    g := map n | n in nodes :: [];
    gr := map n | n in nodes :: [];
    NoEdges(nodes, edges, g);
    NoEdges(nodes, edges, gr);
    for i := 0 to |edges|
      invariant Successors(g, EdgeSet(edges[..i]), nodes + Endpoints(EdgeSet(edges[..i])))
      invariant Predecessors(gr, EdgeSet(edges[..i]), nodes + Endpoints(EdgeSet(edges[..i])))
    {
      var (u, v) := edges[i];
      ghost var known := nodes + Endpoints(EdgeSet(edges[..i]));
      EdgeSetStep(edges, i);
      assert known + {u, v} == nodes + Endpoints(EdgeSet(edges[..i + 1]));
      LinkSuccessor(g, EdgeSet(edges[..i]), known, u, v);
      LinkPredecessor(gr, EdgeSet(edges[..i]), known, u, v);
      g := Link(g, u, v);
      gr := Link(gr, v, u);
    }
    assert edges[..|edges|] == edges;
  }

  lemma EdgeSetStep(edges: seq<Edge>, i: nat)
    requires i < |edges|
    ensures EdgeSet(edges[..i + 1]) == EdgeSet(edges[..i]) + {edges[i]}
    ensures Endpoints(EdgeSet(edges[..i + 1])) == Endpoints(EdgeSet(edges[..i])) + {edges[i].0, edges[i].1}
  {
    var a, b := EdgeSet(edges[..i]), EdgeSet(edges[..i + 1]);
    forall x ensures x in b <==> x in a + {edges[i]} {
      if x in a {
        var j :| 0 <= j < i && edges[..i][j] == x;
        assert edges[..i + 1][j] == x;
      }
      if x == edges[i] {
        assert edges[..i + 1][i] == x;
      }
    }
    assert b == a + {edges[i]};
    assert (set x | x in b :: x.0) == (set x | x in a :: x.0) + {edges[i].0};
    assert (set x | x in b :: x.1) == (set x | x in a :: x.1) + {edges[i].1};
  }

  // ----- first pass -----

  /** When node `i` finished, either all it reaches had finished, or a node of its own
      component was still unfinished. */
  ghost predicate FinishedAt(e: set<Edge>, order: seq<Node>, i: nat)
    requires i < |order|
  {
    || (forall n :: Reach(e, order[i], n) ==> n in order[..i + 1])
    || (exists s :: s !in order[..i + 1] && Mutual(e, order[i], s))
  }

  ghost predicate FinishingOrder(e: set<Edge>, order: seq<Node>)
  {
    Distinct(order) && forall i :: 0 <= i < |order| ==> FinishedAt(e, order, i)
  }

  ghost predicate ClosedUnder(e: set<Edge>, from: set<Node>, to: set<Node>)
  {
    forall u, v :: u in from && (u, v) in e ==> v in to
  }

  ghost function StackNodes(stack: seq<(Node, nat)>): (r: seq<Node>)
    ensures |r| == |stack|
    ensures forall k :: 0 <= k < |stack| ==> r[k] == stack[k].0
  {
    seq(|stack|, k requires 0 <= k < |stack| => stack[k].0)
  }

  /** The step that appends a node to the finishing order keeps the finishing property. */
  lemma FinishTop(e: set<Edge>, order: seq<Node>, chain: seq<Node>, seen: set<Node>)
    requires IsPath(e, chain) && FinishingOrder(e, order)
    requires Distinct(chain) && (forall x :: x in chain ==> x !in order)
    requires seen == Elems(order) + Elems(chain)
    requires ClosedUnder(e, Elems(order) + {chain[|chain| - 1]}, seen)
    ensures FinishingOrder(e, order + [chain[|chain| - 1]])
  {
    var top := |chain| - 1;
    var x := chain[top];
    var done := order + [x];
    forall i | 0 <= i < |done| ensures FinishedAt(e, done, i) {
      if i < |order| {
        assert done[..i + 1] == order[..i + 1];
        assert FinishedAt(e, order, i);
      } else {
        assert done[..i + 1] == done;
        if n :| Reach(e, x, n) && n !in done {
          var p :| IsPathFrom(e, p, x, n);
          var k := FirstExit(e, p, Elems(done));
          var s := p[k + 1];
          assert p[k] in Elems(order) + {x};
          assert s in chain;
          var j :| 0 <= j < |chain| && chain[j] == s;
          SubPath(e, p, 0, k + 1);
          SubPath(e, chain, j, top);
          assert s !in done[..i + 1] && Mutual(e, done[i], s);
        }
      }
    }
  }

  /** Everything the first search keeps: finished nodes and the stack split the seen
      nodes, the stack is a walk, and what has been scanned has been seen. */
  ghost predicate Searching(g: Adjacency, e: set<Edge>, seen: set<Node>, order: seq<Node>, stack: seq<(Node, nat)>)
  {
    var chain := StackNodes(stack);
    && seen == Elems(order) + Elems(chain)
    && seen <= g.Keys
    && FinishingOrder(e, order)
    && Distinct(chain)
    && (forall x :: x in chain ==> x !in order)
    && (|stack| > 0 ==> IsPath(e, chain))
    && (forall k :: 0 <= k < |stack| ==> Scanned(g, stack[k], seen))
    && ClosedUnder(e, Elems(order), seen)
  }

  ghost predicate Scanned(g: Adjacency, frame: (Node, nat), seen: set<Node>)
  {
    && frame.0 in g && frame.1 <= |g[frame.0]|
    && forall j :: 0 <= j < frame.1 ==> g[frame.0][j] in seen
  }

  lemma StartKeeps(g: Adjacency, e: set<Edge>, seen: set<Node>, order: seq<Node>, start: Node)
    requires start in g && start !in order && seen == Elems(order) + {start}
    requires Searching(g, e, Elems(order), order, [])
    ensures Searching(g, e, seen, order, [(start, 0)])
  {
    assert StackNodes([(start, 0)]) == [start];
  }

  lemma TopScanned(g: Adjacency, e: set<Edge>, seen: set<Node>, order: seq<Node>, stack: seq<(Node, nat)>)
    requires Searching(g, e, seen, order, stack) && |stack| > 0
    ensures Scanned(g, stack[|stack| - 1], seen) && seen <= g.Keys
    ensures stack[|stack| - 1].0 in g && stack[|stack| - 1].1 <= |g[stack[|stack| - 1].0]|
  {
    hide FinishingOrder, IsPath, Distinct, ClosedUnder;
  }

  lemma ScanKeeps(g: Adjacency, e: set<Edge>, seen: set<Node>, order: seq<Node>, stack: seq<(Node, nat)>)
    requires Searching(g, e, seen, order, stack) && |stack| > 0
    requires var (u, i) := stack[|stack| - 1]; i < |g[u]| && g[u][i] in seen
    ensures var (u, i) := stack[|stack| - 1]; Searching(g, e, seen, order, stack[|stack| - 1 := (u, i + 1)])
  {
    var (u, i) := stack[|stack| - 1];
    assert StackNodes(stack[|stack| - 1 := (u, i + 1)]) == StackNodes(stack);
    assert Scanned(g, stack[|stack| - 1], seen);
  }

  lemma PushScanned(g: Adjacency, seen: set<Node>, stack: seq<(Node, nat)>)
    requires |stack| > 0 && forall k :: 0 <= k < |stack| ==> Scanned(g, stack[k], seen)
    requires var (u, i) := stack[|stack| - 1]; u in g && i < |g[u]| && g[u][i] in g
    ensures var (u, i) := stack[|stack| - 1];
            var stack' := stack[|stack| - 1 := (u, i + 1)] + [(g[u][i], 0)];
            forall k :: 0 <= k < |stack'| ==> Scanned(g, stack'[k], seen + {g[u][i]})
  {
    var (u, i) := stack[|stack| - 1];
    var stack' := stack[|stack| - 1 := (u, i + 1)] + [(g[u][i], 0)];
    assert Scanned(g, stack[|stack| - 1], seen);
    forall k | 0 <= k < |stack'| ensures Scanned(g, stack'[k], seen + {g[u][i]}) {
      if k < |stack| - 1 { assert Scanned(g, stack[k], seen); }
    }
  }

  lemma PathGrows(e: set<Edge>, chain: seq<Node>, v: Node)
    requires IsPath(e, chain) && (chain[|chain| - 1], v) in e
    ensures IsPath(e, chain + [v])
  {
  }

  lemma PushKeeps(g: Adjacency, e: set<Edge>, seen: set<Node>, order: seq<Node>, stack: seq<(Node, nat)>)
    requires Successors(g, e, g.Keys)
    requires Searching(g, e, seen, order, stack) && |stack| > 0
    requires var (u, i) := stack[|stack| - 1]; i < |g[u]| && g[u][i] !in seen
    ensures var (u, i) := stack[|stack| - 1];
            Searching(g, e, seen + {g[u][i]}, order, stack[|stack| - 1 := (u, i + 1)] + [(g[u][i], 0)])
    ensures var (u, i) := stack[|stack| - 1]; g[u][i] in g
  {
    hide FinishingOrder, IsPath, Scanned;
    var (u, i) := stack[|stack| - 1];
    assert u in g by { TopScanned(g, e, seen, order, stack); }
    var v := g[u][i];
    var chain := StackNodes(stack);
    var stack' := stack[|stack| - 1 := (u, i + 1)] + [(v, 0)];
    assert (u, v) in e && v in Endpoints(e);
    assert StackNodes(stack') == chain + [v];
    assert Elems(chain + [v]) == Elems(chain) + {v};
    PathGrows(e, chain, v);
    PushScanned(g, seen, stack);
  }

  lemma PopKeeps(g: Adjacency, e: set<Edge>, seen: set<Node>, order: seq<Node>, stack: seq<(Node, nat)>)
    requires Successors(g, e, g.Keys)
    requires Searching(g, e, seen, order, stack) && |stack| > 0
    requires var (u, i) := stack[|stack| - 1]; i == |g[u]|
    ensures Searching(g, e, seen, order + [stack[|stack| - 1].0], stack[..|stack| - 1])
  {
    var top := |stack| - 1;
    var (u, i) := stack[top];
    var chain := StackNodes(stack);
    assert Scanned(g, stack[top], seen);
    assert forall v :: (u, v) in e ==> v in g[u];
    FinishTop(e, order, chain, seen);
    assert StackNodes(stack[..top]) == chain[..top];
    assert chain == chain[..top] + [u];
    assert Elems(chain) == Elems(chain[..top]) + {u};
    assert Elems(order + [u]) == Elems(order) + {u};
  }

  /** How many neighbours the top frame still has to look at. */
  ghost function ToScan(g: Adjacency, stack: seq<(Node, nat)>): int
  {
    if |stack| > 0 then |ListAt(g, stack[|stack| - 1].0)| - stack[|stack| - 1].1 else 0
  }

  lemma SeenGrows(keys: set<Node>, seen: set<Node>, v: Node)
    requires v in keys && v !in seen
    ensures keys - (seen + {v}) < keys - seen
  {
    assert v in keys - seen;
  }

  lemma ScanShrinks(g: Adjacency, stack: seq<(Node, nat)>)
    requires |stack| > 0 && stack[|stack| - 1].0 in g && stack[|stack| - 1].1 < |g[stack[|stack| - 1].0]|
    ensures var (u, i) := stack[|stack| - 1]; 0 <= ToScan(g, stack[|stack| - 1 := (u, i + 1)]) < ToScan(g, stack)
  {
  }

  /** Looks at the next neighbour of the top frame, and pushes it if it is new. */
  method ScanNext(g: Adjacency, ghost e: set<Edge>, seen0: set<Node>, ghost order: seq<Node>, stack0: seq<(Node, nat)>)
    returns (seen: set<Node>, stack: seq<(Node, nat)>)
    requires Successors(g, e, g.Keys) && Searching(g, e, seen0, order, stack0) && |stack0| > 0
    requires stack0[|stack0| - 1].0 in g && stack0[|stack0| - 1].1 < |g[stack0[|stack0| - 1].0]|
    ensures Searching(g, e, seen, order, stack) && seen0 <= seen
    ensures g.Keys - seen < g.Keys - seen0 || (seen == seen0 && |stack| == |stack0| && 0 <= ToScan(g, stack) < ToScan(g, stack0))
  {
    hide Searching, Successors, ToScan;
    var top := |stack0| - 1;
    var u, i := stack0[top].0, stack0[top].1;
    var v := g[u][i];
    seen, stack := seen0, stack0[top := (u, i + 1)];
    if v in seen {
      ScanKeeps(g, e, seen0, order, stack0);
      ScanShrinks(g, stack0);
    } else {
      PushKeeps(g, e, seen0, order, stack0);
      SeenGrows(g.Keys, seen, v);
      seen := seen + {v};
      stack := stack + [(v, 0)];
    }
  }

  method Dfs1(g: Adjacency, ghost e: set<Edge>, start: Node, seen0: set<Node>, order0: seq<Node>)
    returns (seen: set<Node>, order: seq<Node>)
    requires Successors(g, e, g.Keys) && start in g && start !in seen0
    requires Searching(g, e, seen0, order0, [])
    ensures Searching(g, e, seen, order, [])
    ensures seen0 + {start} <= seen
  {
    order := order0;
    var stack: seq<(Node, nat)> := [(start, 0)];
    seen := seen0 + {start};
    StartKeeps(g, e, seen, order, start);
    hide Searching, Successors, Scanned, ToScan;
    while |stack| > 0
      invariant seen0 <= seen && start in seen
      invariant Searching(g, e, seen, order, stack)
      decreases g.Keys - seen, |stack|, ToScan(g, stack)
    {
      var top := |stack| - 1;
      TopScanned(g, e, seen, order, stack);
      if stack[top].1 < |g[stack[top].0]| {
        seen, stack := ScanNext(g, e, seen, order, stack);
      } else {
        PopKeeps(g, e, seen, order, stack);
        order := order + [stack[top].0];
        stack := stack[..top];
      }
    }
  }

  // ----- what the finishing order means -----

  /** Every component has a last finisher, and all it reaches finished no later. */
  lemma {:induction false} LastOfComponent(e: set<Edge>, order: seq<Node>, i: nat) returns (j: nat)
    requires FinishingOrder(e, order) && i < |order| && ClosedUnder(e, Elems(order), Elems(order))
    ensures i <= j < |order| && Mutual(e, order[i], order[j])
    ensures forall n :: Reach(e, order[j], n) ==> n in order[..j + 1]
    decreases |order| - i
  {
    assert FinishedAt(e, order, i);
    if forall n :: Reach(e, order[i], n) ==> n in order[..i + 1] {
      j := i;
      ReachRefl(e, order[i]);
    } else {
      var s :| s !in order[..i + 1] && Mutual(e, order[i], s);
      if s !in order {
        var p :| IsPathFrom(e, p, order[i], s);
        var k := FirstExit(e, p, Elems(order));
        assert false;
      }
      var m :| 0 <= m < |order| && order[m] == s;
      assert forall k :: 0 <= k < i + 1 ==> order[k] in order[..i + 1];
      j := LastOfComponent(e, order, m);
      MutualTrans(e, order[i], s, order[j]);
    }
  }

  /** A node reaching `n` shares its component with a node that finished no earlier than `n`. */
  lemma ComponentFinishesLater(e: set<Edge>, order: seq<Node>, u: Node, n: nat) returns (j: nat)
    requires FinishingOrder(e, order) && n < |order| && ClosedUnder(e, Elems(order), Elems(order))
    requires u in order && Reach(e, u, order[n])
    ensures n <= j < |order| && Mutual(e, u, order[j])
  {
    var i :| 0 <= i < |order| && order[i] == u;
    j := LastOfComponent(e, order, i);
    ReachTrans(e, order[j], u, order[n]);
    var m :| 0 <= m < |order[..j + 1]| && order[..j + 1][m] == order[n];
    assert order[m] == order[n];
  }

  // ----- second pass -----

  /** The second search: finished and stacked nodes are new, distinct and reach the start. */
  ghost predicate Collecting(e: set<Edge>, start: Node, seen0: set<Node>, seen: set<Node>, comp: seq<Node>, stack: seq<Node>)
  {
    && Distinct(comp) && Distinct(stack)
    && (forall x :: x in stack ==> x !in comp)
    && (start in comp || start in stack)
    && seen == seen0 + Elems(comp) + Elems(stack)
    && seen0 !! Elems(comp) && seen0 !! Elems(stack)
    && (forall x :: x in comp || x in stack ==> Reach(e, x, start))
  }

  ghost predicate PredecessorsSeen(e: set<Edge>, comp: seq<Node>, seen: set<Node>)
  {
    forall v, x :: x in comp && (v, x) in e ==> v in seen
  }

  lemma CollectPop(e: set<Edge>, start: Node, seen0: set<Node>, seen: set<Node>, comp: seq<Node>, stack: seq<Node>)
    requires Collecting(e, start, seen0, seen, comp, stack) && |stack| > 0
    ensures Collecting(e, start, seen0, seen, comp + [stack[|stack| - 1]], stack[..|stack| - 1])
  {
    var u, rest := stack[|stack| - 1], stack[..|stack| - 1];
    assert stack == rest + [u];
    assert Elems(stack) == Elems(rest) + {u};
    assert Elems(comp + [u]) == Elems(comp) + {u};
  }

  lemma CollectPush(e: set<Edge>, start: Node, seen0: set<Node>, seen: set<Node>, comp: seq<Node>, stack: seq<Node>, u: Node, v: Node)
    requires Collecting(e, start, seen0, seen, comp, stack) && u in comp && (v, u) in e && v !in seen
    ensures Collecting(e, start, seen0, seen + {v}, comp, stack + [v])
  {
    ReachEdge(e, v, u);
    ReachTrans(e, v, u, start);
    assert Elems(stack + [v]) == Elems(stack) + {v};
  }

  lemma CollectDone(gr: Adjacency, e: set<Edge>, comp: seq<Node>, u: Node, seen: set<Node>)
    requires Predecessors(gr, e, gr.Keys) && u in gr
    requires PredecessorsSeen(e, comp, seen)
    requires forall k :: 0 <= k < |gr[u]| ==> gr[u][k] in seen
    ensures PredecessorsSeen(e, comp + [u], seen)
  {
  }

  lemma CollectStart(e: set<Edge>, start: Node, seen0: set<Node>)
    requires start !in seen0
    ensures Collecting(e, start, seen0, seen0 + {start}, [], [start])
  {
    ReachRefl(e, start);
  }

  method Dfs2(gr: Adjacency, ghost e: set<Edge>, start: Node, seen0: set<Node>)
    returns (comp: seq<Node>, seen: set<Node>)
    requires Predecessors(gr, e, gr.Keys) && start in gr && start !in seen0 && seen0 <= gr.Keys
    ensures Collecting(e, start, seen0, seen, comp, [])
    ensures PredecessorsSeen(e, comp, seen) && seen <= gr.Keys
  {
    comp := [];
    var stack := [start];
    seen := seen0 + {start};
    CollectStart(e, start, seen0);
    hide Collecting, IsPath, Distinct;
    while |stack| > 0
      invariant Collecting(e, start, seen0, seen, comp, stack)
      invariant PredecessorsSeen(e, comp, seen)
      invariant seen <= gr.Keys && forall x :: x in stack ==> x in gr
      decreases gr.Keys - seen, |stack|
    {
      var top := |stack| - 1;
      var u := stack[top];
      CollectPop(e, start, seen0, seen, comp, stack);
      stack := stack[..top];
      ghost var before, seen1 := comp, seen;
      comp := comp + [u];
      for j := 0 to |gr[u]|
        invariant Collecting(e, start, seen0, seen, comp, stack)
        invariant seen1 <= seen <= gr.Keys && forall x :: x in stack ==> x in gr
        invariant seen == seen1 ==> |stack| == top
        invariant forall k :: 0 <= k < j ==> gr[u][k] in seen
      {
        var v := gr[u][j];
        if v !in seen {
          assert (v, u) in e && v in Endpoints(e);
          CollectPush(e, start, seen0, seen, comp, stack, u, v);
          seen := seen + {v};
          stack := stack + [v];
        }
      }
      assert PredecessorsSeen(e, before, seen);
      CollectDone(gr, e, before, u, seen);
    }
  }

  ghost predicate IsComponent(e: set<Edge>, comp: seq<Node>)
  {
    comp != [] && Distinct(comp) && forall x, y :: x in comp ==> (y in comp <==> Mutual(e, x, y))
  }

  ghost function Union(comps: seq<seq<Node>>): set<Node>
  {
    set k, x | 0 <= k < |comps| && x in comps[k] :: x
  }

  lemma UnionStep(comps: seq<seq<Node>>, c: seq<Node>)
    ensures Union(comps + [c]) == Union(comps) + Elems(c)
  {
    var all := comps + [c];
    forall x | x in Union(comps) + Elems(c) ensures x in Union(all) {
      if x in c {
        assert x in all[|comps|];
      } else {
        var k :| 0 <= k < |comps| && x in comps[k];
        assert x in all[k];
      }
    }
  }

  /** The lists are exactly the strongly connected components of `nodes`, each edge that
      leaves a list enters a later one, and no two lists share a node. */
  ghost predicate Condensation(e: set<Edge>, nodes: set<Node>, comps: seq<seq<Node>>)
  {
    && Union(comps) == nodes
    && (forall k :: 0 <= k < |comps| ==> IsComponent(e, comps[k]))
    && (forall a, b, x :: 0 <= a < |comps| && 0 <= b < |comps| && x in comps[a] && x in comps[b] ==> a == b)
    && (forall a, b, x, y :: 0 <= a < |comps| && 0 <= b < |comps| && x in comps[a] && y in comps[b] && (x, y) in e ==> a <= b)
  }

  /** The tree collected from the latest unseen finisher is exactly its component. */
  lemma TreeIsComponent(e: set<Edge>, order: seq<Node>, n: nat, seen0: set<Node>, comp: seq<Node>)
    requires FinishingOrder(e, order) && n < |order| && ClosedUnder(e, Elems(order), Elems(order))
    requires forall j :: n < j < |order| ==> order[j] in seen0
    requires forall x, y :: x in seen0 && Mutual(e, x, y) ==> y in seen0
    requires Collecting(e, order[n], seen0, seen0 + Elems(comp), comp, []) && Elems(comp) <= Elems(order)
    requires PredecessorsSeen(e, comp, seen0 + Elems(comp))
    ensures IsComponent(e, comp)
  {
    var r := order[n];
    forall x | x in comp ensures Mutual(e, x, r) {
      assert x in Elems(comp);
      var j := ComponentFinishesLater(e, order, x, n);
      if j > n {
        assert Mutual(e, order[j], x);
        assert false;
      }
    }
    forall y | Mutual(e, r, y) ensures y in comp {
      var p :| IsPathFrom(e, p, y, r);
      BackwardClosed(e, p, r, seen0, Elems(comp));
    }
    forall x, y | x in comp ensures y in comp <==> Mutual(e, x, y) {
      if y in comp { MutualTrans(e, x, r, y); }
      if Mutual(e, x, y) { MutualTrans(e, r, x, y); }
    }
  }

  /** Walking a path back from the component never meets a node seen earlier. */
  lemma {:induction false} BackwardClosed(e: set<Edge>, p: seq<Node>, r: Node, seen0: set<Node>, comp: set<Node>)
    requires IsPath(e, p) && p[|p| - 1] == r && r in comp && seen0 !! comp
    requires Reach(e, r, p[0])
    requires forall x, y :: x in seen0 && Mutual(e, x, y) ==> y in seen0
    requires forall v, x :: x in comp && (v, x) in e ==> v in seen0 + comp
    ensures p[0] in comp
    decreases |p|
  {
    if |p| > 1 {
      var q := p[1..];
      Tail(e, p);
      assert (p[0], p[1]) in e;
      ReachEdge(e, p[0], p[1]);
      ReachTrans(e, r, p[0], p[1]);
      BackwardClosed(e, q, r, seen0, comp);
      SubPath(e, p, 0, |p| - 1);
      if p[0] in seen0 {
        assert Mutual(e, p[0], r);
        assert false;
      }
    }
  }

  /** What the second pass keeps: whole components, pairwise disjoint, every predecessor
      of a list in that list or an earlier one. */
  ghost predicate Collected(e: set<Edge>, comps: seq<seq<Node>>, seen: set<Node>)
  {
    && seen == Union(comps)
    && (forall x, y :: x in seen && Mutual(e, x, y) ==> y in seen)
    && (forall k :: 0 <= k < |comps| ==> IsComponent(e, comps[k]))
    && (forall a, b, x :: 0 <= a < |comps| && 0 <= b < |comps| && x in comps[a] && x in comps[b] ==> a == b)
    && (forall a, b, x, y :: 0 <= a < |comps| && 0 <= b < |comps| && x in comps[a] && y in comps[b] && (x, y) in e ==> a <= b)
    && (forall v, x :: x in seen && (v, x) in e ==> v in seen)
  }

  lemma CollectedStep(e: set<Edge>, comps: seq<seq<Node>>, seen: set<Node>, comp: seq<Node>)
    requires Collected(e, comps, seen) && IsComponent(e, comp) && seen !! Elems(comp)
    requires PredecessorsSeen(e, comp, seen + Elems(comp))
    ensures Collected(e, comps + [comp], seen + Elems(comp))
  {
    UnionStep(comps, comp);
    var all := comps + [comp];
    assert forall x :: x in comp <==> x in Elems(comp);
    forall k, x | 0 <= k < |comps| && x in comps[k] ensures x in seen {
      assert x in Union(comps);
    }
    hide Union, Elems;
    forall x, y | x in seen + Elems(comp) && Mutual(e, x, y) ensures y in seen + Elems(comp) {
    }
    forall a, b, x | 0 <= a < |all| && 0 <= b < |all| && x in all[a] && x in all[b] ensures a == b {
      assert a < |comps| ==> x in seen;
      assert b < |comps| ==> x in seen;
    }
    forall a, b, x, y | 0 <= a < |all| && 0 <= b < |all| && x in all[a] && y in all[b] && (x, y) in e
      ensures a <= b
    {
      assert b < |comps| ==> x in seen;
    }
  }

  method SecondPass(gr: Adjacency, ghost e: set<Edge>, order: seq<Node>) returns (comps: seq<seq<Node>>)
    requires Predecessors(gr, e, gr.Keys) && Elems(order) == gr.Keys
    requires FinishingOrder(e, order) && ClosedUnder(e, Elems(order), Elems(order))
    ensures Condensation(e, gr.Keys, comps)
  {
    comps := [];
    var seen2: set<Node> := {};
    var i := |order|;
    assert Collected(e, comps, seen2);
    hide IsComponent, FinishingOrder, ClosedUnder, Predecessors, Union, PredecessorsSeen, Distinct;
    while i > 0
      invariant 0 <= i <= |order| && seen2 <= gr.Keys
      invariant forall j :: i <= j < |order| ==> order[j] in seen2
      invariant Collected(e, comps, seen2)
    {
      i := i - 1;
      if order[i] !in seen2 {
        assert order[i] in Elems(order);
        var comp, seen := Dfs2(gr, e, order[i], seen2);
        assert seen == seen2 + Elems(comp);
        TreeIsComponent(e, order, i, seen2, comp);
        CollectedStep(e, comps, seen2, comp);
        comps := comps + [comp];
        seen2 := seen;
      }
    }
    assert forall x :: x in gr.Keys ==> x in Elems(order);
  }

  /** The strongly connected components of the graph with these nodes and edges; the
      order in which a start node is taken from the dictionary is left open. */
  method StronglyConnected(nodes: set<Node>, edges: seq<Edge>) returns (comps: seq<seq<Node>>)
    ensures Condensation(EdgeSet(edges), nodes + Endpoints(EdgeSet(edges)), comps)
  {
    var g, gr := BuildAdjacency(nodes, edges);
    ghost var e := EdgeSet(edges);
    var seen: set<Node> := {};
    var order: seq<Node> := [];
    var rest := g.Keys;
    while rest != {}
      invariant rest <= g.Keys && g.Keys - rest <= seen <= g.Keys
      invariant Searching(g, e, seen, order, [])
      decreases rest
    {
      var n :| n in rest;
      rest := rest - {n};
      if n !in seen {
        seen, order := Dfs1(g, e, n, seen, order);
      }
    }
    comps := SecondPass(gr, e, order);
  }

  // ----- what the lists mean to a reader of the cycle hints -----

  /** Two nodes share a list exactly when each reaches the other. */
  lemma SameListIffMutual(e: set<Edge>, nodes: set<Node>, comps: seq<seq<Node>>, x: Node, y: Node)
    requires Condensation(e, nodes, comps) && x in nodes
    ensures (exists k :: 0 <= k < |comps| && x in comps[k] && y in comps[k]) <==> Mutual(e, x, y)
  {
    assert x in Union(comps);
    var k :| 0 <= k < |comps| && x in comps[k];
  }

  /** No edge leads back to an earlier list, so reachability never goes backwards. */
  lemma {:induction false} ReachGoesForward(e: set<Edge>, nodes: set<Node>, comps: seq<seq<Node>>, p: seq<Node>, a: nat, b: nat)
    requires Condensation(e, nodes, comps) && Endpoints(e) <= nodes
    requires IsPath(e, p) && a < |comps| && b < |comps| && p[0] in comps[a] && p[|p| - 1] in comps[b]
    ensures a <= b
    decreases |p|
  {
    if |p| > 1 {
      var q := p[1..];
      Tail(e, p);
      assert (p[0], p[1]) in e && p[1] in Endpoints(e);
      assert p[1] in Union(comps);
      var c :| 0 <= c < |comps| && p[1] in comps[c];
      ReachGoesForward(e, nodes, comps, q, c, b);
    }
  }
}
