/** The bounded backtracking search for a directed simple cycle, and what the component
    lists of the cycle hints say about it. */
module CycleSearch {
  import opened Lists
  import opened Lex
  import opened Graphs
  import K = Kosaraju

  /** `c` is a simple directed cycle, written without repeating its first node. */
  ghost predicate IsCycle(e: set<Edge>, c: seq<Node>)
  {
    IsPath(e, c) && Distinct(c) && (c[|c| - 1], c[0]) in e
  }

  ghost predicate Eligible(e: set<Edge>, lo: int, hi: int, c: seq<Node>)
  {
    lo <= |c| <= hi && IsCycle(e, c)
  }

  /** In full: between `lo` and `hi` different nodes, each joined to the next one round. */
  lemma EligibleIff(e: set<Edge>, lo: int, hi: int, c: seq<Node>)
    ensures Eligible(e, lo, hi, c) <==>
              && c != [] && lo <= |c| <= hi
              && (forall i, j :: 0 <= i < j < |c| ==> c[i] != c[j])
              && (forall i, j :: 0 <= i < |c| && 0 <= j < |c| && (j == i + 1 || (j == 0 && i == |c| - 1)) ==> (c[i], c[j]) in e)
  {
  }

  /** The cycle walked all the way round. */
  ghost function Closed(c: seq<Node>): seq<Node>
    requires |c| > 0
  {
    c + [c[0]]
  }

  /** Lexicographic order on node lists: equal, or smaller at the first difference. */
  ghost predicate Precedes(a: seq<Node>, b: seq<Node>)
  {
    a == b || exists k :: DiffersAt(a, b, k)
  }

  ghost predicate DiffersAt(a: seq<Node>, b: seq<Node>, k: nat)
  {
    k < |a| && k < |b| && a[..k] == b[..k] && Less(a[k], b[k])
  }

  /** `c` is eligible and, walked round, comes first among all eligible cycles. */
  ghost predicate IsLeastCycle(e: set<Edge>, lo: int, hi: int, c: seq<Node>)
  {
    && Eligible(e, lo, hi, c) && |c| > 0
    && forall d :: Eligible(e, lo, hi, d) && |d| > 0 ==> Precedes(Closed(c), Closed(d))
  }

  /** `adj` lists the successors of every node that has one, in increasing order. */
  ghost predicate SortedSuccessors(adj: map<Node, seq<Node>>, e: set<Edge>)
  {
    && (forall u :: u in adj ==> Increasing(adj[u]))
    && (forall u, v :: u in adj && v in adj[u] ==> (u, v) in e)
    && (forall u, v :: (u, v) in e ==> u in adj && v in adj[u])
  }

  /** No eligible cycle continues `path` by one of `tried`. */
  ghost predicate Exhausted(e: set<Edge>, lo: int, hi: int, path: seq<Node>, tried: seq<Node>)
    requires |path| > 0
  {
    forall c :: Eligible(e, lo, hi, c) && path <= c ==> Closed(c)[|path|] !in tried
  }

  /** The state a call of the search works on: the walk so far and its node set. */
  ghost predicate OnWalk(e: set<Edge>, path: seq<Node>, visited: set<Node>)
  {
    IsPath(e, path) && Distinct(path) && visited == Elems(path)
  }

  /** The next node of an eligible continuation is always a successor of the current one. */
  lemma NextIsSuccessor(adj: map<Node, seq<Node>>, e: set<Edge>, lo: int, hi: int, path: seq<Node>, c: seq<Node>)
    requires SortedSuccessors(adj, e) && |path| > 0 && Eligible(e, lo, hi, c) && path <= c
    ensures path[|path| - 1] in adj && Closed(c)[|path|] in adj[path[|path| - 1]]
  {
    var n := |path|;
    assert c[n - 1] == path[n - 1];
    if n < |c| {
      assert (c[n - 1], c[n]) in e;
    }
  }

  /** Closing the walk here beats every other eligible continuation still open. */
  lemma CloseIsLeast(e: set<Edge>, lo: int, hi: int, adj: map<Node, seq<Node>>, path: seq<Node>, i: nat)
    requires SortedSuccessors(adj, e) && |path| > 0 && path[|path| - 1] in adj
    requires i < |adj[path[|path| - 1]]| && adj[path[|path| - 1]][i] == path[0]
    requires Exhausted(e, lo, hi, path, adj[path[|path| - 1]][..i])
    ensures forall c :: Eligible(e, lo, hi, c) && path <= c ==> Precedes(Closed(path), Closed(c))
  {
    var nbrs, n := adj[path[|path| - 1]], |path|;
    forall c | Eligible(e, lo, hi, c) && path <= c ensures Precedes(Closed(path), Closed(c)) {
      NextIsSuccessor(adj, e, lo, hi, path, c);
      var j :| 0 <= j < |nbrs| && nbrs[j] == Closed(c)[n];
      assert j >= i by { assert forall k :: 0 <= k < i ==> nbrs[k] in nbrs[..i]; }
      if j == i {
        assert n == |c|;
        assert c == path;
      } else {
        assert Closed(path)[..n] == Closed(c)[..n];
        assert DiffersAt(Closed(path), Closed(c), n);
      }
    }
  }

  /** A cycle found below the `i`-th successor beats every continuation still open. */
  lemma FoundIsLeast(e: set<Edge>, lo: int, hi: int, adj: map<Node, seq<Node>>, path: seq<Node>, i: nat, r: seq<Node>)
    requires SortedSuccessors(adj, e) && |path| > 0 && path[|path| - 1] in adj
    requires i < |adj[path[|path| - 1]]|
    requires Exhausted(e, lo, hi, path, adj[path[|path| - 1]][..i])
    requires path + [adj[path[|path| - 1]][i]] <= r
    requires forall c :: Eligible(e, lo, hi, c) && path + [adj[path[|path| - 1]][i]] <= c ==> Precedes(Closed(r), Closed(c))
    requires adj[path[|path| - 1]][i] != path[0]
    ensures forall c :: Eligible(e, lo, hi, c) && path <= c ==> Precedes(Closed(r), Closed(c))
  {
    var nbrs, n := adj[path[|path| - 1]], |path|;
    forall c | Eligible(e, lo, hi, c) && path <= c ensures Precedes(Closed(r), Closed(c)) {
      NextIsSuccessor(adj, e, lo, hi, path, c);
      var j :| 0 <= j < |nbrs| && nbrs[j] == Closed(c)[n];
      assert j >= i by { assert forall k :: 0 <= k < i ==> nbrs[k] in nbrs[..i]; }
      if j == i {
        assert n < |c| && path + [nbrs[i]] <= c;
      } else {
        assert Closed(r)[n] == nbrs[i];
        assert Closed(r)[..n] == path == Closed(c)[..n];
        assert DiffersAt(Closed(r), Closed(c), n);
      }
    }
  }

  /** A node already on the walk can only close it, and only when the walk is long enough. */
  lemma SkipVisited(e: set<Edge>, lo: int, hi: int, path: seq<Node>, visited: set<Node>, nbrs: seq<Node>, i: nat)
    requires OnWalk(e, path, visited) && i < |nbrs| && nbrs[i] in visited
    requires Exhausted(e, lo, hi, path, nbrs[..i])
    requires nbrs[i] == path[0] ==> |path| < lo
    ensures Exhausted(e, lo, hi, path, nbrs[..i + 1])
  {
    var n := |path|;
    forall c | Eligible(e, lo, hi, c) && path <= c ensures Closed(c)[n] !in nbrs[..i + 1] {
      assert nbrs[..i + 1] == nbrs[..i] + [nbrs[i]];
      assert forall m :: 0 <= m < n ==> c[m] == path[m];
      assert n < |c| ==> c[n] !in path;
      assert n == |c| ==> c == path;
    }
  }

  lemma SkipFailed(e: set<Edge>, lo: int, hi: int, path: seq<Node>, nbrs: seq<Node>, i: nat)
    requires |path| > 0 && i < |nbrs| && nbrs[i] != path[0]
    requires Exhausted(e, lo, hi, path, nbrs[..i])
    requires forall c :: Eligible(e, lo, hi, c) ==> !(path + [nbrs[i]] <= c)
    ensures Exhausted(e, lo, hi, path, nbrs[..i + 1])
  {
    var n, nxt := |path|, nbrs[i];
    forall c | Eligible(e, lo, hi, c) && path <= c ensures Closed(c)[n] !in nbrs[..i + 1] {
      assert nbrs[..i + 1] == nbrs[..i] + [nxt];
      assert n < |c| && c[n] == nxt ==> path + [nxt] <= c;
      assert n == |c| ==> Closed(c)[n] == path[0];
    }
  }

  lemma Extend(e: set<Edge>, path: seq<Node>, visited: set<Node>, nxt: Node)
    requires OnWalk(e, path, visited) && nxt !in visited && (path[|path| - 1], nxt) in e
    ensures OnWalk(e, path + [nxt], visited + {nxt})
    ensures (path + [nxt])[..|path|] == path && visited + {nxt} - {nxt} == visited
  {
    assert Elems(path + [nxt]) == Elems(path) + {nxt};
  }

  class Search {
    const adj: map<Node, seq<Node>>
    const minLen: int
    const maxLen: int
    var path: seq<Node>
    var visited: set<Node>

    constructor (adj: map<Node, seq<Node>>, minLen: int, maxLen: int)
      ensures this.adj == adj && this.minLen == minLen && this.maxLen == maxLen
    {
      this.adj, this.minLen, this.maxLen := adj, minLen, maxLen;
      path, visited := [], {};
    }

    /** Extends the shared walk depth first. On success the walk itself is the least
        eligible cycle that continues it; on failure the walk and the visited set are
        restored and no eligible cycle continues it. */
    method Dfs(ghost e: set<Edge>, start: Node, current: Node) returns (found: bool)
      requires SortedSuccessors(adj, e) && 3 <= minLen <= maxLen
      requires OnWalk(e, path, visited) && path[0] == start && path[|path| - 1] == current
      requires |path| <= maxLen + 1
      modifies this
      ensures !found ==> path == old(path) && visited == old(visited)
      ensures !found ==> forall c :: Eligible(e, minLen, maxLen, c) ==> !(old(path) <= c)
      ensures found ==> Eligible(e, minLen, maxLen, path) && old(path) <= path
      ensures found ==> forall c :: Eligible(e, minLen, maxLen, c) && old(path) <= c ==> Precedes(Closed(path), Closed(c))
      decreases maxLen + 1 - |path|
    {
      if |path| > maxLen { return false; }
      ghost var walk := path;
      var nbrs := if current in adj then adj[current] else [];
      assert forall i :: 0 <= i < |nbrs| ==> (current, nbrs[i]) in e;
      assert |walk| > 0;
      hide *;
      assert Exhausted(e, minLen, maxLen, walk, nbrs[..0]) by { NothingTried(e, minLen, maxLen, walk); assert nbrs[..0] == []; }
      for i := 0 to |nbrs|
        invariant path == walk && visited == old(visited)
        invariant Exhausted(e, minLen, maxLen, walk, nbrs[..i])
      {
        var nxt := nbrs[i];
        if nxt == start && |path| >= minLen {
          CloseIsLeast(e, minLen, maxLen, adj, walk, i);
          ClosesWalk(e, minLen, maxLen, walk, visited, start);
          return true;
        }
        if nxt in visited {
          SkipVisited(e, minLen, maxLen, walk, visited, nbrs, i);
        } else {
          Extend(e, path, visited, nxt);
          StartVisited(e, walk, visited);
          visited := visited + {nxt};
          path := path + [nxt];
          found := Dfs(e, start, nxt);
          if found {
            FoundIsLeast(e, minLen, maxLen, adj, walk, i, path);
            return true;
          }
          SkipFailed(e, minLen, maxLen, walk, nbrs, i);
          path := path[..|path| - 1];
          visited := visited - {nxt};
        }
      }
      assert nbrs[..|nbrs|] == nbrs;
      NoneContinues(adj, e, minLen, maxLen, walk);
      return false;
    }
  }

  lemma NothingTried(e: set<Edge>, lo: int, hi: int, walk: seq<Node>)
    requires |walk| > 0
    ensures Exhausted(e, lo, hi, walk, [])
  {
  }

  lemma NoneContinues(adj: map<Node, seq<Node>>, e: set<Edge>, lo: int, hi: int, walk: seq<Node>)
    requires SortedSuccessors(adj, e) && |walk| > 0
    requires Exhausted(e, lo, hi, walk, if walk[|walk| - 1] in adj then adj[walk[|walk| - 1]] else [])
    ensures forall c :: Eligible(e, lo, hi, c) ==> !(walk <= c)
  {
    forall c | Eligible(e, lo, hi, c) ensures !(walk <= c) {
      if walk <= c {
        NextIsSuccessor(adj, e, lo, hi, walk, c);
      }
    }
  }

  lemma ClosesWalk(e: set<Edge>, lo: int, hi: int, path: seq<Node>, visited: set<Node>, start: Node)
    requires OnWalk(e, path, visited) && path[0] == start && lo <= |path| <= hi
    requires (path[|path| - 1], start) in e
    ensures Eligible(e, lo, hi, path)
  {
  }

  lemma StartVisited(e: set<Edge>, path: seq<Node>, visited: set<Node>)
    requires OnWalk(e, path, visited)
    ensures path[0] in visited
  {
  }

  datatype Outcome =
    | Found(cycle: seq<Node>)
    | MinTooSmall
    | MaxBelowMin
    | NoCycle

  method SortedAdjacency(edges: seq<Edge>) returns (adj: map<Node, seq<Node>>, nodes: seq<Node>)
    ensures SortedSuccessors(adj, EdgeSet(edges))
    ensures Increasing(nodes) && forall x :: x in nodes <==> x in adj
  {
    var raw: map<Node, seq<Node>> := map[];
    for i := 0 to |edges|
      invariant forall u, v :: u in raw && v in raw[u] ==> (u, v) in EdgeSet(edges)
      invariant forall j :: 0 <= j < i ==> edges[j].0 in raw && edges[j].1 in raw[edges[j].0]
    {
      var (s, t) := edges[i];
      assert (s, t) in EdgeSet(edges);
      raw := raw[s := ListAt(raw, s) + [t]];
    }
    nodes := Sorted(raw.Keys);
    adj := map s | s in raw :: Sorted(set t | t in raw[s]);
  }

  /** Returns the least cycle of an admissible length, and fails only when there is none. */
  method FindDirectedCycle(edges: seq<Edge>, minLen: int, maxLen: int) returns (r: Outcome)
    ensures r.MinTooSmall? <==> minLen < 3
    ensures r.MaxBelowMin? <==> minLen >= 3 && maxLen < minLen
    ensures r.NoCycle? <==> 3 <= minLen <= maxLen && forall c :: !Eligible(EdgeSet(edges), minLen, maxLen, c)
    ensures r.Found? ==> IsLeastCycle(EdgeSet(edges), minLen, maxLen, r.cycle)
  {
    if minLen < 3 { return MinTooSmall; }
    if maxLen < minLen { return MaxBelowMin; }
    ghost var e := EdgeSet(edges);
    var adj, nodes := SortedAdjacency(edges);
    var search := new Search(adj, minLen, maxLen);
    hide SortedSuccessors, Precedes, IsCycle, EdgeSet;
    for i := 0 to |nodes|
      invariant search.adj == adj && search.minLen == minLen && search.maxLen == maxLen
      invariant fresh(search)
      invariant forall c :: Eligible(e, minLen, maxLen, c) ==> c[0] !in nodes[..i]
    {
      var start := nodes[i];
      search.path, search.visited := [start], {start};
      SingleWalk(e, start);
      var found := search.Dfs(e, start, start);
      if found {
        assert search.path[0] == [start][0];
        LeastOverStarts(e, minLen, maxLen, adj, nodes, i, search.path);
        return Found(search.path);
      }
      forall c | Eligible(e, minLen, maxLen, c) ensures c[0] !in nodes[..i + 1] {
        assert nodes[..i + 1] == nodes[..i] + [start];
        assert c[0] == start ==> [start] <= c;
      }
    }
    assert nodes[..|nodes|] == nodes;
    forall c | Eligible(e, minLen, maxLen, c) ensures false {
      FirstHasSuccessor(adj, e, minLen, maxLen, c);
    }
    return NoCycle;
  }

  lemma SingleWalk(e: set<Edge>, start: Node)
    ensures OnWalk(e, [start], {start})
  {
  }

  lemma FirstHasSuccessor(adj: map<Node, seq<Node>>, e: set<Edge>, lo: int, hi: int, c: seq<Node>)
    requires SortedSuccessors(adj, e) && Eligible(e, lo, hi, c)
    ensures c[0] in adj
  {
    if |c| > 1 { assert (c[0], c[1]) in e; }
  }

  lemma LeastOverStarts(e: set<Edge>, lo: int, hi: int, adj: map<Node, seq<Node>>, nodes: seq<Node>, i: nat, r: seq<Node>)
    requires SortedSuccessors(adj, e) && Increasing(nodes) && (forall x :: x in nodes <==> x in adj) && i < |nodes|
    requires forall c :: Eligible(e, lo, hi, c) ==> c[0] !in nodes[..i]
    requires Eligible(e, lo, hi, r) && r[0] == nodes[i]
    requires forall c :: Eligible(e, lo, hi, c) && [nodes[i]] <= c ==> Precedes(Closed(r), Closed(c))
    ensures IsLeastCycle(e, lo, hi, r)
  {
    forall d | Eligible(e, lo, hi, d) && |d| > 0 ensures Precedes(Closed(r), Closed(d)) {
      FirstHasSuccessor(adj, e, lo, hi, d);
      var j :| 0 <= j < |nodes| && nodes[j] == d[0];
      assert j >= i by { assert forall k :: 0 <= k < i ==> nodes[k] in nodes[..i]; }
      if j == i {
        assert [nodes[i]] <= d;
      } else {
        assert DiffersAt(Closed(r), Closed(d), 0);
      }
    }
  }

  // ----- consequences -----

  lemma OneFirstDifference(a: seq<Node>, b: seq<Node>, k: nat, m: nat)
    ensures !(DiffersAt(a, b, k) && DiffersAt(b, a, m))
  {
    if k < |a| && k < |b| && m < |a| && m < |b| {
      Trichotomy(a[k], b[k]);
      assert k < m ==> a[..m][k] == a[k] && b[..m][k] == b[k];
      assert m < k ==> a[..k][m] == a[m] && b[..k][m] == b[m];
      Trichotomy(a[m], b[m]);
    }
  }

  /** The result is a function of the edge set and the bounds: order and duplicates of the
      input cannot change it. */
  lemma LeastCycleUnique(e: set<Edge>, lo: int, hi: int, c: seq<Node>, d: seq<Node>)
    requires IsLeastCycle(e, lo, hi, c) && IsLeastCycle(e, lo, hi, d)
    ensures c == d
  {
    var a, b := Closed(c), Closed(d);
    if a != b {
      var k: nat :| DiffersAt(a, b, k);
      var m: nat :| DiffersAt(b, a, m);
      OneFirstDifference(a, b, k, m);
    }
    assert a[..|a| - 1] == c && b[..|b| - 1] == d;
  }

  /** A cycle may be started at any of its nodes. */
  lemma Rotate(e: set<Edge>, lo: int, hi: int, c: seq<Node>, i: nat)
    requires Eligible(e, lo, hi, c) && i < |c|
    ensures Eligible(e, lo, hi, c[i..] + c[..i])
  {
    var r := c[i..] + c[..i];
    var n := |c|;
    forall k | 0 <= k < n - 1 ensures (r[k], r[k + 1]) in e {
      if k + i + 1 < n {
        assert (c[k + i], c[k + i + 1]) in e;
      } else if k + i >= n {
        assert (c[k + i - n], c[k + i - n + 1]) in e;
      }
    }
    assert (r[n - 1], r[0]) in e by {
      if i > 0 { assert (c[i - 1], c[i]) in e; }
    }
  }

  /** The search starts its cycle at the least node lying on any eligible cycle. */
  lemma StartsAtLeastNode(e: set<Edge>, lo: int, hi: int, c: seq<Node>, d: seq<Node>, i: nat)
    requires IsLeastCycle(e, lo, hi, c) && Eligible(e, lo, hi, d) && i < |d|
    ensures Leq(c[0], d[i])
  {
    Rotate(e, lo, hi, d, i);
    var r := d[i..] + d[..i];
    var a, b := Closed(c), Closed(r);
    assert Precedes(a, b) && b[0] == d[i];
    if a != b {
      var k: nat :| DiffersAt(a, b, k);
      assert k > 0 ==> a[..k][0] == b[..k][0];
    }
  }

  lemma CycleIsMutual(e: set<Edge>, c: seq<Node>, i: nat)
    requires IsCycle(e, c) && i < |c|
    ensures Mutual(e, c[0], c[i])
  {
    SubPath(e, c, 0, i);
    SubPath(e, c, i, |c| - 1);
    ReachEdge(e, c[|c| - 1], c[0]);
    ReachTrans(e, c[i], c[|c| - 1], c[0]);
  }

  /** Every cycle lies inside one component list, which is therefore at least as long. */
  lemma CycleInsideComponent(e: set<Edge>, nodes: set<Node>, comps: seq<seq<Node>>, c: seq<Node>) returns (k: nat)
    requires K.Condensation(e, nodes, comps) && Endpoints(e) <= nodes && IsCycle(e, c)
    ensures k < |comps| && (forall x :: x in c ==> x in comps[k]) && |c| <= |comps[k]|
  {
    assert c[0] in Endpoints(e) by {
      assert (c[|c| - 1], c[0]) in e;
    }
    assert c[0] in K.Union(comps);
    k :| 0 <= k < |comps| && c[0] in comps[k];
    assert K.IsComponent(e, comps[k]);
    forall x | x in c ensures x in comps[k] {
      var i :| 0 <= i < |c| && c[i] == x;
      CycleIsMutual(e, c, i);
    }
    ElemsSize(c);
    ElemsSize(comps[k]);
    SubsetSize(Elems(c), Elems(comps[k]));
  }

  // ----- what the component sizes say about cycles -----

  ghost predicate CycleWithin(e: set<Edge>, lo: int, hi: int)
  {
    exists c :: Eligible(e, lo, hi, c)
  }

  /** A walk back from the head of an edge to its tail that is not just the reverse edge. */
  ghost predicate Detour(e: set<Edge>, x: Node, z: Node, p: seq<Node>)
  {
    (x, z) in e && x != z && IsPathFrom(e - {(z, x)}, p, z, x)
  }

  /** Some edge has a detour of at most `hi` nodes. */
  ghost predicate DetourWithin(e: set<Edge>, hi: int)
  {
    exists x, z, p :: Detour(e, x, z, p) && |p| <= hi
  }

  /** Some edge's ends reach each other without its reverse. */
  ghost predicate HasDetour(e: set<Edge>)
  {
    exists x, z, p :: Detour(e, x, z, p)
  }

  lemma DetourGivesCycle(e: set<Edge>, x: Node, z: Node, p: seq<Node>) returns (c: seq<Node>)
    requires Detour(e, x, z, p)
    ensures IsCycle(e, c) && 3 <= |c| <= |p|
  {
    c := CutLoops(e - {(z, x)}, p);
    assert (c[0], c[1]) in e - {(z, x)};
    forall i | 0 <= i < |c| - 1 ensures (c[i], c[i + 1]) in e {
      assert (c[i], c[i + 1]) in e - {(z, x)};
    }
  }

  lemma CycleGivesDetour(e: set<Edge>, c: seq<Node>)
    requires IsCycle(e, c) && |c| >= 3
    ensures Detour(e, c[0], c[1], c[1..] + [c[0]])
  {
    var p := c[1..] + [c[0]];
    forall i | 0 <= i < |p| - 1 ensures (p[i], p[i + 1]) in e - {(c[1], c[0])} {
      if i < |c| - 2 { assert (c[i + 1], c[i + 2]) in e; }
    }
    assert (c[0], c[1]) in e;
  }

  /** A cycle of at least three and at most `hi` nodes exists exactly when some edge has a
      detour of at most `hi` nodes. */
  lemma CycleIffDetour(e: set<Edge>, hi: int)
    ensures CycleWithin(e, 3, hi) <==> DetourWithin(e, hi)
  {
    if CycleWithin(e, 3, hi) {
      var c :| Eligible(e, 3, hi, c);
      CycleGivesDetour(e, c);
    }
    if DetourWithin(e, hi) {
      var x, z, p :| Detour(e, x, z, p) && |p| <= hi;
      var c := DetourGivesCycle(e, x, z, p);
      assert Eligible(e, 3, hi, c);
    }
  }

  /** With room for the largest component the length does not matter. */
  lemma RoomyCycleIffDetour(e: set<Edge>, maxScc: int, hi: int)
    requires hi >= maxScc && forall c :: IsCycle(e, c) ==> |c| <= maxScc
    ensures CycleWithin(e, 3, hi) <==> HasDetour(e)
  {
    CycleIffDetour(e, hi);
    if HasDetour(e) {
      var x, z, p :| Detour(e, x, z, p);
      var c := DetourGivesCycle(e, x, z, p);
      assert Eligible(e, 3, hi, c);
    }
  }

  /** No edge has its reverse beside it; in particular no edge is a loop. */
  ghost predicate OneWay(e: set<Edge>)
  {
    forall x, y :: (x, y) in e ==> (y, x) !in e
  }

  /** Without two-way edges every component of more than one node has a detour. */
  lemma OneWayComponentHasDetour(e: set<Edge>, comp: seq<Node>)
    requires OneWay(e) && K.IsComponent(e, comp) && |comp| >= 2
    ensures HasDetour(e)
  {
    var x, y := comp[0], comp[1];
    assert x in comp && y in comp && Mutual(e, x, y);
    var p :| IsPathFrom(e, p, x, y);
    Tail(e, p);
    var z := p[1];
    assert IsPathFrom(e, p[1..], z, y);
    ReachTrans(e, z, y, x);
    var back :| IsPathFrom(e, back, z, x);
    assert e - {(z, x)} == e;
    assert Detour(e, x, z, back);
  }

  datatype CycleHint = CycleHint(nodes: nat, edges: nat, maxScc: nat, sccGe3: bool, sccGe4: bool)

  /** The hint for one equivalent. A false `sccGe3` proves that the cycle search fails for
      every admissible pair of bounds, and no eligible cycle is longer than `maxScc`. With room
      for the largest component the search from length three succeeds exactly when some edge
      has a detour; without two-way edges that is exactly when `sccGe3` is true. */
  method ComputeHint(edges: seq<Edge>) returns (h: CycleHint)
    ensures !h.sccGe3 ==> forall lo, hi, c :: lo >= 3 ==> !Eligible(EdgeSet(edges), lo, hi, c)
    ensures !h.sccGe4 ==> forall lo, hi, c :: lo >= 4 ==> !Eligible(EdgeSet(edges), lo, hi, c)
    ensures forall c :: IsCycle(EdgeSet(edges), c) ==> |c| <= h.maxScc
    ensures h.sccGe3 <==> h.maxScc >= 3
    ensures h.sccGe4 <==> h.maxScc >= 4
    ensures h.maxScc > 0 ==> exists comp :: |comp| == h.maxScc && K.IsComponent(EdgeSet(edges), comp)
    ensures h.nodes == |Endpoints(EdgeSet(edges))| && h.edges == |edges|
    ensures forall hi :: hi >= h.maxScc ==> (CycleWithin(EdgeSet(edges), 3, hi) <==> HasDetour(EdgeSet(edges)))
    ensures OneWay(EdgeSet(edges)) ==> forall hi :: hi >= h.maxScc ==> (h.sccGe3 <==> CycleWithin(EdgeSet(edges), 3, hi))
  {
    ghost var e := EdgeSet(edges);
    var nodes := Endpoints(EdgeSet(edges));
    var comps := K.StronglyConnected(nodes, edges);
    assert nodes + nodes == nodes;
    var maxScc: nat, ge3, ge4 := 0, false, false;
    for i := 0 to |comps|
      invariant forall k :: 0 <= k < i ==> |comps[k]| <= maxScc
      invariant maxScc > 0 ==> exists k :: 0 <= k < i && |comps[k]| == maxScc
      invariant ge3 <==> maxScc >= 3
      invariant ge4 <==> maxScc >= 4
    {
      if |comps[i]| > maxScc { maxScc := |comps[i]|; }
      ge3 := ge3 || |comps[i]| >= 3;
      ge4 := ge4 || |comps[i]| >= 4;
    }
    forall c | IsCycle(e, c) ensures |c| <= maxScc {
      var k := CycleInsideComponent(e, nodes, comps, c);
    }
    LargestMatters(e, nodes, comps, maxScc);
    h := CycleHint(|nodes|, |edges|, maxScc, ge3, ge4);
  }

  /** When the hint is right about cycles of at least three nodes. */
  lemma LargestMatters(e: set<Edge>, nodes: set<Node>, comps: seq<seq<Node>>, maxScc: nat)
    requires K.Condensation(e, nodes, comps) && (forall c :: IsCycle(e, c) ==> |c| <= maxScc)
    requires maxScc > 0 ==> exists k :: 0 <= k < |comps| && |comps[k]| == maxScc
    ensures forall hi :: hi >= maxScc ==> (CycleWithin(e, 3, hi) <==> HasDetour(e))
    ensures OneWay(e) ==> forall hi :: hi >= maxScc ==> (maxScc >= 3 <==> CycleWithin(e, 3, hi))
  {
    hide HasDetour, OneWay;
    forall hi | hi >= maxScc ensures CycleWithin(e, 3, hi) <==> HasDetour(e) {
      RoomyCycleIffDetour(e, maxScc, hi);
    }
    if OneWay(e) && maxScc >= 3 {
      var k :| 0 <= k < |comps| && |comps[k]| == maxScc;
      OneWayComponentHasDetour(e, comps[k]);
    }
  }

  /** A true `sccGe3` alone promises nothing, for two separate reasons. Here it is two-way
      edges: three nodes joined only by them form one component of size three, and no simple
      cycle of length three or more exists. */
  lemma HintIsNotSufficient(lo: int, hi: int, c: seq<Node>)
    requires lo >= 3
    ensures var e := {("A", "B"), ("B", "A"), ("B", "C"), ("C", "B")};
            K.IsComponent(e, ["A", "B", "C"]) && !Eligible(e, lo, hi, c)
  {
    var e: set<Edge> := {("A", "B"), ("B", "A"), ("B", "C"), ("C", "B")};
    TwoWayComponent(e);
    if |c| >= 3 {
      var x, y, z, w := c[|c| - 1], c[0], c[1], c[2];
      assert IsCycle(e, c) ==> (x, y) in e && (y, z) in e && (z, w) in e && x != z && y != w;
    }
  }

  /** The node after position `i` on the ring. */
  function Successor(nodes: seq<Node>, i: nat): Node
    requires i < |nodes|
  {
    if i + 1 < |nodes| then nodes[i + 1] else nodes[0]
  }

  /** The edges of a ring through these nodes. */
  ghost function RingEdges(nodes: seq<Node>): set<Edge>
  {
    set i | 0 <= i < |nodes| :: (nodes[i], Successor(nodes, i))
  }

  lemma RingIsCycle(nodes: seq<Node>)
    requires nodes != [] && Distinct(nodes)
    ensures IsCycle(RingEdges(nodes), nodes)
  {
    forall i | 0 <= i < |nodes| - 1 ensures (nodes[i], nodes[i + 1]) in RingEdges(nodes) {
      assert nodes[i + 1] == Successor(nodes, i);
    }
    var last := |nodes| - 1;
    assert (nodes[last], Successor(nodes, last)) in RingEdges(nodes);
  }

  lemma RingIsComponent(nodes: seq<Node>)
    requires nodes != [] && Distinct(nodes)
    ensures K.IsComponent(RingEdges(nodes), nodes)
  {
    var e := RingEdges(nodes);
    RingIsCycle(nodes);
    forall x | x in nodes ensures Mutual(e, nodes[0], x) {
      var i :| 0 <= i < |nodes| && nodes[i] == x;
      CycleIsMutual(e, nodes, i);
    }
    forall x, y | x in nodes ensures y in nodes <==> Mutual(e, x, y) {
      if y in nodes { MutualTrans(e, x, nodes[0], y); }
      if Mutual(e, x, y) { StaysOnRing(nodes, x, y); }
    }
  }

  lemma StaysOnRing(nodes: seq<Node>, x: Node, y: Node)
    requires x in nodes && Reach(RingEdges(nodes), x, y)
    ensures y in nodes
  {
    var p :| IsPathFrom(RingEdges(nodes), p, x, y);
    if |p| > 1 {
      var i := |p| - 2;
      assert (p[i], p[i + 1]) in RingEdges(nodes);
    }
  }

  /** A cycle on the ring passes every node of it. */
  lemma {:induction false} RingOrder(nodes: seq<Node>, c: seq<Node>, i: nat)
    requires Distinct(nodes) && IsCycle(RingEdges(nodes), c) && i < |nodes|
    ensures nodes[i] in c
  {
    if i == 0 {
      assert (c[|c| - 1], c[0]) in RingEdges(nodes);
      var k :| 0 <= k < |nodes| && (nodes[k], Successor(nodes, k)) == (c[|c| - 1], c[0]);
      assert nodes[k] in c;
      if nodes[0] !in c { NeverHome(nodes, c, k); }
    } else {
      RingOrder(nodes, c, i - 1);
      NextOnRing(nodes, c, i - 1);
    }
  }

  /** A cycle through a node goes on to the ring's next one. */
  lemma NextOnRing(nodes: seq<Node>, c: seq<Node>, i: nat)
    requires Distinct(nodes) && IsCycle(RingEdges(nodes), c) && i < |nodes| && nodes[i] in c
    ensures Successor(nodes, i) in c
  {
    var e := RingEdges(nodes);
    var j :| 0 <= j < |c| && c[j] == nodes[i];
    var next := c[if j + 1 < |c| then j + 1 else 0];
    assert (c[j], next) in e;
    var k :| 0 <= k < |nodes| && (nodes[k], Successor(nodes, k)) == (c[j], next);
    assert k == i;
  }

  /** A cycle that avoids the first node avoids its predecessor, and so all of them. */
  lemma {:induction false} NeverHome(nodes: seq<Node>, c: seq<Node>, i: nat)
    requires Distinct(nodes) && IsCycle(RingEdges(nodes), c) && i < |nodes| && nodes[0] !in c
    ensures nodes[i] !in c
    decreases |nodes| - i
  {
    if i + 1 < |nodes| { NeverHome(nodes, c, i + 1); }
    if nodes[i] in c { NextOnRing(nodes, c, i); }
  }

  /** The other reason is the cap on the length: a ring is one component without any two-way
      edge, but its only cycle goes all the way round, so with a smaller cap the search fails. */
  lemma LongRingNeedsRoom(nodes: seq<Node>, lo: int, hi: int, c: seq<Node>)
    requires Distinct(nodes) && nodes != [] && hi < |nodes|
    ensures K.IsComponent(RingEdges(nodes), nodes) && !Eligible(RingEdges(nodes), lo, hi, c)
  {
    RingIsComponent(nodes);
    if IsCycle(RingEdges(nodes), c) {
      forall i | 0 <= i < |nodes| ensures nodes[i] in c { RingOrder(nodes, c, i); }
      ElemsSize(nodes);
      ElemsSize(c);
      SubsetSize(Elems(nodes), Elems(c));
    }
  }

  lemma TwoWayComponent(e: set<Edge>)
    requires e == {("A", "B"), ("B", "A"), ("B", "C"), ("C", "B")}
    ensures K.IsComponent(e, ["A", "B", "C"])
  {
    var all := ["A", "B", "C"];
    forall x, y | x in all ensures y in all <==> Mutual(e, x, y) {
      ReachRefl(e, "B");
      ReachEdge(e, "A", "B");
      ReachEdge(e, "B", "A");
      ReachEdge(e, "B", "C");
      ReachEdge(e, "C", "B");
      if y in all { MutualTrans(e, x, "B", y); }
      if Mutual(e, x, y) && y !in all {
        var p :| IsPathFrom(e, p, x, y);
        var i := FirstExit(e, p, {"A", "B", "C"});
        assert false;
      }
    }
  }

  lemma CycleEdgesCharacterise(nodes: seq<Node>, pairs: seq<Edge>)
    requires |nodes| == |pairs| >= 3
    requires forall i :: 0 <= i < |nodes| ==> pairs[i] == (nodes[i], Closed(nodes)[i + 1])
    ensures Distinct(nodes) ==> forall e :: EdgeSet(pairs) <= e <==> IsCycle(e, nodes)
  {
    var n := |nodes|;
    assert forall i :: 0 <= i < n ==> pairs[i] in EdgeSet(pairs);
    forall e | Distinct(nodes) && EdgeSet(pairs) <= e ensures IsCycle(e, nodes) {
      forall i | 0 <= i < n - 1 ensures (nodes[i], nodes[i + 1]) in e {
        assert pairs[i] in EdgeSet(pairs);
      }
      assert pairs[n - 1] in EdgeSet(pairs);
    }
    forall e, x | IsCycle(e, nodes) && x in EdgeSet(pairs) ensures x in e {
      var i :| 0 <= i < n && pairs[i] == x;
      if i < n - 1 { assert (nodes[i], nodes[i + 1]) in e; }
    }
  }

  /** The directed edges round the cycle; fewer than three nodes are refused. */
  method CycleEdges(nodes: seq<Node>) returns (ok: bool, pairs: seq<Edge>)
    ensures ok <==> |nodes| >= 3
    ensures ok ==> |pairs| == |nodes| && forall i :: 0 <= i < |nodes| ==> pairs[i] == (nodes[i], Closed(nodes)[i + 1])
    ensures ok && Distinct(nodes) ==> forall e :: EdgeSet(pairs) <= e <==> IsCycle(e, nodes)
  {
    if |nodes| < 3 { return false, []; }
    pairs := [];
    for i := 0 to |nodes| - 1
      invariant |pairs| == i && forall k :: 0 <= k < i ==> pairs[k] == (nodes[k], nodes[k + 1])
    {
      pairs := pairs + [(nodes[i], nodes[i + 1])];
    }
    pairs := pairs + [(nodes[|nodes| - 1], nodes[0])];
    CycleEdgesCharacterise(nodes, pairs);
    ok := true;
  }
}
