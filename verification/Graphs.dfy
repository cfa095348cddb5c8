/** Finite directed graphs given by their edge sets: paths and reachability. */
module Graphs {
  import opened Lists

  type Node = string
  type Edge = (Node, Node)

  /** `p` is a walk of `e` from its first to its last node; a single node is a walk of length zero. */
  ghost predicate IsPath(e: set<Edge>, p: seq<Node>)
  {
    |p| > 0 && forall i :: 0 <= i < |p| - 1 ==> (p[i], p[i + 1]) in e
  }

  ghost predicate IsPathFrom(e: set<Edge>, p: seq<Node>, u: Node, v: Node)
  {
    IsPath(e, p) && p[0] == u && p[|p| - 1] == v
  }

  ghost predicate Reach(e: set<Edge>, u: Node, v: Node)
  {
    exists p :: IsPathFrom(e, p, u, v)
  }

  /** Both nodes lie in one strongly connected component. */
  ghost predicate Mutual(e: set<Edge>, u: Node, v: Node)
  {
    Reach(e, u, v) && Reach(e, v, u)
  }

  /** The set of edges mentioned in an edge list. */
  function EdgeSet(edges: seq<Edge>): (s: set<Edge>)
  {
    set i | 0 <= i < |edges| :: edges[i]
  }

  function Endpoints(e: set<Edge>): (s: set<Node>)
  {
    (set x | x in e :: x.0) + (set x | x in e :: x.1)
  }

  lemma ReachRefl(e: set<Edge>, u: Node)
    ensures Reach(e, u, u)
  {
    assert IsPathFrom(e, [u], u, u);
  }

  lemma ReachEdge(e: set<Edge>, u: Node, v: Node)
    requires (u, v) in e
    ensures Reach(e, u, v)
  {
    assert IsPathFrom(e, [u, v], u, v);
  }

  lemma PathConcat(e: set<Edge>, p: seq<Node>, q: seq<Node>)
    requires IsPath(e, p) && IsPath(e, q) && p[|p| - 1] == q[0]
    ensures IsPathFrom(e, p + q[1..], p[0], q[|q| - 1])
  {
    var r := p + q[1..];
    forall i | 0 <= i < |r| - 1 ensures (r[i], r[i + 1]) in e {
      if i >= |p| - 1 {
        assert (q[i - |p| + 1], q[i - |p| + 2]) in e;
      }
    }
  }

  lemma ReachTrans(e: set<Edge>, u: Node, v: Node, w: Node)
    requires Reach(e, u, v) && Reach(e, v, w)
    ensures Reach(e, u, w)
  {
    var p :| IsPathFrom(e, p, u, v);
    var q :| IsPathFrom(e, q, v, w);
    PathConcat(e, p, q);
  }

  lemma MutualTrans(e: set<Edge>, u: Node, v: Node, w: Node)
    requires Mutual(e, u, v) && Mutual(e, v, w)
    ensures Mutual(e, u, w)
  {
    ReachTrans(e, u, v, w);
    ReachTrans(e, w, v, u);
  }

  /** Every stretch of a walk is a walk. */
  lemma SubPath(e: set<Edge>, p: seq<Node>, i: nat, j: nat)
    requires IsPath(e, p) && i <= j < |p|
    ensures Reach(e, p[i], p[j])
  {
    var q := p[i..j + 1];
    forall k | 0 <= k < |q| - 1 ensures (q[k], q[k + 1]) in e {
      assert (p[i + k], p[i + k + 1]) in e;
    }
    assert IsPathFrom(e, q, p[i], p[j]);
  }

  lemma Tail(e: set<Edge>, p: seq<Node>)
    requires IsPath(e, p) && |p| > 1
    ensures IsPath(e, p[1..]) && (p[0], p[1]) in e
  {
    forall i | 0 <= i < |p| - 2 ensures (p[1..][i], p[1..][i + 1]) in e {
      assert (p[i + 1], p[i + 2]) in e;
    }
  }

  /** A walk that starts inside `s` and ends outside leaves it by some edge. */
  lemma {:induction false} FirstExit(e: set<Edge>, p: seq<Node>, s: set<Node>) returns (i: nat)
    requires IsPath(e, p) && p[0] in s && p[|p| - 1] !in s
    ensures i < |p| - 1 && p[i] in s && p[i + 1] !in s && (p[i], p[i + 1]) in e
  {
    i := 0;
    while p[i + 1] in s
      invariant i < |p| - 1 && p[i] in s
      decreases |p| - i
    {
      i := i + 1;
    }
  }

  /** Cutting the loops out of a walk leaves a simple path. */
  lemma {:induction false} CutLoops(e: set<Edge>, p: seq<Node>) returns (q: seq<Node>)
    requires IsPath(e, p)
    ensures IsPathFrom(e, q, p[0], p[|p| - 1]) && Distinct(q) && |q| <= |p|
    decreases |p|
  {
    if |p| == 1 {
      q := p;
    } else {
      Tail(e, p);
      var r := CutLoops(e, p[1..]);
      if p[0] in r {
        var i :| 0 <= i < |r| && r[i] == p[0];
        q := r[i..];
        forall k | 0 <= k < |q| - 1 ensures (q[k], q[k + 1]) in e {
          assert (r[i + k], r[i + k + 1]) in e;
        }
      } else {
        q := [p[0]] + r;
        forall k | 0 <= k < |q| - 1 ensures (q[k], q[k + 1]) in e {
          if k > 0 { assert (r[k - 1], r[k]) in e; }
        }
      }
    }
  }
}
