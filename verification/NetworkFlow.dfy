/** Flows through a capacity graph and the cuts that bound them. */
module NetworkFlow {
  import opened Lists
  import opened Sums
  import opened Graphs
  import opened Ledger

  type Network = map<Edge, int>

  /** Net flow along each ordered pair. */
  type Assignment = Edge -> int

  function Row(x: Node, nodes: set<Node>): set<Edge>
  {
    set v | v in nodes :: (x, v)
  }

  ghost function Out(f: Assignment, x: Node, nodes: set<Node>): int
  {
    Sum(Row(x, nodes), f)
  }

  /** `f` sends `value` from `s` to `t`: it is antisymmetric, within the capacities, and what
      comes into any other node goes out again. */
  ghost predicate IsFlow(g: Network, nodes: set<Node>, f: Assignment, s: Node, t: Node, value: int)
  {
    && Antisymmetric(f)
    && (forall e :: f(e) <= Get(g, e))
    && (forall x :: x in nodes && x != s && x != t ==> Out(f, x, nodes) == 0)
    && Out(f, s, nodes) == value
  }

  ghost predicate Antisymmetric(f: Assignment)
  {
    forall u, v :: f((u, v)) == -f((v, u))
  }

  // ----- cuts -----

  /** The ordered pairs that leave `side`. */
  function Cross(side: set<Node>, nodes: set<Node>): set<Edge>
  {
    set u, v | u in side && v in nodes && v !in side :: (u, v)
  }

  ghost predicate IsCut(side: set<Node>, nodes: set<Node>, s: Node, t: Node)
  {
    side <= nodes && s in side && t !in side
  }

  ghost function CutCapacity(g: Network, side: set<Node>, nodes: set<Node>): int
  {
    Sum(Cross(side, nodes), (e: Edge) => Get(g, e))
  }

  function Into(side: set<Node>, x: Node): set<Edge>
  {
    set u | u in side :: (u, x)
  }

  lemma {:induction false} SumTransposed(side: set<Node>, x: Node, f: Assignment)
    requires Antisymmetric(f)
    ensures Sum(Into(side, x), f) == -Sum(Row(x, side), f)
    decreases side
  {
    if side != {} {
      var u :| u in side;
      var rest := side - {u};
      SumTransposed(rest, x, f);
      assert Into(side, x) == Into(rest, x) + {(u, x)} && (u, x) !in Into(rest, x);
      assert Row(x, side) == Row(x, rest) + {(x, u)} && (x, u) !in Row(x, rest);
      SumInsert(Into(rest, x), f, (u, x));
      SumInsert(Row(x, rest), f, (x, u));
    } else {
      assert Into(side, x) == {} && Row(x, side) == {};
    }
  }

  lemma CrossGrows(side: set<Node>, x: Node, nodes: set<Node>)
    requires side <= nodes && x in nodes && x !in side
    ensures Cross(side + {x}, nodes) + Into(side, x) == Cross(side, nodes) + Row(x, nodes - side - {x})
    ensures Cross(side + {x}, nodes) !! Into(side, x) && Cross(side, nodes) !! Row(x, nodes - side - {x})
    ensures Row(x, nodes) == Row(x, side) + Row(x, nodes - side - {x}) + {(x, x)}
    ensures Row(x, side) !! Row(x, nodes - side - {x}) && (x, x) !in Row(x, side) + Row(x, nodes - side - {x})
  {
  }

  lemma CrossStep(side: set<Node>, x: Node, nodes: set<Node>, f: Assignment)
    requires Antisymmetric(f) && side <= nodes && x in nodes && x !in side
    ensures Sum(Cross(side + {x}, nodes), f) == Sum(Cross(side, nodes), f) + Out(f, x, nodes)
  {
    hide Row, Into, Cross;
    var ahead := Row(x, nodes - side - {x});
    CrossGrows(side, x, nodes);
    SumUnion(Cross(side + {x}, nodes), Into(side, x), f);
    SumUnion(Cross(side, nodes), ahead, f);
    SumUnion(Row(x, side), ahead, f);
    SumInsert(Row(x, side) + ahead, f, (x, x));
    SumTransposed(side, x, f);
    assert f((x, x)) == 0;
  }

  /** What crosses a set of nodes is what its members send out in total. */
  lemma {:induction false} AcrossIsOut(side: set<Node>, nodes: set<Node>, f: Assignment)
    requires Antisymmetric(f) && side <= nodes
    ensures Sum(Cross(side, nodes), f) == Sum(side, (x: Node) => Out(f, x, nodes))
    decreases side
  {
    if side == {} {
      assert Cross(side, nodes) == {};
    } else {
      var x :| x in side;
      var rest := side - {x};
      AcrossIsOut(rest, nodes, f);
      CrossStep(rest, x, nodes, f);
      assert rest + {x} == side;
      SumInsert(rest, (y: Node) => Out(f, y, nodes), x);
    }
  }

  /** The same amount crosses every cut. */
  lemma CutCarriesValue(g: Network, nodes: set<Node>, f: Assignment, s: Node, t: Node, value: int, side: set<Node>)
    requires IsFlow(g, nodes, f, s, t, value) && IsCut(side, nodes, s, t)
    ensures Sum(Cross(side, nodes), f) == value
  {
    var out := (x: Node) => Out(f, x, nodes);
    AcrossIsOut(side, nodes, f);
    SumRemove(side, out, s);
    SumZero(side - {s}, out);
  }

  /** No flow exceeds any cut. */
  lemma WeakDuality(g: Network, nodes: set<Node>, f: Assignment, s: Node, t: Node, value: int, side: set<Node>)
    requires IsFlow(g, nodes, f, s, t, value) && IsCut(side, nodes, s, t)
    ensures value <= CutCapacity(g, side, nodes)
  {
    CutCarriesValue(g, nodes, f, s, t, value, side);
    SumLeq(Cross(side, nodes), f, (e: Edge) => Get(g, e));
  }

  // ----- residual graphs -----

  /** What is left of each edge, and what could be sent back. */
  ghost predicate IsResidual(g: Network, res: Network)
  {
    && (forall e :: e in res ==> res[e] > 0)
    && (forall u, v :: Get(res, (u, v)) + Get(res, (v, u)) == Get(g, (u, v)) + Get(g, (v, u)))
  }

  /** The flow a residual graph stands for. */
  function FlowOf(g: Network, res: Network): Assignment
  {
    e => Get(g, e) - Get(res, e)
  }

  /** The residual graph stands for a flow of `value`. */
  ghost predicate Carries(g: Network, nodes: set<Node>, res: Network, s: Node, t: Node, value: int)
  {
    && IsResidual(g, res)
    && (forall x :: x in nodes && x != s && x != t ==> Out(FlowOf(g, res), x, nodes) == 0)
    && Out(FlowOf(g, res), s, nodes) == value
  }

  lemma CarriesFlow(g: Network, nodes: set<Node>, res: Network, s: Node, t: Node, value: int)
    requires Carries(g, nodes, res, s, t, value)
    ensures IsFlow(g, nodes, FlowOf(g, res), s, t, value)
  {
    var f := FlowOf(g, res);
    forall u, v ensures f((u, v)) == -f((v, u)) {
      assert Get(res, (u, v)) + Get(res, (v, u)) == Get(g, (u, v)) + Get(g, (v, u));
    }
  }

  lemma StartCarries(g: Network, nodes: set<Node>, s: Node, t: Node)
    requires forall e :: e in g ==> g[e] > 0
    ensures Carries(g, nodes, g, s, t, 0)
  {
    forall x ensures Out(FlowOf(g, g), x, nodes) == 0 {
      SumZero(Row(x, nodes), FlowOf(g, g));
    }
  }

  /** Take `x` off one edge, dropping it when used up, and add it to the reverse. */
  function Push(res: Network, a: Node, b: Node, x: int): Network
  {
    var left := Get(res, (a, b)) - x;
    var taken := if left == 0 then res - {(a, b)} else res[(a, b) := left];
    taken[(b, a) := Get(taken, (b, a)) + x]
  }

  lemma PushEffect(res: Network, a: Node, b: Node, x: int)
    requires a != b
    ensures forall e :: Get(Push(res, a, b, x), e) == Get(res, e) + (if e == (b, a) then x else 0) - (if e == (a, b) then x else 0)
  {
    var left := Get(res, (a, b)) - x;
    var taken := if left == 0 then res - {(a, b)} else res[(a, b) := left];
    forall e ensures Get(taken, e) == if e == (a, b) then left else Get(res, e) {
    }
  }

  lemma PushResidual(g: Network, res: Network, a: Node, b: Node, x: int)
    requires IsResidual(g, res) && a != b && 0 < x <= Get(res, (a, b))
    ensures IsResidual(g, Push(res, a, b, x))
  {
    PushEffect(res, a, b, x);
    var r := Push(res, a, b, x);
    forall e | e in r ensures r[e] > 0 {
      assert Get(r, e) == Get(res, e) + (if e == (b, a) then x else 0) - (if e == (a, b) then x else 0);
      assert Get(res, e) >= 0;
    }
    forall u, v ensures Get(r, (u, v)) + Get(r, (v, u)) == Get(g, (u, v)) + Get(g, (v, u)) {
      assert Get(res, (u, v)) + Get(res, (v, u)) == Get(g, (u, v)) + Get(g, (v, u));
    }
  }

  lemma PushOut(g: Network, res: Network, a: Node, b: Node, x: int, nodes: set<Node>, y: Node)
    requires a != b && a in nodes && b in nodes
    ensures Out(FlowOf(g, Push(res, a, b, x)), y, nodes) == Out(FlowOf(g, res), y, nodes) + (if y == a then x else 0) - (if y == b then x else 0)
  {
    PushEffect(res, a, b, x);
    hide Push;
    var row, f, h := Row(y, nodes), FlowOf(g, res), FlowOf(g, Push(res, a, b, x));
    var mid := (e: Edge) => if e == (a, b) then h(e) else f(e);
    SumUpdate(row, f, mid, (a, b));
    SumUpdate(row, mid, h, (b, a));
    assert (a, b) in row <==> y == a;
    assert (b, a) in row <==> y == b;
  }

  function PushPath(res: Network, p: seq<Node>, x: int): Network
    decreases |p|
  {
    if |p| < 2 then res else PushPath(Push(res, p[0], p[1], x), p[1..], x)
  }

  /** Every hop of the path has at least `x` left. */
  ghost predicate Roomy(res: Network, p: seq<Node>, x: int)
  {
    forall i :: 0 <= i < |p| - 1 ==> Get(res, (p[i], p[i + 1])) >= x
  }

  lemma RoomyRest(res: Network, p: seq<Node>, x: int)
    requires Distinct(p) && |p| >= 2 && Roomy(res, p, x)
    ensures Roomy(Push(res, p[0], p[1], x), p[1..], x) && Distinct(p[1..])
  {
    PushEffect(res, p[0], p[1], x);
    hide Push;
    var q := p[1..];
    forall i | 0 <= i < |q| - 1 ensures Get(Push(res, p[0], p[1], x), (q[i], q[i + 1])) >= x {
      assert q[i] == p[i + 1] && q[i + 1] == p[i + 2];
      assert Get(res, (p[i + 1], p[i + 1 + 1])) >= x;
    }
  }

  /** Pushing along a simple path with room keeps a residual graph and moves `x` from its first
      node to its last. */
  lemma {:induction false} PushPathKeeps(g: Network, res: Network, p: seq<Node>, x: int, nodes: set<Node>)
    requires IsResidual(g, res) && Distinct(p) && |p| >= 2 && x > 0 && Roomy(res, p, x) && forall y :: y in p ==> y in nodes
    ensures IsResidual(g, PushPath(res, p, x))
    ensures forall y :: Out(FlowOf(g, PushPath(res, p, x)), y, nodes)
                        == Out(FlowOf(g, res), y, nodes) + (if y == p[0] then x else 0) - (if y == p[|p| - 1] then x else 0)
    decreases |p|
  {
    var next := Push(res, p[0], p[1], x);
    assert p[0] in p && p[1] in p && Get(res, (p[0], p[0 + 1])) >= x;
    PushResidual(g, res, p[0], p[1], x);
    RoomyRest(res, p, x);
    forall y { PushOut(g, res, p[0], p[1], x, nodes, y); }
    hide IsResidual, Roomy, Out, Push;
    if |p| > 2 {
      PushPathKeeps(g, next, p[1..], x, nodes);
    } else {
      assert p[1..] == [p[1]];
    }
  }

  lemma AugmentCarries(g: Network, nodes: set<Node>, res: Network, s: Node, t: Node, value: int, p: seq<Node>, x: int)
    requires Carries(g, nodes, res, s, t, value) && s != t
    requires Distinct(p) && |p| >= 2 && p[0] == s && p[|p| - 1] == t && x > 0 && Roomy(res, p, x) && forall y :: y in p ==> y in nodes
    ensures Carries(g, nodes, PushPath(res, p, x), s, t, value + x)
  {
    hide IsResidual, Out, Roomy, Distinct;
    PushPathKeeps(g, res, p, x, nodes);
  }

  // ----- maximum flow, minimum cut -----

  ghost predicate Maximum(g: Network, nodes: set<Node>, s: Node, t: Node, value: int)
  {
    forall f, w :: IsFlow(g, nodes, f, s, t, w) ==> w <= value
  }

  /** The nodes the residual graph reaches from `s`. */
  ghost function ReachSet(res: Network, nodes: set<Node>, s: Node): set<Node>
  {
    set x | x in nodes && Reach(res.Keys, s, x)
  }

  /** If the target is out of reach, the reached nodes are a cut as large as the flow. */
  lemma SaturatedCut(g: Network, nodes: set<Node>, res: Network, s: Node, t: Node, value: int)
    requires Carries(g, nodes, res, s, t, value) && s in nodes && !Reach(res.Keys, s, t)
    ensures IsCut(ReachSet(res, nodes, s), nodes, s, t) && CutCapacity(g, ReachSet(res, nodes, s), nodes) == value
  {
    var side, f := ReachSet(res, nodes, s), FlowOf(g, res);
    ReachRefl(res.Keys, s);
    CarriesFlow(g, nodes, res, s, t, value);
    CutCarriesValue(g, nodes, f, s, t, value, side);
    forall e | e in Cross(side, nodes) ensures f(e) == Get(g, e) {
      if e in res {
        ReachEdge(res.Keys, e.0, e.1);
        ReachTrans(res.Keys, s, e.0, e.1);
      }
    }
    SumCongruent(Cross(side, nodes), f, (e: Edge) => Get(g, e));
  }

  lemma PathIsRoomy(res: Network, p: seq<Node>)
    requires IsPath(res.Keys, p) && forall e :: e in res ==> res[e] > 0
    ensures Roomy(res, p, 1)
  {
    forall i | 0 <= i < |p| - 1 ensures Get(res, (p[i], p[i + 1])) >= 1 {
      assert (p[i], p[i + 1]) in res;
    }
  }

  lemma PathInside(e: set<Edge>, p: seq<Node>, nodes: set<Node>)
    requires IsPath(e, p) && Endpoints(e) <= nodes && p[0] in nodes
    ensures forall y :: y in p ==> y in nodes
  {
    forall i | 0 <= i < |p| ensures p[i] in nodes {
      if i > 0 {
        var j := i - 1;
        assert (p[j], p[j + 1]) in e;
        assert p[j + 1] in Endpoints(e);
      }
    }
  }

  /** A flow is maximum exactly when its residual graph no longer joins source and target. */
  lemma MaximumIff(g: Network, nodes: set<Node>, res: Network, s: Node, t: Node, value: int)
    requires Carries(g, nodes, res, s, t, value) && s in nodes && s != t && Endpoints(res.Keys) <= nodes
    ensures Maximum(g, nodes, s, t, value) <==> !Reach(res.Keys, s, t)
  {
    if Reach(res.Keys, s, t) {
      var p :| IsPathFrom(res.Keys, p, s, t);
      var q := CutLoops(res.Keys, p);
      PathIsRoomy(res, q);
      PathInside(res.Keys, q, nodes);
      AugmentCarries(g, nodes, res, s, t, value, q, 1);
      CarriesFlow(g, nodes, PushPath(res, q, 1), s, t, value + 1);
    } else {
      SaturatedCut(g, nodes, res, s, t, value);
      forall f, w | IsFlow(g, nodes, f, s, t, w) ensures w <= value {
        WeakDuality(g, nodes, f, s, t, w, ReachSet(res, nodes, s));
      }
    }
  }
}
