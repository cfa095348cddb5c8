/** Short debt cycles: the capped triangle finder, and clearing until none is left. */
module Triangles {
  import opened Lists
  import opened Ledger
  import opened Lex
  import Clearing

  /** A debt of one equivalent; amounts are carried along and never inspected. */
  datatype Item<A> = Item(debtor: Pid, creditor: Pid, amount: A)

  datatype Triangle<A> = Triangle(a: Pid, b: Pid, c: Pid, ab: A, bc: A, ca: A)
  {
    function Nodes(): set<Pid> { {a, b, c} }
  }

  type Adjacency<A> = map<Pid, seq<(Pid, A)>>

  /** Rows with a missing or repeated name are not edges. */
  ghost predicate HasEdge<A>(items: seq<Item<A>>, u: Pid, v: Pid, amount: A)
  {
    Item(u, v, amount) in items && u != "" && v != "" && u != v
  }

  ghost predicate Edge<A(!new)>(items: seq<Item<A>>, u: Pid, v: Pid)
  {
    exists amount :: HasEdge(items, u, v, amount)
  }

  ghost predicate Genuine<A>(items: seq<Item<A>>, t: Triangle<A>)
  {
    && t.a != t.b && t.b != t.c && t.c != t.a
    && HasEdge(items, t.a, t.b, t.ab) && HasEdge(items, t.b, t.c, t.bc) && HasEdge(items, t.c, t.a, t.ca)
  }

  ghost predicate Directed<A(!new)>(items: seq<Item<A>>, a: Pid, b: Pid, c: Pid)
  {
    a != b && b != c && c != a && Edge(items, a, b) && Edge(items, b, c) && Edge(items, c, a)
  }

  /** `adj` holds exactly the edges of the items. */
  ghost predicate Holds<A(!new)>(adj: Adjacency<A>, items: seq<Item<A>>)
  {
    && (forall u, x :: x in ListAt(adj, u) ==> HasEdge(items, u, x.0, x.1))
    && (forall u, v, amount :: HasEdge(items, u, v, amount) ==> u in adj && (v, amount) in ListAt(adj, u))
  }

  /** Stable insertion by creditor. */
  function InsertEdge<A(!new)>(s: seq<(Pid, A)>, x: (Pid, A)): (r: seq<(Pid, A)>)
    ensures forall y :: y in r <==> y == x || y in s
  {
    if s == [] then [x]
    else if Less(x.0, s[0].0) then [x] + s
    else
      assert s == [s[0]] + s[1..];
      [s[0]] + InsertEdge(s[1..], x)
  }

  ghost predicate Ascending<A>(s: seq<(Pid, A)>)
  {
    forall i, j :: 0 <= i < j < |s| ==> Leq(s[i].0, s[j].0)
  }

  lemma {:induction false} InsertAscending<A(!new)>(s: seq<(Pid, A)>, x: (Pid, A))
    requires Ascending(s)
    ensures Ascending(InsertEdge(s, x))
    decreases |s|
  {
    if s != [] {
      Trichotomy(x.0, s[0].0);
      if Less(x.0, s[0].0) {
        forall i | 0 < i < |s| ensures Leq(x.0, s[i].0) {
          if s[0].0 != s[i].0 { Transitive(x.0, s[0].0, s[i].0); }
        }
      } else {
        var rest := InsertEdge(s[1..], x);
        InsertAscending(s[1..], x);
        forall y | y in rest ensures Leq(s[0].0, y.0) {
          if y in s[1..] {
            var i :| 0 <= i < |s[1..]| && s[1..][i] == y;
            assert s[i + 1] == y;
          }
        }
        assert forall i :: 0 <= i < |rest| ==> rest[i] in rest;
      }
    }
  }

  lemma PutEdge<A(!new)>(adj: Adjacency<A>, u: Pid, x: (Pid, A))
    requires forall v :: Ascending(ListAt(adj, v))
    ensures var after := adj[u := InsertEdge(ListAt(adj, u), x)];
            && (forall v :: Ascending(ListAt(after, v)))
            && (forall v, y :: y in ListAt(after, v) <==> y in ListAt(adj, v) || (v == u && y == x))
  {
    hide Ascending, InsertEdge;
    InsertAscending(ListAt(adj, u), x);
    var after := adj[u := InsertEdge(ListAt(adj, u), x)];
    forall v ensures ListAt(after, v) == if v == u then InsertEdge(ListAt(adj, u), x) else ListAt(adj, v) {
    }
  }

  lemma EdgesOfOneMore<A>(items: seq<Item<A>>, i: nat)
    requires i < |items|
    ensures forall u, v, amount ::
              HasEdge(items[..i + 1], u, v, amount) <==>
                HasEdge(items[..i], u, v, amount) || (items[i] == Item(u, v, amount) && u != "" && v != "" && u != v)
  {
    assert items[..i + 1] == items[..i] + [items[i]];
  }

  method BuildAdjacency<A(!new)>(items: seq<Item<A>>) returns (adj: Adjacency<A>)
    ensures Holds(adj, items)
    ensures forall u, v, amount :: (v, amount) in ListAt(adj, u) <==> Item(u, v, amount) in items && u != "" && v != "" && u != v
    ensures forall u :: Ascending(ListAt(adj, u))
  {
    adj := map[];
    assert forall u :: Ascending(ListAt(adj, u));
    hide Ascending, InsertEdge, HasEdge, ListAt;
    NoEdgesYet(items, adj);
    for i := 0 to |items|
      invariant forall u :: Ascending(ListAt(adj, u))
      invariant forall u, v, amount :: (v, amount) in ListAt(adj, u) <==> HasEdge(items[..i], u, v, amount)
    {
      var e := items[i];
      EdgesOfOneMore(items, i);
      if e.debtor != "" && e.creditor != "" && e.debtor != e.creditor {
        PutEdge(adj, e.debtor, (e.creditor, e.amount));
        adj := adj[e.debtor := InsertEdge(ListAt(adj, e.debtor), (e.creditor, e.amount))];
      }
    }
    assert items[..|items|] == items;
    AllHeld(adj, items);
  }

  lemma NoEdgesYet<A>(items: seq<Item<A>>, adj: Adjacency<A>)
    requires adj == map[]
    ensures forall u, v, amount :: (v, amount) in ListAt(adj, u) <==> HasEdge(items[..0], u, v, amount)
  {
  }

  lemma AllHeld<A(!new)>(adj: Adjacency<A>, items: seq<Item<A>>)
    requires forall u, v, amount :: (v, amount) in ListAt(adj, u) <==> HasEdge(items, u, v, amount)
    ensures Holds(adj, items)
    ensures forall u, v, amount :: (v, amount) in ListAt(adj, u) <==> Item(u, v, amount) in items && u != "" && v != "" && u != v
  {
    forall u, v, amount | HasEdge(items, u, v, amount) ensures u in adj {
      assert (v, amount) in ListAt(adj, u);
    }
  }

  // ----- the nested search -----

  /** What is reported is genuine, no node set twice, and never more than the cap. */
  ghost predicate Reported<A>(items: seq<Item<A>>, cap: int, cycles: seq<Triangle<A>>)
  {
    && (forall t :: t in cycles ==> Genuine(items, t))
    && (forall i, j :: 0 <= i < j < |cycles| ==> cycles[i].Nodes() != cycles[j].Nodes())
    && (cycles == [] || |cycles| <= cap)
  }

  ghost predicate Covered<A>(cycles: seq<Triangle<A>>, a: Pid, b: Pid, c: Pid)
  {
    exists i :: 0 <= i < |cycles| && cycles[i].Nodes() == {a, b, c}
  }

  lemma ReportOne<A>(items: seq<Item<A>>, cap: int, cycles: seq<Triangle<A>>, t: Triangle<A>)
    requires Reported(items, cap, cycles) && Genuine(items, t) && |cycles| < cap && !Covered(cycles, t.a, t.b, t.c)
    ensures Reported(items, cap, cycles + [t]) && Covered(cycles + [t], t.a, t.b, t.c)
    ensures forall a, b, c :: Covered(cycles, a, b, c) ==> Covered(cycles + [t], a, b, c)
  {
    var r := cycles + [t];
    assert r[|cycles|] == t;
    forall a, b, c | Covered(cycles, a, b, c) ensures Covered(r, a, b, c) {
      var i :| 0 <= i < |cycles| && cycles[i].Nodes() == {a, b, c};
      assert r[i] == cycles[i];
    }
    assert forall i :: 0 <= i < |cycles| ==> cycles[i].Nodes() != t.Nodes();
  }

  datatype Find<A> = Missing | At(amount: A)

  /** The first edge from `u` to `v` in adjacency order. */
  method FirstEdge<A(!new)>(adj: Adjacency<A>, u: Pid, v: Pid) returns (r: Find<A>)
    ensures r.Missing? <==> forall amount :: (v, amount) !in ListAt(adj, u)
    ensures r.At? ==> (v, r.amount) in ListAt(adj, u)
  {
    var s := ListAt(adj, u);
    for i := 0 to |s|
      invariant forall amount :: (v, amount) !in s[..i]
    {
      if s[i].0 == v { return At(s[i].1); }
      assert s[..i + 1] == s[..i] + [s[i]];
    }
    assert s[..|s|] == s;
    r := Missing;
  }

  /** Every triangle is reported from its least participant. */
  ghost predicate FromLeast<A>(cycles: seq<Triangle<A>>)
  {
    forall t :: t in cycles ==> !Less(t.b, t.a) && !Less(t.c, t.a)
  }

  /** All triangles with a participant before `a` are reported already. */
  ghost predicate EarlierCovered<A(!new)>(items: seq<Item<A>>, a: Pid, cycles: seq<Triangle<A>>)
  {
    forall x, y, z :: Less(x, a) && Directed(items, x, y, z) ==> Covered(cycles, x, y, z)
  }

  lemma StartsAtLeast<A(!new)>(items: seq<Item<A>>, cycles: seq<Triangle<A>>, t: Triangle<A>)
    requires Genuine(items, t) && EarlierCovered(items, t.a, cycles) && !Covered(cycles, t.a, t.b, t.c) && FromLeast(cycles)
    ensures FromLeast(cycles + [t]) && EarlierCovered(items, t.a, cycles + [t])
  {
    assert Directed(items, t.a, t.b, t.c) && Directed(items, t.b, t.c, t.a) && Directed(items, t.c, t.a, t.b);
    assert {t.b, t.c, t.a} == {t.a, t.b, t.c} && {t.c, t.a, t.b} == {t.a, t.b, t.c};
    assert !Covered(cycles, t.b, t.c, t.a) && !Covered(cycles, t.c, t.a, t.b);
    CoveredGrows(cycles, cycles + [t]);
  }

  /** Extends the report by triangles through the edge from `a` to `b`. */
  method ScanThird<A(!new)>(adj: Adjacency<A>, ghost items: seq<Item<A>>, cap: int, a: Pid, b: Pid, ab: A, cycles0: seq<Triangle<A>>)
    returns (cycles: seq<Triangle<A>>)
    requires Holds(adj, items) && HasEdge(items, a, b, ab) && Reported(items, cap, cycles0) && |cycles0| < cap
    requires FromLeast(cycles0) && EarlierCovered(items, a, cycles0)
    ensures Reported(items, cap, cycles) && cycles0 <= cycles
    ensures FromLeast(cycles) && EarlierCovered(items, a, cycles)
    ensures |cycles| < cap ==> forall c :: Directed(items, a, b, c) ==> Covered(cycles, a, b, c)
  {
    hide Reported, FromLeast, EarlierCovered;
    cycles := cycles0;
    var nexts := ListAt(adj, b);
    for i := 0 to |nexts|
      invariant Reported(items, cap, cycles) && cycles0 <= cycles && |cycles| < cap
      invariant FromLeast(cycles) && EarlierCovered(items, a, cycles)
      invariant forall j :: 0 <= j < i && Directed(items, a, b, nexts[j].0) ==> Covered(cycles, a, b, nexts[j].0)
    {
      var (c, bc) := nexts[i];
      if c != a && c != b {
        var closing := FirstEdge(adj, c, a);
        if closing.At? {
          if forall i :: 0 <= i < |cycles| ==> cycles[i].Nodes() != {a, b, c} {
            var t := Triangle(a, b, c, ab, bc, closing.amount);
            assert (c, bc) in ListAt(adj, b) && (a, closing.amount) in ListAt(adj, c);
            StartsAtLeast(items, cycles, t);
            ReportOne(items, cap, cycles, t);
            cycles := cycles + [t];
            if |cycles| >= cap { return; }
          }
        } else {
          NoClosingEdge(adj, items, c, a);
        }
      }
    }
    forall c | Directed(items, a, b, c) ensures Covered(cycles, a, b, c) {
      var bc :| HasEdge(items, b, c, bc);
      assert (c, bc) in nexts;
      var j :| 0 <= j < |nexts| && nexts[j] == (c, bc);
      assert nexts[j].0 == c;
    }
  }

  lemma NoClosingEdge<A(!new)>(adj: Adjacency<A>, items: seq<Item<A>>, c: Pid, a: Pid)
    requires Holds(adj, items) && forall amount :: (a, amount) !in ListAt(adj, c)
    ensures !Edge(items, c, a)
  {
  }

  lemma CoveredGrows<A>(cycles0: seq<Triangle<A>>, cycles: seq<Triangle<A>>)
    requires cycles0 <= cycles
    ensures forall a, b, c :: Covered(cycles0, a, b, c) ==> Covered(cycles, a, b, c)
  {
    forall a, b, c | Covered(cycles0, a, b, c) ensures Covered(cycles, a, b, c) {
      var i :| 0 <= i < |cycles0| && cycles0[i].Nodes() == {a, b, c};
      assert cycles[i] == cycles0[i];
    }
  }

  /** Extends the report by triangles starting at `a`. */
  method ScanSecond<A(!new)>(adj: Adjacency<A>, ghost items: seq<Item<A>>, cap: int, a: Pid, cycles0: seq<Triangle<A>>)
    returns (cycles: seq<Triangle<A>>)
    requires Holds(adj, items) && Reported(items, cap, cycles0) && |cycles0| < cap
    requires FromLeast(cycles0) && EarlierCovered(items, a, cycles0)
    ensures Reported(items, cap, cycles) && cycles0 <= cycles
    ensures FromLeast(cycles)
    ensures |cycles| < cap ==> forall b, c :: Directed(items, a, b, c) ==> Covered(cycles, a, b, c)
  {
    hide Reported, Covered, Directed, FromLeast, EarlierCovered;
    cycles := cycles0;
    var nexts := ListAt(adj, a);
    for i := 0 to |nexts|
      invariant Reported(items, cap, cycles) && cycles0 <= cycles && |cycles| < cap
      invariant FromLeast(cycles) && EarlierCovered(items, a, cycles)
      invariant forall j, c :: 0 <= j < i && Directed(items, a, nexts[j].0, c) ==> Covered(cycles, a, nexts[j].0, c)
    {
      var (b, ab) := nexts[i];
      assert (b, ab) in ListAt(adj, a);
      ghost var before := cycles;
      cycles := ScanThird(adj, items, cap, a, b, ab, cycles);
      CoveredGrows(before, cycles);
      if |cycles| >= cap { return; }
    }
    forall b, c | Directed(items, a, b, c) ensures Covered(cycles, a, b, c) {
      FirstOfDirected(adj, items, a, b, c);
      var ab :| (b, ab) in nexts;
      var j :| 0 <= j < |nexts| && nexts[j] == (b, ab);
      assert nexts[j].0 == b;
    }
  }

  lemma FirstOfDirected<A(!new)>(adj: Adjacency<A>, items: seq<Item<A>>, a: Pid, b: Pid, c: Pid)
    requires Holds(adj, items) && Directed(items, a, b, c)
    ensures a in adj && exists ab :: (b, ab) in ListAt(adj, a)
  {
    var ab :| HasEdge(items, a, b, ab);
    assert (b, ab) in ListAt(adj, a);
  }

  lemma NoneReported<A>()
    ensures FromLeast<A>([])
  {
  }

  /** All triangles that start at one of the first `i` nodes are covered. */
  ghost predicate Scanned<A(!new)>(items: seq<Item<A>>, nodes: seq<Pid>, i: nat, cycles: seq<Triangle<A>>)
    requires i <= |nodes|
  {
    forall j, b, c :: 0 <= j < i && Directed(items, nodes[j], b, c) ==> Covered(cycles, nodes[j], b, c)
  }

  lemma OneMoreScanned<A(!new)>(items: seq<Item<A>>, nodes: seq<Pid>, i: nat, before: seq<Triangle<A>>, cycles: seq<Triangle<A>>)
    requires i < |nodes| && Scanned(items, nodes, i, before) && before <= cycles
    requires forall b, c :: Directed(items, nodes[i], b, c) ==> Covered(cycles, nodes[i], b, c)
    ensures Scanned(items, nodes, i + 1, cycles)
  {
    hide Covered, Directed;
    CoveredGrows(before, cycles);
  }

  /** The participants before node `i` that start a triangle are among the first `i` nodes. */
  lemma EarlierNodes<A(!new)>(adj: Adjacency<A>, items: seq<Item<A>>, nodes: seq<Pid>, i: nat, cycles: seq<Triangle<A>>)
    requires Holds(adj, items) && i < |nodes| && Increasing(nodes) && forall x :: x in nodes <==> x in adj
    requires Scanned(items, nodes, i, cycles)
    ensures EarlierCovered(items, nodes[i], cycles)
  {
    hide Covered, Directed, Holds;
    forall x, y, z | Less(x, nodes[i]) && Directed(items, x, y, z) ensures Covered(cycles, x, y, z) {
      FirstOfDirected(adj, items, x, y, z);
      var j :| 0 <= j < |nodes| && nodes[j] == x;
      Trichotomy(x, nodes[i]);
    }
  }

  /** The capped triangle search of one equivalent. */
  method FindTriangles<A(!new)>(items: seq<Item<A>>, cap: int) returns (cycles: seq<Triangle<A>>)
    ensures Reported(items, cap, cycles)
    ensures |cycles| < cap ==> forall a, b, c :: Directed(items, a, b, c) ==> Covered(cycles, a, b, c)
    ensures FromLeast(cycles)
  {
    var adj := BuildAdjacency(items);
    cycles := [];
    var nodes := Sorted(adj.Keys);
    assert Reported(items, cap, cycles);
    hide Reported, Covered, Directed, Holds, Increasing, FromLeast, EarlierCovered, Ascending, ListAt;
    NoneReported<A>();
    assert Scanned(items, nodes, 0, cycles);
    hide Scanned;
    for i := 0 to |nodes|
      invariant Reported(items, cap, cycles) && FromLeast(cycles)
      invariant |cycles| < cap ==> Scanned(items, nodes, i, cycles)
    {
      if |cycles| >= cap { return; }
      ghost var before := cycles;
      EarlierNodes(adj, items, nodes, i, cycles);
      cycles := ScanSecond(adj, items, cap, nodes[i], cycles);
      if |cycles| < cap { OneMoreScanned(items, nodes, i, before, cycles); }
    }
    if |cycles| < cap { AllNodesScanned(adj, items, nodes, cycles); }
  }

  lemma AllNodesScanned<A(!new)>(adj: Adjacency<A>, items: seq<Item<A>>, nodes: seq<Pid>, cycles: seq<Triangle<A>>)
    requires Holds(adj, items) && forall x :: x in nodes <==> x in adj
    requires Scanned(items, nodes, |nodes|, cycles)
    ensures forall a, b, c :: Directed(items, a, b, c) ==> Covered(cycles, a, b, c)
  {
    hide Covered, Directed, Holds;
    forall a, b, c | Directed(items, a, b, c) ensures Covered(cycles, a, b, c) {
      FirstOfDirected(adj, items, a, b, c);
      var j :| 0 <= j < |nodes| && nodes[j] == a;
    }
  }

  /** What a finished search says about the given debts: each report consists of three of them
      between three different named participants, and no such three are missed below the cap. */
  lemma ReportIs<A(!new)>(items: seq<Item<A>>, cap: int, cycles: seq<Triangle<A>>)
    requires Reported(items, cap, cycles)
    requires |cycles| < cap ==> forall a, b, c :: Directed(items, a, b, c) ==> Covered(cycles, a, b, c)
    ensures forall t :: t in cycles ==>
              && t.a != t.b && t.b != t.c && t.c != t.a && t.a != "" && t.b != "" && t.c != ""
              && Item(t.a, t.b, t.ab) in items && Item(t.b, t.c, t.bc) in items && Item(t.c, t.a, t.ca) in items
    ensures forall a, b, c, ab, bc, ca ::
              (&& |cycles| < cap && a != "" && b != "" && c != "" && a != b && b != c && c != a
               && Item(a, b, ab) in items && Item(b, c, bc) in items && Item(c, a, ca) in items)
              ==> exists t :: t in cycles && {t.a, t.b, t.c} == {a, b, c}
  {
    forall a, b, c, ab, bc, ca |
      && |cycles| < cap && a != "" && b != "" && c != "" && a != b && b != c && c != a
      && Item(a, b, ab) in items && Item(b, c, bc) in items && Item(c, a, ca) in items
      ensures exists t :: t in cycles && {t.a, t.b, t.c} == {a, b, c}
    {
      assert HasEdge(items, a, b, ab) && HasEdge(items, b, c, bc) && HasEdge(items, c, a, ca);
      assert Directed(items, a, b, c);
      var i :| 0 <= i < |cycles| && cycles[i].Nodes() == {a, b, c};
      assert cycles[i] in cycles;
    }
  }

  // ----- one orientation per triangle when nobody owes both ways -----

  ghost predicate NoMutual<A(!new)>(items: seq<Item<A>>)
  {
    forall u, v :: !(Edge(items, u, v) && Edge(items, v, u))
  }

  /** Is `t` the directed triangle a, b, c read from some starting node? */
  predicate Rotation<A>(t: Triangle<A>, a: Pid, b: Pid, c: Pid)
  {
    (t.a, t.b, t.c) == (a, b, c) || (t.a, t.b, t.c) == (b, c, a) || (t.a, t.b, t.c) == (c, a, b)
  }

  /** Without mutual debts a report below the cap contains every directed triangle, in its own
      orientation. */
  lemma BelowCapReportsAll<A(!new)>(items: seq<Item<A>>, cap: int, cycles: seq<Triangle<A>>, a: Pid, b: Pid, c: Pid)
    requires NoMutual(items) && Reported(items, cap, cycles) && Directed(items, a, b, c) && Covered(cycles, a, b, c)
    ensures exists t :: t in cycles && Rotation(t, a, b, c)
  {
    var i :| 0 <= i < |cycles| && cycles[i].Nodes() == {a, b, c};
    var t := cycles[i];
    assert t in cycles && Genuine(items, t);
    assert t.a in t.Nodes() && t.b in t.Nodes() && t.c in t.Nodes();
    assert Edge(items, t.a, t.b) && Edge(items, t.b, t.c) && Edge(items, t.c, t.a);
    assert !Edge(items, b, a) && !Edge(items, c, b) && !Edge(items, a, c);
  }

  // ----- clearing until no triangle is left -----

  ghost predicate TriangleIn(d: Debts, eq: string, a: Pid, b: Pid, c: Pid)
  {
    && a != b && b != c && c != a && a != "" && b != "" && c != ""
    && DebtKey(eq, a, b) in d && DebtKey(eq, b, c) in d && DebtKey(eq, c, a) in d
  }

  ghost predicate ItemsOf(items: seq<Item<int>>, d: Debts, eq: string)
  {
    && (forall x :: x in items ==> DebtKey(eq, x.debtor, x.creditor) in d)
    && (forall k :: k in d && k.eq == eq ==> Item(k.debtor, k.creditor, d[k]) in items)
  }

  method Items(d: Debts, eq: string) returns (items: seq<Item<int>>)
    ensures ItemsOf(items, d, eq)
  {
    items := [];
    var rest := d.Keys;
    while rest != {}
      invariant rest <= d.Keys
      invariant forall x :: x in items ==> DebtKey(eq, x.debtor, x.creditor) in d
      invariant forall k :: k in d && k.eq == eq && k !in rest ==> Item(k.debtor, k.creditor, d[k]) in items
      decreases rest
    {
      var k :| k in rest;
      rest := rest - {k};
      if k.eq == eq { items := items + [Item(k.debtor, k.creditor, d[k])]; }
    }
  }

  /** Debts and everything a clearing must not disturb. */
  ghost predicate ClearedFrom(before: Debts, after: Debts)
  {
    && WellFormed(after) && after.Keys <= before.Keys
    && (forall k :: Owed(after, k) <= Owed(before, k))
    && (forall eq, p :: Position(after, eq, p) == Position(before, eq, p))
  }

  lemma TriangleRows(d: Debts, eq: string, a: Pid, b: Pid, c: Pid)
    requires TriangleIn(d, eq, a, b, c)
    ensures Clearing.CycleRows(eq, [a, b, c]) == [DebtKey(eq, a, b), DebtKey(eq, b, c), DebtKey(eq, c, a)]
    ensures forall k :: k in Clearing.CycleRows(eq, [a, b, c]) ==> k in d
    ensures Clearing.OneEquivalent(Clearing.CycleRows(eq, [a, b, c])) && Distinct([a, b, c])
  {
    var nodes := [a, b, c];
    var path := Clearing.PathRows(eq, nodes);
    assert nodes[1] == b && nodes[2] == c;
    assert path[0] == DebtKey(eq, nodes[0], nodes[1]) && path[1] == DebtKey(eq, nodes[1], nodes[2]);
    assert Clearing.CycleRows(eq, nodes) == path + [DebtKey(eq, c, a)];
  }

  /** Lowering a triangle by its least debt is one accepted clearing. */
  lemma ClearOne(d: Debts, eq: string, a: Pid, b: Pid, c: Pid, interlocked: bool)
    requires WellFormed(d) && TriangleIn(d, eq, a, b, c)
    ensures var rows := Clearing.CycleRows(eq, [a, b, c]);
            var after := Clearing.Lower(d, rows, Clearing.MinOwed(d, rows));
            Clearing.Execute(d, rows, iset{}, interlocked) == (after, Clearing.Cleared(Clearing.MinOwed(d, rows)))
            && ClearedFrom(d, after) && |after| < |d|
  {
    var rows := Clearing.CycleRows(eq, [a, b, c]);
    TriangleRows(d, eq, a, b, c);
    hide Distinct, Clearing.Lower, Clearing.MinOwed, Clearing.CycleRows, Clearing.Execute, Clearing.Takes, Clearing.OneEquivalent, Position;
    Clearing.ClearedIffTaken(d, rows, iset{}, interlocked);
    Clearing.SimpleCycleClears(d, eq, [a, b, c], iset{}, interlocked);
    Clearing.ClearingShrinks(d, rows, iset{}, interlocked);
    forall e, p ensures Position(Clearing.Execute(d, rows, iset{}, interlocked).0, e, p) == Position(d, e, p) {
      Clearing.ClearingIsNeutral(d, rows, iset{}, interlocked, e, p);
    }
  }

  lemma NoneLeft(d: Debts, eq: string, items: seq<Item<int>>)
    requires WellFormed(d) && ItemsOf(items, d, eq)
    requires forall a, b, c :: Directed(items, a, b, c) ==> Covered<int>([], a, b, c)
    ensures forall a, b, c :: !TriangleIn(d, eq, a, b, c)
  {
    forall a, b, c | TriangleIn(d, eq, a, b, c) ensures Covered<int>([], a, b, c) {
      assert HasEdge(items, a, b, d[DebtKey(eq, a, b)]);
      assert HasEdge(items, b, c, d[DebtKey(eq, b, c)]);
      assert HasEdge(items, c, a, d[DebtKey(eq, c, a)]);
      assert Directed(items, a, b, c);
    }
  }

  /** Find a triangle, lower it by its least debt, repeat. The loop ends because each round
      deletes a row; it leaves no triangle and disturbs no net position. */
  method ClearTriangles(d0: Debts, eq: string, cap: int) returns (d: Debts, rounds: nat)
    requires WellFormed(d0) && cap >= 1
    ensures forall a, b, c :: !TriangleIn(d, eq, a, b, c)
    ensures ClearedFrom(d0, d) && rounds + |d| <= |d0|
  {
    d, rounds := d0, 0;
    while true
      invariant ClearedFrom(d0, d) && rounds + |d| <= |d0|
      decreases |d|
    {
      var items := Items(d, eq);
      var cycles := FindTriangles(items, cap);
      if cycles == [] {
        NoneLeft(d, eq, items);
        return;
      }
      var t := cycles[0];
      FirstIsTriangle(d, eq, items, cap, cycles);
      ClearOne(d, eq, t.a, t.b, t.c, false);
      var rows := Clearing.CycleRows(eq, [t.a, t.b, t.c]);
      ghost var before := d;
      d := Clearing.Lower(d, rows, Clearing.MinOwed(d, rows));
      ClearedTransitive(d0, before, d);
      rounds := rounds + 1;
    }
  }

  lemma FirstIsTriangle(d: Debts, eq: string, items: seq<Item<int>>, cap: int, cycles: seq<Triangle<int>>)
    requires WellFormed(d) && ItemsOf(items, d, eq) && Reported(items, cap, cycles) && cycles != []
    ensures TriangleIn(d, eq, cycles[0].a, cycles[0].b, cycles[0].c)
  {
    var t := cycles[0];
    assert t in cycles && Genuine(items, t);
    assert Item(t.a, t.b, t.ab) in items && Item(t.b, t.c, t.bc) in items && Item(t.c, t.a, t.ca) in items;
  }

  lemma ClearedTransitive(a: Debts, b: Debts, c: Debts)
    requires ClearedFrom(a, b) && ClearedFrom(b, c)
    ensures ClearedFrom(a, c)
  {
    forall k ensures Owed(c, k) <= Owed(a, k) {
      assert Owed(c, k) <= Owed(b, k) <= Owed(a, k);
    }
  }

  /** Clearing keeps what the checker looks for: no new violation of a trust limit, no new
      mutual debt. */
  lemma ClearingKeepsChecks(before: Debts, after: Debts, lines: Lines)
    requires WellFormed(before) && ClearedFrom(before, after)
    ensures (forall k :: k in before ==> before[k] <= Limit(lines, k)) ==> forall k :: k in after ==> after[k] <= Limit(lines, k)
    ensures Symmetric(before) ==> Symmetric(after)
  {
    forall k | k in after ensures after[k] <= Owed(before, k) && k in before {
      assert Owed(after, k) <= Owed(before, k);
    }
  }
}
