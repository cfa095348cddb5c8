/** The payment router: capacity graph, breadth-first single-path search under edge
    policies, and the greedy split of an amount over several paths. */
module Router {
  import opened Lists
  import opened Options
  import opened Ledger
  import opened Flows
  import opened PrepareLocks
  import E = Engine
  import R = EngineRuns

  /** Remaining capacity per directed edge; the edge from `u` to `v` is the row in which
      `u` would owe `v`. */
  type Graph = map<DebtKey, int>

  /** May the edge's head be an intermediary, and whom does the edge's owner block? */
  datatype Policy = Policy(intermediate: bool, blocked: set<Pid>)

  function PolicyOf(policies: map<DebtKey, Policy>, k: DebtKey): Policy
  {
    if k in policies then policies[k] else Policy(true, {})
  }

  datatype Query = Query(eq: string, payer: Pid, payee: Pid, amount: int, maxHops: int, avoid: set<Pid>)

  // ----- the capacity graph -----

  lemma LiveFlowsAreReserved(locks: Locks, t: TxId, k: DebtKey, now: int)
    requires LocksFiled(locks) && t in locks
    ensures LiveSum(locks, t, k, now) == if locks[t].expires > now then EdgeSum(RowFlows(locks[t].rows), k) else 0
  {
    LookupBySenderIsComplete(locks[t].rows, k);
  }

  /** The router adds up the flows of all live locks, whoever they are filed under. */
  method ReservedOnEdge(locks: Locks, k: DebtKey, now: int) returns (r: int)
    requires LocksFiled(locks)
    ensures r == Reserved(locks, k, now, {})
  {
    r := 0;
    var all := locks.Keys - {};
    var rest := all;
    ghost var f := (t: TxId) => LiveSum(locks, t, k, now);
    while rest != {}
      invariant rest <= all
      invariant r == Sums.Sum(all - rest, f)
      decreases rest
    {
      var t :| t in rest;
      LiveFlowsAreReserved(locks, t, k, now);
      if locks[t].expires > now {
        r := r + EdgeSum(RowFlows(locks[t].rows), k);
      }
      Sums.SumInsert(all - rest, f, t);
      assert all - rest + {t} == all - (rest - {t});
      rest := rest - {t};
    }
    assert all - rest == all;
  }

  ghost function Room(st: E.State, k: DebtKey, now: int): int
  {
    E.Available(st, k) - Reserved(st.locks, k, now, {})
  }

  /** An edge exists for each active line with room left, and carries that room. */
  ghost predicate CapacityGraph(g: Graph, st: E.State, eq: string, now: int)
  {
    && (forall k :: k in g <==> k in st.lines && k.eq == eq && Room(st, k, now) > 0)
    && (forall k :: k in g ==> g[k] == Room(st, k, now))
  }

  method BuildGraph(st: E.State, eq: string, now: int) returns (g: Graph)
    requires LocksFiled(st.locks)
    ensures CapacityGraph(g, st, eq, now)
    ensures forall e, u, v ::
              DebtKey(e, u, v) in g <==>
                && e == eq && DebtKey(e, u, v) in st.lines
                && st.lines[DebtKey(e, u, v)] - Owed(st.debts, DebtKey(e, u, v)) + Owed(st.debts, DebtKey(e, v, u))
                   - Reserved(st.locks, DebtKey(e, u, v), now, {}) > 0
    ensures forall e, u, v ::
              DebtKey(e, u, v) in g ==>
                g[DebtKey(e, u, v)] == st.lines[DebtKey(e, u, v)] - Owed(st.debts, DebtKey(e, u, v)) + Owed(st.debts, DebtKey(e, v, u))
                                       - Reserved(st.locks, DebtKey(e, u, v), now, {})
  {
    g := map[];
    var rest := st.lines.Keys;
    while rest != {}
      invariant rest <= st.lines.Keys
      invariant forall k :: k in g <==> k in st.lines && k !in rest && k.eq == eq && Room(st, k, now) > 0
      invariant forall k :: k in g ==> g[k] == Room(st, k, now)
      decreases rest
    {
      var k :| k in rest;
      rest := rest - {k};
      if k.eq == eq {
        var cap := st.lines[k] - Owed(st.debts, k) + Owed(st.debts, k.Reverse());
        var reserved := ReservedOnEdge(st.locks, k, now);
        cap := cap - reserved;
        if cap > 0 {
          g := g[k := cap];
        }
      }
    }
  }

  // ----- admissible paths, said without reference to the search -----

  function Hop(eq: string, p: seq<Pid>, i: nat): DebtKey
    requires i + 1 < |p|
  {
    DebtKey(eq, p[i], p[i + 1])
  }

  /** A walk the query's amount fits on, through nobody avoided. */
  ghost predicate Carries(g: Graph, q: Query, p: seq<Pid>)
  {
    && p != [] && p[0] == q.payer && Distinct(p)
    && (forall i :: 0 <= i < |p| - 1 ==> Hop(q.eq, p, i) in g && g[Hop(q.eq, p, i)] > 0 && g[Hop(q.eq, p, i)] >= q.amount)
    && (forall x :: x in p ==> x !in q.avoid)
  }

  predicate Endpoint(q: Query, x: Pid)
  {
    x == q.payer || x == q.payee
  }

  /** Edge `i` accepts the node at `j`: an intermediary may not be blocked by any edge of the
      path, except that an edge is never asked about its own tail. */
  ghost predicate EdgeAccepts(policies: map<DebtKey, Policy>, q: Query, p: seq<Pid>, i: nat, j: nat)
    requires i + 1 < |p| && j < |p|
  {
    Endpoint(q, p[j]) || j == i || p[j] !in PolicyOf(policies, Hop(q.eq, p, i)).blocked
  }

  ghost predicate PolicyAllows(policies: map<DebtKey, Policy>, q: Query, p: seq<Pid>)
  {
    && (forall i :: 0 <= i < |p| - 1 ==> Endpoint(q, p[i + 1]) || PolicyOf(policies, Hop(q.eq, p, i)).intermediate)
    && (forall i, j :: 0 <= i < |p| - 1 && 0 <= j < |p| ==> EdgeAccepts(policies, q, p, i, j))
  }

  /** The rule as it is meant: no edge of the path blocks any of its intermediaries. */
  ghost predicate ObeysBlocks(policies: map<DebtKey, Policy>, q: Query, p: seq<Pid>)
  {
    forall i, j :: 0 <= i < |p| - 1 && 0 <= j < |p| ==> Endpoint(q, p[j]) || p[j] !in PolicyOf(policies, Hop(q.eq, p, i)).blocked
  }

  /** No line's policy blocks the participant whose debt the line allows. */
  ghost predicate NoSelfBlock(policies: map<DebtKey, Policy>, eq: string)
  {
    forall k :: k in policies && k.eq == eq && k.debtor != k.creditor ==> k.debtor !in policies[k].blocked
  }

  /** An allowed path obeys the rule exactly when no edge blocks its own intermediary tail. */
  lemma ObeysIffTailsFree(policies: map<DebtKey, Policy>, q: Query, p: seq<Pid>)
    requires PolicyAllows(policies, q, p)
    ensures ObeysBlocks(policies, q, p)
       <==> forall i :: 0 <= i < |p| - 1 ==> Endpoint(q, p[i]) || p[i] !in PolicyOf(policies, Hop(q.eq, p, i)).blocked
  {
    hide PolicyOf;
    forall i, j | 0 <= i < |p| - 1 && 0 <= j < |p| && i != j ensures Endpoint(q, p[j]) || p[j] !in PolicyOf(policies, Hop(q.eq, p, i)).blocked {
      assert EdgeAccepts(policies, q, p, i, j);
    }
  }

  ghost predicate Admissible(g: Graph, policies: map<DebtKey, Policy>, q: Query, p: seq<Pid>)
  {
    Carries(g, q, p) && PolicyAllows(policies, q, p)
  }

  /** The bound is tested before a path is extended, so the path without hops always passes. */
  function HopBound(q: Query): nat
  {
    if q.maxHops < 0 then 0 else q.maxHops
  }

  /** A usable route: admissible, ends at the payee, within the hop bound. */
  ghost predicate Usable(g: Graph, policies: map<DebtKey, Policy>, q: Query, p: seq<Pid>)
  {
    Admissible(g, policies, q, p) && p[|p| - 1] == q.payee && |p| - 1 <= HopBound(q)
  }

  /** A usable route in full: a loop-free path from payer to payee of at most `maxHops` hops, on
      edges with some capacity and enough for the amount, past nobody avoided; where a policy is
      given for a hop, it lets the hop's head be an intermediary and blocks no intermediary of
      the path but the hop's own tail; where none is given, nothing is asked. */
  lemma UsableIff(g: Graph, policies: map<DebtKey, Policy>, q: Query, p: seq<Pid>)
    ensures Usable(g, policies, q, p) <==>
              && p != [] && p[0] == q.payer && p[|p| - 1] == q.payee && (|p| == 1 || |p| - 1 <= q.maxHops)
              && (forall i, j :: 0 <= i < j < |p| ==> p[i] != p[j])
              && (forall i, k :: 0 <= i < |p| - 1 && k == DebtKey(q.eq, p[i], p[i + 1]) ==> k in g && g[k] > 0 && g[k] >= q.amount)
              && (forall x :: x in p ==> x !in q.avoid)
              && (forall i, k :: 0 <= i < |p| - 1 && k == DebtKey(q.eq, p[i], p[i + 1]) && k in policies ==>
                    p[i + 1] == q.payer || p[i + 1] == q.payee || policies[k].intermediate)
              && (forall i, j, k :: 0 <= i < |p| - 1 && 0 <= j < |p| && j != i && k == DebtKey(q.eq, p[i], p[i + 1]) && k in policies ==>
                    p[j] == q.payer || p[j] == q.payee || p[j] !in policies[k].blocked)
  {
    HopsAre(q, p);
    CarriesIff(g, q, p);
    PolicyAllowsIff(policies, q, p);
  }

  lemma HopsAre(q: Query, p: seq<Pid>)
    ensures forall i :: 0 <= i < |p| - 1 ==> Hop(q.eq, p, i) == DebtKey(q.eq, p[i], p[i + 1])
  {
  }

  lemma CarriesIff(g: Graph, q: Query, p: seq<Pid>)
    ensures Carries(g, q, p) <==>
              && p != [] && p[0] == q.payer
              && (forall i, j :: 0 <= i < j < |p| ==> p[i] != p[j])
              && (forall i, k :: 0 <= i < |p| - 1 && k == DebtKey(q.eq, p[i], p[i + 1]) ==> k in g && g[k] > 0 && g[k] >= q.amount)
              && (forall x :: x in p ==> x !in q.avoid)
  {
    HopsAre(q, p);
  }

  lemma PolicyAllowsIff(policies: map<DebtKey, Policy>, q: Query, p: seq<Pid>)
    ensures PolicyAllows(policies, q, p) <==>
              && (forall i, k :: 0 <= i < |p| - 1 && k == DebtKey(q.eq, p[i], p[i + 1]) && k in policies ==>
                    p[i + 1] == q.payer || p[i + 1] == q.payee || policies[k].intermediate)
              && (forall i, j, k :: 0 <= i < |p| - 1 && 0 <= j < |p| && j != i && k == DebtKey(q.eq, p[i], p[i + 1]) && k in policies ==>
                    p[j] == q.payer || p[j] == q.payee || p[j] !in policies[k].blocked)
  {
    HopsAre(q, p);
    forall i, j | 0 <= i < |p| - 1 && 0 <= j < |p|
      ensures EdgeAccepts(policies, q, p, i, j)
         <==> (j == i || DebtKey(q.eq, p[i], p[i + 1]) !in policies || p[j] == q.payer || p[j] == q.payee
               || p[j] !in policies[DebtKey(q.eq, p[i], p[i + 1])].blocked)
    {
    }
    if PolicyAllows(policies, q, p) {
      forall i, k | 0 <= i < |p| - 1 && k == DebtKey(q.eq, p[i], p[i + 1]) && k in policies
        ensures p[i + 1] == q.payer || p[i + 1] == q.payee || policies[k].intermediate
      {
        assert Endpoint(q, p[i + 1]) || PolicyOf(policies, Hop(q.eq, p, i)).intermediate;
      }
    }
  }

  // ----- the search -----

  /** Everything blocked by the edges walked so far. */
  function BlockedSoFar(policies: map<DebtKey, Policy>, eq: string, p: seq<Pid>): set<Pid>
  {
    if |p| < 2 then {}
    else BlockedSoFar(policies, eq, p[..|p| - 1]) + PolicyOf(policies, DebtKey(eq, p[|p| - 2], p[|p| - 1])).blocked
  }

  /** The conditions the search tests before it extends `p` to `x`. */
  predicate MayExtend(g: Graph, policies: map<DebtKey, Policy>, q: Query, p: seq<Pid>, blockedSoFar: set<Pid>, x: Pid)
    requires p != []
  {
    var k := DebtKey(q.eq, p[|p| - 1], x);
    var policy := PolicyOf(policies, k);
    && k in g && x !in q.avoid && g[k] > 0 && g[k] >= q.amount && x !in p
    && (Endpoint(q, x) || (x !in blockedSoFar && x !in policy.blocked && policy.intermediate))
    && (|p| > 2 ==> forall m :: m in p[1..|p| - 1] ==> m !in policy.blocked)
  }

  lemma {:induction false} BlockedMeans(policies: map<DebtKey, Policy>, eq: string, p: seq<Pid>, x: Pid)
    ensures x in BlockedSoFar(policies, eq, p) <==> exists i :: 0 <= i < |p| - 1 && x in PolicyOf(policies, Hop(eq, p, i)).blocked
    decreases |p|
  {
    if |p| >= 2 {
      var r := p[..|p| - 1];
      BlockedMeans(policies, eq, r, x);
      assert Hop(eq, p, |p| - 2) == DebtKey(eq, p[|p| - 2], p[|p| - 1]);
      forall i | 0 <= i < |r| - 1 ensures Hop(eq, r, i) == Hop(eq, p, i) {
      }
      if i :| 0 <= i < |r| - 1 && x in PolicyOf(policies, Hop(eq, r, i)).blocked {
        assert x in PolicyOf(policies, Hop(eq, p, i)).blocked;
      }
      if i :| 0 <= i < |p| - 1 && x in PolicyOf(policies, Hop(eq, p, i)).blocked {
        if i < |p| - 2 { assert x in PolicyOf(policies, Hop(eq, r, i)).blocked; }
      }
    }
  }

  lemma CarriesStep(g: Graph, q: Query, p: seq<Pid>, x: Pid)
    requires p != []
    ensures Carries(g, q, p + [x]) <==>
            Carries(g, q, p) && (var k := DebtKey(q.eq, p[|p| - 1], x); k in g && x !in q.avoid && g[k] > 0 && g[k] >= q.amount && x !in p)
  {
    var r := p + [x];
    assert Hop(q.eq, r, |p| - 1) == DebtKey(q.eq, p[|p| - 1], x);
    forall i | 0 <= i < |p| - 1 ensures Hop(q.eq, r, i) == Hop(q.eq, p, i) {
    }
    if Carries(g, q, r) {
      assert forall i :: 0 <= i < |p| ==> p[i] == r[i];
      forall i | 0 <= i < |p| - 1 ensures Hop(q.eq, p, i) in g && g[Hop(q.eq, p, i)] > 0 && g[Hop(q.eq, p, i)] >= q.amount {
        assert Hop(q.eq, r, i) in g;
      }
      assert forall y :: y in p ==> y in r;
      assert x in r;
    }
  }

  /** What extending by `x` adds to the policy conditions. */
  ghost predicate PolicyStep(policies: map<DebtKey, Policy>, q: Query, p: seq<Pid>, x: Pid)
    requires p != []
  {
    var policy := PolicyOf(policies, DebtKey(q.eq, p[|p| - 1], x));
    && (Endpoint(q, x) || (policy.intermediate && x !in policy.blocked))
    && (Endpoint(q, x) || forall i :: 0 <= i < |p| - 1 ==> x !in PolicyOf(policies, Hop(q.eq, p, i)).blocked)
    && (forall j :: 0 <= j < |p| - 1 ==> Endpoint(q, p[j]) || p[j] !in policy.blocked)
  }

  lemma PolicyExtends(policies: map<DebtKey, Policy>, q: Query, p: seq<Pid>, x: Pid)
    requires p != []
    ensures PolicyAllows(policies, q, p + [x]) <==> PolicyAllows(policies, q, p) && PolicyStep(policies, q, p, x)
  {
    var r, n := p + [x], |p|;
    assert Hop(q.eq, r, n - 1) == DebtKey(q.eq, p[n - 1], x);
    forall i | 0 <= i < n - 1 ensures Hop(q.eq, r, i) == Hop(q.eq, p, i) {
    }
    if PolicyAllows(policies, q, r) {
      forall i, j | 0 <= i < n - 1 && 0 <= j < n ensures EdgeAccepts(policies, q, p, i, j) {
        assert EdgeAccepts(policies, q, r, i, j);
      }
      forall i | 0 <= i < n - 1 ensures Endpoint(q, p[i + 1]) || PolicyOf(policies, Hop(q.eq, p, i)).intermediate {
        assert r[i + 1] == p[i + 1];
        assert Endpoint(q, r[i + 1]) || PolicyOf(policies, Hop(q.eq, r, i)).intermediate;
      }
      forall i | 0 <= i < n - 1 ensures Endpoint(q, x) || x !in PolicyOf(policies, Hop(q.eq, p, i)).blocked {
        assert EdgeAccepts(policies, q, r, i, n);
      }
      forall j | 0 <= j < n - 1 ensures Endpoint(q, p[j]) || p[j] !in PolicyOf(policies, DebtKey(q.eq, p[n - 1], x)).blocked {
        assert EdgeAccepts(policies, q, r, n - 1, j);
      }
      assert EdgeAccepts(policies, q, r, n - 1, n);
      assert r[n - 1 + 1] == x;
    }
    if PolicyAllows(policies, q, p) && PolicyStep(policies, q, p, x) {
      forall i, j | 0 <= i < |r| - 1 && 0 <= j < |r| ensures EdgeAccepts(policies, q, r, i, j) {
        if i < n - 1 && j < n {
          assert EdgeAccepts(policies, q, p, i, j);
        }
      }
      forall i | 0 <= i < |r| - 1 ensures Endpoint(q, r[i + 1]) || PolicyOf(policies, Hop(q.eq, r, i)).intermediate {
        if i < n - 1 {
          assert Endpoint(q, p[i + 1]) || PolicyOf(policies, Hop(q.eq, p, i)).intermediate;
        }
      }
    }
  }

  /** Of an unfinished path every node after the first is an intermediary. */
  lemma InnerNodes(g: Graph, q: Query, p: seq<Pid>, blocked: set<Pid>)
    requires Carries(g, q, p) && q.payee !in p
    ensures (forall j :: 0 <= j < |p| - 1 ==> Endpoint(q, p[j]) || p[j] !in blocked)
       <==> (|p| > 2 ==> forall m :: m in p[1..|p| - 1] ==> m !in blocked)
  {
    forall j | 1 <= j < |p| - 1 ensures p[j] in p[1..|p| - 1] && !Endpoint(q, p[j]) {
      assert p[1..|p| - 1][j - 1] == p[j];
      assert p[j] in p;
    }
  }

  /** The search's test is exactly admissibility of the longer path. */
  lemma ExtendIffAdmissible(g: Graph, policies: map<DebtKey, Policy>, q: Query, p: seq<Pid>, x: Pid)
    requires p != [] && Admissible(g, policies, q, p) && q.payee !in p
    ensures MayExtend(g, policies, q, p, BlockedSoFar(policies, q.eq, p), x) <==> Admissible(g, policies, q, p + [x])
  {
    hide Carries, PolicyAllows;
    CarriesStep(g, q, p, x);
    PolicyExtends(policies, q, p, x);
    BlockedMeans(policies, q.eq, p, x);
    InnerNodes(g, q, p, PolicyOf(policies, DebtKey(q.eq, p[|p| - 1], x)).blocked);
  }

  // ----- breadth-first search over paths -----

  datatype Entry = Entry(path: seq<Pid>, blocked: set<Pid>)

  /** A queue entry: an unfinished or just finished admissible path with its blocked set. */
  ghost predicate Queued(g: Graph, policies: map<DebtKey, Policy>, q: Query, e: Entry)
  {
    && Admissible(g, policies, q, e.path) && e.blocked == BlockedSoFar(policies, q.eq, e.path)
    && |e.path| - 1 <= HopBound(q)
    && forall i :: 0 <= i < |e.path| - 1 ==> e.path[i] != q.payee
  }

  /** Some entry of `queue` can still grow into `p`. */
  ghost predicate HasPrefix(queue: seq<Entry>, p: seq<Pid>)
  {
    exists i :: 0 <= i < |queue| && queue[i].path <= p
  }

  /** The search's invariant: queued paths in order of length, in two adjacent layers, and
      every usable route still has a prefix in the queue or in `extra`. */
  ghost predicate Frontier(g: Graph, policies: map<DebtKey, Policy>, q: Query, queue: seq<Entry>, extra: seq<Entry>)
  {
    && (forall i :: 0 <= i < |queue| ==> Queued(g, policies, q, queue[i]))
    && (forall i, j :: 0 <= i < j < |queue| ==> |queue[i].path| <= |queue[j].path|)
    && (|queue| > 0 ==> |queue[|queue| - 1].path| <= |queue[0].path| + 1)
    && (forall p :: Usable(g, policies, q, p) ==> HasPrefix(queue, p) || HasPrefix(extra, p))
  }

  /** A bound on the work left below a path of `h` more hops in a graph of `n` edges. */
  function Weight(h: nat, n: nat): (w: nat)
    ensures w >= 1
  {
    if h == 0 then 1 else (n + 1) * Weight(h - 1, n)
  }

  function HopsLeft(q: Query, e: Entry): nat
  {
    if q.maxHops - |e.path| + 1 < 0 then 0 else q.maxHops - |e.path| + 1
  }

  function Work(q: Query, queue: seq<Entry>, n: nat): nat
  {
    if queue == [] then 0 else Weight(HopsLeft(q, queue[0]), n) + Work(q, queue[1..], n)
  }

  lemma {:induction false} WorkAppend(q: Query, queue: seq<Entry>, e: Entry, n: nat)
    ensures Work(q, queue + [e], n) == Work(q, queue, n) + Weight(HopsLeft(q, e), n)
    decreases |queue|
  {
    if queue == [] {
      assert [e][1..] == [];
    } else {
      assert (queue + [e])[1..] == queue[1..] + [e];
      WorkAppend(q, queue[1..], e, n);
    }
  }

  lemma FrontierStart(g: Graph, policies: map<DebtKey, Policy>, q: Query)
    requires q.payer !in q.avoid
    ensures Frontier(g, policies, q, [Entry([q.payer], {})], [])
  {
    var e := Entry([q.payer], {});
    forall p | Usable(g, policies, q, p) ensures HasPrefix([e], p) {
      assert [e][0].path <= p;
    }
    assert Queued(g, policies, q, e);
  }

  lemma FrontierPop(g: Graph, policies: map<DebtKey, Policy>, q: Query, queue: seq<Entry>)
    requires Frontier(g, policies, q, queue, []) && queue != []
    ensures Frontier(g, policies, q, queue[1..], [queue[0]])
    ensures Queued(g, policies, q, queue[0])
    ensures forall i :: 0 <= i < |queue[1..]| ==> |queue[0].path| <= |queue[1..][i].path| <= |queue[0].path| + 1
    ensures forall p :: Usable(g, policies, q, p) ==> |queue[0].path| <= |p|
  {
    forall p | Usable(g, policies, q, p) ensures (HasPrefix(queue[1..], p) || HasPrefix([queue[0]], p)) && |queue[0].path| <= |p| {
      var i :| 0 <= i < |queue| && queue[i].path <= p;
      if i > 0 {
        assert queue[1..][i - 1].path <= p;
      } else {
        assert [queue[0]][0].path <= p;
      }
    }
  }

  lemma FrontierPush(g: Graph, policies: map<DebtKey, Policy>, q: Query, queue: seq<Entry>, top: Entry, e: Entry)
    requires Frontier(g, policies, q, queue, [top]) && Queued(g, policies, q, e)
    requires |e.path| == |top.path| + 1 && forall i :: 0 <= i < |queue| ==> |top.path| <= |queue[i].path| <= |top.path| + 1
    ensures Frontier(g, policies, q, queue + [e], [top])
    ensures forall i :: 0 <= i < |queue + [e]| ==> |top.path| <= |(queue + [e])[i].path| <= |top.path| + 1
  {
    var r := queue + [e];
    forall p | Usable(g, policies, q, p) ensures HasPrefix(r, p) || HasPrefix([top], p) {
      if HasPrefix(queue, p) {
        var i :| 0 <= i < |queue| && queue[i].path <= p;
        assert r[i].path <= p;
      }
    }
    assert forall i :: 0 <= i < |r| ==> r[i] == (if i < |queue| then queue[i] else e);
  }

  /** Once every admissible extension of the popped path is queued, it may be forgotten. */
  lemma FrontierDone(g: Graph, policies: map<DebtKey, Policy>, q: Query, queue: seq<Entry>, top: Entry)
    requires Frontier(g, policies, q, queue, [top]) && Queued(g, policies, q, top) && top.path[|top.path| - 1] != q.payee
    requires |top.path| - 1 >= q.maxHops ||
             forall x :: Admissible(g, policies, q, top.path + [x]) ==> HasPrefix(queue, top.path + [x])
    ensures Frontier(g, policies, q, queue, [])
  {
    forall p | Usable(g, policies, q, p) ensures HasPrefix(queue, p) {
      if HasPrefix([top], p) {
        var n := |top.path|;
        assert top.path <= p;
        assert n < |p| by { assert n == |p| ==> top.path == p; }
        assert p[..n + 1] == top.path + [p[n]];
        AdmissiblePrefix(g, policies, q, p, n + 1);
        var i :| 0 <= i < |queue| && queue[i].path <= top.path + [p[n]];
        assert queue[i].path <= p;
      }
    }
  }

  lemma {:induction false} AdmissiblePrefix(g: Graph, policies: map<DebtKey, Policy>, q: Query, p: seq<Pid>, n: nat)
    requires Admissible(g, policies, q, p) && 0 < n <= |p|
    ensures Admissible(g, policies, q, p[..n])
    decreases |p| - n
  {
    if n == |p| {
      assert p[..n] == p;
    } else {
      AdmissiblePrefix(g, policies, q, p, n + 1);
      assert p[..n + 1] == p[..n] + [p[n]];
      CarriesStep(g, q, p[..n], p[n]);
      PolicyExtends(policies, q, p[..n], p[n]);
    }
  }

  lemma FrontierEmpty(g: Graph, policies: map<DebtKey, Policy>, q: Query)
    requires Frontier(g, policies, q, [], [])
    ensures forall p :: !Usable(g, policies, q, p)
  {
  }

  /** Queues the admissible extensions of one popped path; at most one per edge. */
  method ExtendAll(g: Graph, policies: map<DebtKey, Policy>, q: Query, top: Entry, queue0: seq<Entry>) returns (queue: seq<Entry>)
    requires Queued(g, policies, q, top) && q.payee !in top.path && |top.path| - 1 < q.maxHops
    requires Frontier(g, policies, q, queue0, [top])
    requires forall i :: 0 <= i < |queue0| ==> |top.path| <= |queue0[i].path| <= |top.path| + 1
    ensures Frontier(g, policies, q, queue, [])
    ensures Work(q, queue, |g|) < Work(q, queue0, |g|) + Weight(HopsLeft(q, top), |g|)
  {
    hide Frontier, Queued, Admissible, Usable, BlockedSoFar, Times, Weight, Work, MayExtend, HasPrefix;
    queue := queue0;
    ghost var h := HopsLeft(q, top) - 1;
    NotFinished(g, policies, q, top);
    AdmissibleEdges(g, policies, q, top.path);
    TimesStep(0, Weight(h, |g|));
    var rest := g.Keys;
    while rest != {}
      invariant rest <= g.Keys && |rest| <= |g|
      invariant Frontier(g, policies, q, queue, [top])
      invariant forall i :: 0 <= i < |queue| ==> |top.path| <= |queue[i].path| <= |top.path| + 1
      invariant forall x :: Admissible(g, policies, q, top.path + [x]) ==>
                  DebtKey(q.eq, top.path[|top.path| - 1], x) in rest || HasPrefix(queue, top.path + [x])
      invariant Work(q, queue, |g|) <= Work(q, queue0, |g|) + Times(|g| - |rest|, Weight(h, |g|))
      decreases rest
    {
      var k :| k in rest;
      var x := k.creditor;
      TimesStep(|g| - |rest|, Weight(h, |g|));
      if k == DebtKey(q.eq, top.path[|top.path| - 1], x) {
        TopMayExtend(g, policies, q, top, x);
        if MayExtend(g, policies, q, top.path, top.blocked, x) {
          var e := Entry(top.path + [x], top.blocked + PolicyOf(policies, k).blocked);
          FrontierPush(g, policies, q, queue, top, e);
          WorkAppend(q, queue, e, |g|);
          assert HopsLeft(q, e) == h;
          PrefixKept(queue, e);
          queue := queue + [e];
        }
      }
      rest := rest - {k};
    }
    forall x | Admissible(g, policies, q, top.path + [x]) ensures HasPrefix(queue, top.path + [x]) {
    }
    FrontierDone(g, policies, q, queue, top);
    WeightStep(h, |g|);
  }

  function Times(a: nat, w: nat): nat
  {
    a * w
  }

  lemma TimesStep(a: nat, w: nat)
    ensures Times(a + 1, w) == Times(a, w) + w && Times(0, w) == 0
  {
  }

  lemma WeightStep(h: nat, n: nat)
    ensures Weight(h + 1, n) > Times(n, Weight(h, n))
  {
    assert (n + 1) * Weight(h, n) == n * Weight(h, n) + Weight(h, n);
  }

  lemma NotFinished(g: Graph, policies: map<DebtKey, Policy>, q: Query, top: Entry)
    requires Queued(g, policies, q, top) && q.payee !in top.path
    ensures top.path != [] && top.path[|top.path| - 1] != q.payee
  {
  }

  lemma AdmissibleEdges(g: Graph, policies: map<DebtKey, Policy>, q: Query, p: seq<Pid>)
    requires p != []
    ensures forall x :: Admissible(g, policies, q, p + [x]) ==> DebtKey(q.eq, p[|p| - 1], x) in g
  {
    forall x | Admissible(g, policies, q, p + [x]) ensures DebtKey(q.eq, p[|p| - 1], x) in g {
      CarriesStep(g, q, p, x);
    }
  }

  lemma PrefixKept(queue: seq<Entry>, e: Entry)
    ensures forall p :: HasPrefix(queue, p) ==> HasPrefix(queue + [e], p)
    ensures HasPrefix(queue + [e], e.path)
  {
    assert (queue + [e])[|queue|].path <= e.path;
    forall p | HasPrefix(queue, p) ensures HasPrefix(queue + [e], p) {
      var i :| 0 <= i < |queue| && queue[i].path <= p;
      assert (queue + [e])[i].path <= p;
    }
  }

  lemma TopMayExtend(g: Graph, policies: map<DebtKey, Policy>, q: Query, top: Entry, x: Pid)
    requires Queued(g, policies, q, top) && q.payee !in top.path && |top.path| - 1 < q.maxHops
    ensures top.path != []
    ensures MayExtend(g, policies, q, top.path, top.blocked, x) <==> Admissible(g, policies, q, top.path + [x])
    ensures MayExtend(g, policies, q, top.path, top.blocked, x) ==>
              Queued(g, policies, q, Entry(top.path + [x], top.blocked + PolicyOf(policies, DebtKey(q.eq, top.path[|top.path| - 1], x)).blocked))
  {
    ExtendIffAdmissible(g, policies, q, top.path, x);
    var r := top.path + [x];
    assert r[..|r| - 1] == top.path;
    assert forall i :: 0 <= i < |top.path| ==> top.path[i] in top.path;
  }

  /** The graph mentions only known participants. */
  ghost predicate Known(nodes: set<Pid>, g: Graph)
  {
    forall k :: k in g ==> k.debtor in nodes && k.creditor in nodes
  }

  /** Returns a shortest usable route, and fails only when there is none. */
  method BfsSinglePath(nodes: set<Pid>, g: Graph, policies: map<DebtKey, Policy>, q: Query) returns (r: Option<seq<Pid>>)
    requires Known(nodes, g)
    ensures r.Some? ==> Usable(g, policies, q, r.value) && forall p :: Usable(g, policies, q, p) ==> |r.value| <= |p|
    ensures r.None? ==> q.payer !in nodes || q.payee !in nodes || forall p :: !Usable(g, policies, q, p)
    ensures r.Some? && NoSelfBlock(policies, q.eq) ==> ObeysBlocks(policies, q, r.value)
  {
    if q.payer !in nodes || q.payee !in nodes { return None; }
    if q.payer in q.avoid || q.payee in q.avoid {
      forall p ensures !Usable(g, policies, q, p) {
        AvoidedEndpoint(g, policies, q, p);
      }
      return None;
    }
    var queue := [Entry([q.payer], {})];
    FrontierStart(g, policies, q);
    hide Frontier, Queued, Admissible, Usable, BlockedSoFar, NoSelfBlock, ObeysBlocks;
    while queue != []
      invariant Frontier(g, policies, q, queue, [])
      decreases Work(q, queue, |g|)
    {
      var top := queue[0];
      FrontierPop(g, policies, q, queue);
      PoppedEnds(g, policies, q, top);
      if top.path[|top.path| - 1] == q.payee {
        if NoSelfBlock(policies, q.eq) { RoutesObey(g, policies, q, top.path); }
        return Some(top.path);
      }
      assert Work(q, queue, |g|) == Weight(HopsLeft(q, top), |g|) + Work(q, queue[1..], |g|);
      queue := queue[1..];
      if |top.path| - 1 >= q.maxHops {
        TooLong(g, policies, q, queue, top);
      } else {
        queue := ExtendAll(g, policies, q, top, queue);
      }
    }
    FrontierEmpty(g, policies, q);
    return None;
  }

  lemma AvoidedEndpoint(g: Graph, policies: map<DebtKey, Policy>, q: Query, p: seq<Pid>)
    requires q.payer in q.avoid || q.payee in q.avoid
    ensures !Usable(g, policies, q, p)
  {
    assert p != [] ==> p[0] in p && p[|p| - 1] in p;
  }

  lemma PoppedEnds(g: Graph, policies: map<DebtKey, Policy>, q: Query, top: Entry)
    requires Queued(g, policies, q, top)
    ensures top.path != []
    ensures top.path[|top.path| - 1] == q.payee ==> Usable(g, policies, q, top.path)
    ensures top.path[|top.path| - 1] != q.payee ==> q.payee !in top.path
  {
  }

  lemma TooLong(g: Graph, policies: map<DebtKey, Policy>, q: Query, queue: seq<Entry>, top: Entry)
    requires Frontier(g, policies, q, queue, [top]) && Queued(g, policies, q, top) && |top.path| - 1 >= q.maxHops
    requires top.path != [] && top.path[|top.path| - 1] != q.payee
    ensures Frontier(g, policies, q, queue, [])
  {
    forall p | Usable(g, policies, q, p) ensures HasPrefix(queue, p) {
      assert top.path <= p && |top.path| == |p| ==> top.path == p;
    }
  }

  // ----- splitting an amount over several routes -----

  function Cap(g: Graph, k: DebtKey): (r: int)
  {
    if k in g then g[k] else 0
  }

  /** Residual capacities are what the routes found so far have left of the graph. */
  ghost predicate Residual(g: Graph, residual: Graph, routes: seq<E.Route>, eq: string)
  {
    && (forall k :: Cap(residual, k) == Cap(g, k) - EdgeSum(E.Segments(routes, eq), k))
    && (forall k :: k in residual ==> residual[k] > 0 && k in g)
  }

  /** The least capacity along a path; a path without edges has none. */
  method PathBottleneck(g: Graph, eq: string, path: seq<Pid>) returns (r: Option<int>)
    ensures r.None? <==> |path| < 2
    ensures r.Some? ==> forall i :: 0 <= i < |path| - 1 ==> r.value <= Cap(g, Hop(eq, path, i))
    ensures r.Some? ==> exists i :: 0 <= i < |path| - 1 && r.value == Cap(g, Hop(eq, path, i))
  {
    r := None;
    if |path| < 2 { return; }
    r := Some(Cap(g, Hop(eq, path, 0)));
    for i := 1 to |path| - 1
      invariant r.Some? && forall j :: 0 <= j < i ==> r.value <= Cap(g, Hop(eq, path, j))
      invariant exists j :: 0 <= j < i && r.value == Cap(g, Hop(eq, path, j))
    {
      if Cap(g, Hop(eq, path, i)) < r.value { r := Some(Cap(g, Hop(eq, path, i))); }
    }
  }

  /** Takes `alloc` off every edge of the path, dropping edges that run out. */
  method Allocate(g: Graph, eq: string, path: seq<Pid>, alloc: int) returns (r: Graph)
    requires alloc > 0 && Distinct(path)
    requires forall i :: 0 <= i < |path| - 1 ==> Cap(g, Hop(eq, path, i)) >= alloc
    requires forall k :: k in g ==> g[k] > 0
    ensures forall k :: Cap(r, k) == Cap(g, k) - EdgeSum(E.PathFlows(path, alloc, eq), k)
    ensures forall k :: k in r ==> r[k] > 0 && k in g
  {
    r := g;
    var i := 0;
    assert path[0..] == path;
    while i + 1 < |path|
      invariant 0 <= i <= |path|
      invariant forall j :: i <= j < |path| - 1 ==> Cap(r, Hop(eq, path, j)) >= alloc
      invariant forall k :: k in r ==> r[k] > 0 && k in g
      invariant forall k :: Cap(r, k) - EdgeSum(E.PathFlows(path[i..], alloc, eq), k) == Cap(g, k) - EdgeSum(E.PathFlows(path, alloc, eq), k)
      decreases |path| - i
    {
      var k := Hop(eq, path, i);
      PathFlowsStep(path[i..], alloc, eq);
      assert path[i..][1..] == path[i + 1..];
      assert forall j :: i < j < |path| - 1 ==> Hop(eq, path, j).debtor != k.debtor;
      var left := Cap(r, k) - alloc;
      ghost var r0 := r;
      if left <= 0 {
        r := map j | j in r && j != k :: r[j];
      } else {
        r := r[k := left];
      }
      assert forall j :: Cap(r, j) == Cap(r0, j) - (if j == k then alloc else 0);
      i := i + 1;
    }
    assert |path[i..]| < 2;
  }

  lemma PathFlowsStep(path: seq<Pid>, alloc: int, eq: string)
    requires |path| >= 2
    ensures forall k :: EdgeSum(E.PathFlows(path, alloc, eq), k)
                     == (if k == DebtKey(eq, path[0], path[1]) then alloc else 0) + EdgeSum(E.PathFlows(path[1..], alloc, eq), k)
  {
    assert E.PathFlows(path, alloc, eq)[1..] == E.PathFlows(path[1..], alloc, eq);
  }

  lemma {:induction false} SegmentsAppend(routes: seq<E.Route>, r: E.Route, eq: string)
    ensures E.Segments(routes + [r], eq) == E.Segments(routes, eq) + E.PathFlows(r.path, r.amount, eq)
    decreases |routes|
  {
    if routes == [] {
      assert (routes + [r])[1..] == [];
    } else {
      assert (routes + [r])[1..] == routes[1..] + [r];
      SegmentsAppend(routes[1..], r, eq);
    }
  }

  lemma {:induction false} TotalAppend(routes: seq<E.Route>, r: E.Route)
    ensures E.Total(routes + [r]) == E.Total(routes) + r.amount
    decreases |routes|
  {
    if routes == [] {
      assert [r][1..] == [];
    } else {
      assert (routes + [r])[1..] == routes[1..] + [r];
      TotalAppend(routes[1..], r);
    }
  }

  /** A route the split may return. */
  ghost predicate GoodRoute(g: Graph, policies: map<DebtKey, Policy>, q: Query, r: E.Route)
  {
    r.amount > 0 && Usable(g, policies, q.(amount := 0), r.path)
  }

  /** The routes are usable, at most `maxPaths` many, and together take no more than each
      edge has. */
  ghost predicate Split(g: Graph, policies: map<DebtKey, Policy>, q: Query, maxPaths: int, routes: seq<E.Route>)
  {
    && |routes| <= maxPaths
    && (forall r :: r in routes ==> GoodRoute(g, policies, q, r))
    && (forall k :: EdgeSum(E.Segments(routes, q.eq), k) <= Cap(g, k))
  }

  /** A path usable on a residual graph is usable on the graph it came from. */
  lemma UsableOnWhole(g: Graph, residual: Graph, policies: map<DebtKey, Policy>, q: Query, p: seq<Pid>)
    requires q.amount == 0 && Usable(residual, policies, q, p)
    requires forall k :: k in residual ==> k in g && g[k] > 0
    ensures Usable(g, policies, q, p)
  {
  }

  lemma SplitStep(g: Graph, residual: Graph, policies: map<DebtKey, Policy>, q: Query, maxPaths: int, routes: seq<E.Route>, r: E.Route, residual': Graph)
    requires Split(g, policies, q, maxPaths, routes) && |routes| < maxPaths && GoodRoute(g, policies, q, r)
    requires Residual(g, residual, routes, q.eq)
    requires forall k :: Cap(residual', k) == Cap(residual, k) - EdgeSum(E.PathFlows(r.path, r.amount, q.eq), k)
    requires forall k :: k in residual' ==> residual'[k] > 0 && k in residual
    ensures Split(g, policies, q, maxPaths, routes + [r]) && Residual(g, residual', routes + [r], q.eq)
  {
    SegmentsAppend(routes, r, q.eq);
    forall k ensures Cap(residual', k) == Cap(g, k) - EdgeSum(E.Segments(routes + [r], q.eq), k) && Cap(residual', k) >= 0 {
      EdgeSumAppend(E.Segments(routes, q.eq), E.PathFlows(r.path, r.amount, q.eq), k);
      assert Cap(residual, k) == Cap(g, k) - EdgeSum(E.Segments(routes, q.eq), k);
    }
  }

  /** No path with any capacity is left between payer and payee. */
  ghost predicate NoRouteLeft(nodes: set<Pid>, residual: Graph, policies: map<DebtKey, Policy>, q: Query)
  {
    q.payer !in nodes || q.payee !in nodes || forall p :: !Usable(residual, policies, q.(amount := 0), p)
  }

  /** The route takes a shortest path, and either all that was asked for or all that its
      narrowest edge had. */
  ghost predicate Greedy(before: Graph, after: Graph, policies: map<DebtKey, Policy>, q: Query, r: E.Route, remaining: int)
  {
    && Usable(before, policies, q.(amount := 0), r.path)
    && (forall p :: Usable(before, policies, q.(amount := 0), p) ==> |r.path| <= |p|)
    && (r.amount == remaining || exists i :: 0 <= i < |r.path| - 1 && Cap(before, Hop(q.eq, r.path, i)) == r.amount && Cap(after, Hop(q.eq, r.path, i)) <= 0)
  }

  /** Why a split fails: too little found with all paths used up, or nothing left to find. */
  ghost predicate GaveUp(nodes: set<Pid>, g: Graph, policies: map<DebtKey, Policy>, q: Query, maxPaths: int, tried: seq<E.Route>, residual: Graph)
  {
    && Split(g, policies, q, maxPaths, tried) && Residual(g, residual, tried, q.eq) && E.Total(tried) < q.amount
    && (|tried| >= maxPaths || NoRouteLeft(nodes, residual, policies, q))
  }

  lemma PositiveHops(g: Graph, policies: map<DebtKey, Policy>, q: Query, p: seq<Pid>)
    requires Usable(g, policies, q, p)
    ensures forall i :: 0 <= i < |p| - 1 ==> Cap(g, Hop(q.eq, p, i)) > 0
  {
  }

  /** One augmentation: the shortest path with any residual capacity, filled to its bottleneck. */
  method NextRoute(nodes: set<Pid>, ghost g: Graph, residual0: Graph, policies: map<DebtKey, Policy>, q: Query,
                   ghost maxPaths: int, ghost routes: seq<E.Route>, remaining: int)
    returns (r: Option<E.Route>, residual: Graph)
    requires Known(nodes, g) && remaining > 0 && |routes| < maxPaths
    requires forall k :: k in g ==> g[k] > 0
    requires Split(g, policies, q, maxPaths, routes) && Residual(g, residual0, routes, q.eq)
    ensures r.Some? ==> 0 < r.value.amount <= remaining
    ensures r.Some? ==> Split(g, policies, q, maxPaths, routes + [r.value]) && Residual(g, residual, routes + [r.value], q.eq)
    ensures r.Some? ==> Greedy(residual0, residual, policies, q, r.value, remaining)
    ensures r.None? ==> residual == residual0 && NoRouteLeft(nodes, residual0, policies, q)
  {
    hide Split, Residual, Usable, Known, Cap;
    var any := q.(amount := 0);
    residual := residual0;
    ResidualKnown(nodes, g, residual0, q, routes);
    var path := BfsSinglePath(nodes, residual0, policies, any);
    if path.None? { return None, residual0; }
    ResidualUsable(g, residual0, policies, any, routes, path.value);
    var bottleneck := PathBottleneck(residual0, q.eq, path.value);
    PositiveHops(residual0, policies, any, path.value);
    if bottleneck.Some? && bottleneck.value <= 0 { return None, residual0; }
    var alloc := if bottleneck.None? then remaining else Min(remaining, bottleneck.value);
    residual := Allocate(residual0, q.eq, path.value, alloc);
    SplitStep(g, residual0, policies, q, maxPaths, routes, E.Route(path.value, alloc), residual);
    UsedUp(residual0, residual, q.eq, path.value, alloc);
    r := Some(E.Route(path.value, alloc));
  }

  lemma UsedUp(before: Graph, after: Graph, eq: string, path: seq<Pid>, alloc: int)
    requires alloc > 0 && forall k :: Cap(after, k) == Cap(before, k) - EdgeSum(E.PathFlows(path, alloc, eq), k)
    ensures forall i :: 0 <= i < |path| - 1 && Cap(before, Hop(eq, path, i)) == alloc ==> Cap(after, Hop(eq, path, i)) <= 0
  {
    hide Cap;
    forall i | 0 <= i < |path| - 1 ensures EdgeSum(E.PathFlows(path, alloc, eq), Hop(eq, path, i)) >= alloc {
      HopCarries(path, alloc, eq, i);
    }
  }

  lemma {:induction false} HopCarries(path: seq<Pid>, alloc: int, eq: string, i: nat)
    requires alloc > 0 && i + 1 < |path|
    ensures EdgeSum(E.PathFlows(path, alloc, eq), Hop(eq, path, i)) >= alloc
    decreases |path|
  {
    var fs, k := E.PathFlows(path, alloc, eq), Hop(eq, path, i);
    var rest := E.PathFlows(path[1..], alloc, eq);
    assert fs[0].amount == alloc && fs[1..] == rest;
    if i == 0 {
      E.PathFlowsAt(path[1..], alloc, eq);
      E.NonNegativeEdge(rest, k);
    } else {
      HopCarries(path[1..], alloc, eq, i - 1);
      assert Hop(eq, path[1..], i - 1) == k;
    }
  }

  /** Greedy multipath: usable routes that add up to exactly the amount without over-committing
      any edge; or no routes, after as many as allowed or as there were did not suffice. */
  method FindFlowRoutes(nodes: set<Pid>, g: Graph, policies: map<DebtKey, Policy>, q: Query, maxPaths: int) returns (routes: seq<E.Route>)
    requires Known(nodes, g) && forall k :: k in g ==> g[k] > 0
    ensures routes != [] ==> Split(g, policies, q, maxPaths, routes) && E.Total(routes) == q.amount > 0
    ensures routes == [] ==> q.amount <= 0 || maxPaths <= 0 || exists tried, residual :: GaveUp(nodes, g, policies, q, maxPaths, tried, residual)
    ensures NoSelfBlock(policies, q.eq) ==> forall r :: r in routes ==> ObeysBlocks(policies, q, r.path)
  {
    if q.amount <= 0 || maxPaths <= 0 { return []; }
    var residual := g;
    var remaining := q.amount;
    routes := [];
    SplitStart(g, policies, q, maxPaths);
    hide Split, Residual, Known, NoSelfBlock, ObeysBlocks;
    while remaining > 0 && |routes| < maxPaths
      invariant Split(g, policies, q, maxPaths, routes) && Residual(g, residual, routes, q.eq)
      invariant E.Total(routes) + remaining == q.amount && remaining >= 0
      decreases maxPaths - |routes|
    {
      var r;
      r, residual := NextRoute(nodes, g, residual, policies, q, maxPaths, routes, remaining);
      if r.None? {
        assert GaveUp(nodes, g, policies, q, maxPaths, routes, residual);
        return [];
      }
      TotalAppend(routes, r.value);
      routes := routes + [r.value];
      remaining := remaining - r.value.amount;
    }
    if remaining > 0 {
      assert GaveUp(nodes, g, policies, q, maxPaths, routes, residual);
      return [];
    }
    if NoSelfBlock(policies, q.eq) { SplitObeys(g, policies, q, maxPaths, routes); }
  }

  lemma SplitStart(g: Graph, policies: map<DebtKey, Policy>, q: Query, maxPaths: int)
    requires maxPaths > 0 && forall k :: k in g ==> g[k] > 0
    ensures Split(g, policies, q, maxPaths, []) && Residual(g, g, [], q.eq)
  {
    assert E.Segments([], q.eq) == [];
  }

  lemma ResidualKnown(nodes: set<Pid>, g: Graph, residual: Graph, q: Query, routes: seq<E.Route>)
    requires Known(nodes, g) && Residual(g, residual, routes, q.eq)
    ensures Known(nodes, residual) && forall k :: k in residual ==> residual[k] > 0
  {
  }

  lemma ResidualUsable(g: Graph, residual: Graph, policies: map<DebtKey, Policy>, q: Query, routes: seq<E.Route>, p: seq<Pid>)
    requires Residual(g, residual, routes, q.eq) && q.amount == 0 && Usable(residual, policies, q, p)
    requires forall k :: k in g ==> g[k] > 0
    ensures Usable(g, policies, q, p) && Distinct(p)
  {
    UsableOnWhole(g, residual, policies, q, p);
  }

  // ----- what the engine makes of the routes -----

  /** Routes found on the capacity graph of a state fit that state segment by segment. */
  lemma SplitFits(st: E.State, g: Graph, policies: map<DebtKey, Policy>, q: Query, maxPaths: int, routes: seq<E.Route>, tx: TxId, now: int)
    requires LocksFiled(st.locks) && CapacityGraph(g, st, q.eq, now) && Split(g, policies, q, maxPaths, routes)
    ensures E.Fits(st, tx, E.Segments(routes, q.eq), now)
  {
    var fs := E.Segments(routes, q.eq);
    assert forall r :: r in routes ==> GoodRoute(g, policies, q, r);
    E.SegmentsPositive(routes, q.eq);
    forall i | 0 <= i < |fs| ensures E.FitsAt(st, tx, fs, now, i) {
      var k := fs[i].Key();
      assert fs == fs[..i] + ([fs[i]] + fs[i + 1..]);
      EdgeSumAppend(fs[..i], [fs[i]] + fs[i + 1..], k);
      EdgeSumAppend([fs[i]], fs[i + 1..], k);
      assert EdgeSum([fs[i]], k) == fs[i].amount;
      assert fs[i] in fs && forall f :: f in fs[..i] ==> f in fs;
      assert forall f :: f in fs[i + 1..] ==> f in fs;
      E.NonNegativeEdge(fs[i + 1..], k);
      E.NonNegativeEdge(fs[..i], k);
      assert EdgeSum(fs, k) <= Cap(g, k);
      ExceptAtMostAll(st.locks, k, now, tx);
    }
  }

  lemma ExceptAtMostAll(locks: Locks, k: DebtKey, now: int, tx: TxId)
    requires LocksFiled(locks)
    ensures Reserved(locks, k, now, {tx}) <= Reserved(locks, k, now, {})
  {
    ReservedDrop(locks, tx, k, now);
    ReservedShrinks(locks, tx, k, now, now);
  }

  /** Lines join known participants. */
  ghost predicate LinesKnown(st: E.State)
  {
    forall k :: k in st.lines ==> k.debtor in st.people && k.creditor in st.people
  }

  lemma RouteNodesKnown(st: E.State, g: Graph, policies: map<DebtKey, Policy>, q: Query, p: seq<Pid>, now: int)
    requires CapacityGraph(g, st, q.eq, now) && LinesKnown(st) && Usable(g, policies, q, p) && q.payer != q.payee
    ensures |p| >= 2 && forall x :: x in p ==> x in st.people
  {
    forall x | x in p ensures x in st.people {
      var i :| 0 <= i < |p| && p[i] == x;
      if i < |p| - 1 {
        assert Hop(q.eq, p, i) in g;
      } else {
        assert Hop(q.eq, p, i - 1) in g;
      }
    }
  }

  lemma DistinctPathSenders(path: seq<Pid>, amount: int, eq: string)
    requires Distinct(path)
    ensures SendersDiffer(E.PathFlows(path, amount, eq))
  {
    var fs := E.PathFlows(path, amount, eq);
    E.PathFlowsAt(path, amount, eq);
    forall i, j | 0 <= i < j < |fs| ensures fs[i].from != fs[j].from {
      E.PathFlowsIndex(path, amount, eq, i);
      E.PathFlowsIndex(path, amount, eq, j);
    }
  }

  /** The service prepares a single route by a method of its own; for routes the router returns it
      makes no difference. */
  lemma FoundIsPrepared(st: E.State, g: Graph, policies: map<DebtKey, Policy>, q: Query, maxPaths: int, routes: seq<E.Route>, tx: TxId, now: int, ttl: int)
    requires Split(g, policies, q, maxPaths, routes) && E.Total(routes) == q.amount && q.payer != q.payee && tx !in st.locks
    ensures E.PrepareFound(st, tx, routes, q.amount, q.eq, now, ttl) == E.Prepare(st, tx, routes, q.eq, now, ttl)
  {
    hide E.Prepare, E.PrepareOne, Split;
    if |routes| == 1 {
      var r := routes[0];
      assert r in routes && routes == [r] && routes[1..] == [];
      assert E.Total(routes) == r.amount + E.Total([]);
      SplitMember(g, policies, q, maxPaths, routes, r);
      DistinctPathSenders(r.path, r.amount, q.eq);
      E.OnePathIsOneRoute(st, tx, r.path, r.amount, q.eq, now, ttl);
    }
  }

  /** Routing and reservation agree: whatever the router returns on a fresh graph, phase 1
      accepts at the same state, for a new transaction between different participants, whether
      the service prepares it as one route or as several. */
  lemma RoutesArePrepared(st: E.State, g: Graph, policies: map<DebtKey, Policy>, q: Query, maxPaths: int, routes: seq<E.Route>, tx: TxId, now: int, ttl: int)
    requires LocksFiled(st.locks) && LinesKnown(st) && CapacityGraph(g, st, q.eq, now)
    requires Split(g, policies, q, maxPaths, routes) && E.Total(routes) == q.amount && q.payer != q.payee
    requires tx in st.txs && st.txs[tx] == E.New && tx !in st.locks
    ensures E.PrepareFound(st, tx, routes, q.amount, q.eq, now, ttl) == E.Prepare(st, tx, routes, q.eq, now, ttl)
    ensures E.PrepareFound(st, tx, routes, q.amount, q.eq, now, ttl).1 == E.PrepareDone
  {
    FoundIsPrepared(st, g, policies, q, maxPaths, routes, tx, now, ttl);
    hide Split, Usable, E.Fits, Reserved, E.PrepareFound;
    SplitFits(st, g, policies, q, maxPaths, routes, tx, now);
    forall r | r in routes ensures r.amount > 0 && |r.path| >= 2 && forall x :: x in r.path ==> x in st.people {
      SplitMember(g, policies, q, maxPaths, routes, r);
      RouteNodesKnown(st, g, policies, q.(amount := 0), r.path, now);
    }
  }

  /** From routing to settlement: what the router returned is accepted by phase 1 at the same
      state, and committed before the expiry, after anything other clients do that respects
      reservations, it moves exactly the amount asked for from payer to payee and nothing
      else in any equivalent. */
  lemma RoutedPaymentArrives(st: E.State, g: Graph, policies: map<DebtKey, Policy>, q: Query, maxPaths: int, routes: seq<E.Route>,
                             tx: TxId, now: int, ttl: int, steps: seq<(E.Step, int)>, later: int, e: string, p: Pid)
    requires E.Inv(st) && E.Reservable(st, now) && LinesKnown(st) && CapacityGraph(g, st, q.eq, now)
    requires routes != [] && Split(g, policies, q, maxPaths, routes) && E.Total(routes) == q.amount && q.payer != q.payee
    requires tx in st.txs && st.txs[tx] == E.New && tx !in st.locks
    requires E.Disciplined(E.PrepareFound(st, tx, routes, q.amount, q.eq, now, ttl).0, now, steps) && R.Spares(steps, tx) && E.Clock(now, steps) <= later < now + ttl
    ensures var mid := E.Run(E.PrepareFound(st, tx, routes, q.amount, q.eq, now, ttl).0, steps);
            && E.Commit(mid, tx, later).1 == E.CommitDone
            && Position(E.Commit(mid, tx, later).0.debts, e, p) - Position(mid.debts, e, p)
               == if e != q.eq then 0 else (if p == q.payee then q.amount else 0) - (if p == q.payer then q.amount else 0)
  {
    assert LocksFiled(st.locks);
    hide E.Inv, E.Reservable, E.Prepare, E.PrepareFound, E.Commit, E.Run, E.Disciplined, R.Spares, CapacityGraph, LinesKnown, Split, Position;
    RoutesArePrepared(st, g, policies, q, maxPaths, routes, tx, now, ttl);
    SplitBetween(g, policies, q, maxPaths, routes);
    R.AcceptedPaymentCommits(st, tx, routes, q.eq, now, ttl, steps, later, q.payer, q.payee);
    R.PaymentMovesTotal(st, tx, routes, q.eq, now, ttl, steps, later, q.payer, q.payee, e, p);
  }

  lemma SplitBetween(g: Graph, policies: map<DebtKey, Policy>, q: Query, maxPaths: int, routes: seq<E.Route>)
    requires Split(g, policies, q, maxPaths, routes) && q.payer != q.payee
    ensures R.Between(routes, q.payer, q.payee)
  {
    forall r | r in routes ensures |r.path| >= 2 && r.path[0] == q.payer && r.path[|r.path| - 1] == q.payee {
      SplitMember(g, policies, q, maxPaths, routes, r);
    }
  }

  lemma SplitMember(g: Graph, policies: map<DebtKey, Policy>, q: Query, maxPaths: int, routes: seq<E.Route>, r: E.Route)
    requires Split(g, policies, q, maxPaths, routes) && r in routes
    ensures r.amount > 0 && Usable(g, policies, q.(amount := 0), r.path)
  {
  }

  // ----- when routes obey the blocked-participants rule -----

  /** Where no policy blocks its own debtor, every route obeys the rule. */
  lemma RoutesObey(g: Graph, policies: map<DebtKey, Policy>, q: Query, p: seq<Pid>)
    requires Usable(g, policies, q, p) && NoSelfBlock(policies, q.eq)
    ensures ObeysBlocks(policies, q, p)
  {
    ObeysIffTailsFree(policies, q, p);
    forall i | 0 <= i < |p| - 1 ensures p[i] !in PolicyOf(policies, Hop(q.eq, p, i)).blocked {
      assert p[i] != p[i + 1];
    }
  }

  /** So do all routes of a split. */
  lemma SplitObeys(g: Graph, policies: map<DebtKey, Policy>, q: Query, maxPaths: int, routes: seq<E.Route>)
    requires Split(g, policies, q, maxPaths, routes) && NoSelfBlock(policies, q.eq)
    ensures forall r :: r in routes ==> ObeysBlocks(policies, q, r.path)
  {
    hide Usable, ObeysBlocks, NoSelfBlock;
    forall r | r in routes ensures ObeysBlocks(policies, q, r.path) {
      SplitMember(g, policies, q, maxPaths, routes, r);
      RoutesObey(g, policies, q.(amount := 0), r.path);
      SameRule(policies, q, r.path);
    }
  }

  lemma SameRule(policies: map<DebtKey, Policy>, q: Query, p: seq<Pid>)
    requires ObeysBlocks(policies, q.(amount := 0), p)
    ensures ObeysBlocks(policies, q, p)
  {
    forall i, j | 0 <= i < |p| - 1 && 0 <= j < |p| ensures Endpoint(q, p[j]) || p[j] !in PolicyOf(policies, Hop(q.eq, p, i)).blocked {
      assert Endpoint(q.(amount := 0), p[j]) || p[j] !in PolicyOf(policies, Hop(q.eq, p, i)).blocked;
    }
  }

  lemma {:induction false} LengthBound(s: set<Pid>) returns (n: nat)
    ensures forall x :: x in s ==> |x| <= n
  {
    n := 0;
    if s != {} {
      var x :| x in s;
      n := LengthBound(s - {x});
      n := if |x| > n then |x| else n;
    }
  }

  /** A path over `k` from a participant no policy mentions: usable, and against the rule if
      `k` blocks its own debtor. */
  lemma TailThroughBlock(policies: map<DebtKey, Policy>, k: DebtKey, payer: Pid)
    requires k in policies && k.debtor != k.creditor && k.debtor in policies[k].blocked
    requires payer != k.debtor && payer != k.creditor && DebtKey(k.eq, payer, k.debtor) !in policies
    ensures var g: Graph := map[DebtKey(k.eq, payer, k.debtor) := 1, k := 1];
            var q, p := Query(k.eq, payer, k.creditor, 1, 6, {}), [payer, k.debtor, k.creditor];
            Usable(g, policies, q, p) && !ObeysBlocks(policies, q, p)
  {
    var q, p := Query(k.eq, payer, k.creditor, 1, 6, {}), [payer, k.debtor, k.creditor];
    assert Hop(k.eq, p, 0) == DebtKey(k.eq, payer, k.debtor) && Hop(k.eq, p, 1) == k;
    assert p[1] == k.debtor && !Endpoint(q, p[1]);
    assert PolicyAllows(policies, q, p);
  }

  /** The code meets the rule on every capacity graph and for every query of an equivalent
      exactly when no policy of that equivalent blocks its own debtor. */
  lemma RuleHoldsIffNoSelfBlock(policies: map<DebtKey, Policy>, eq: string)
    ensures (forall g, q: Query, p :: q.eq == eq && Usable(g, policies, q, p) ==> ObeysBlocks(policies, q, p)) <==> NoSelfBlock(policies, eq)
  {
    hide Usable, ObeysBlocks;
    if NoSelfBlock(policies, eq) {
      forall g, q: Query, p | q.eq == eq && Usable(g, policies, q, p) ensures ObeysBlocks(policies, q, p) {
        RoutesObey(g, policies, q, p);
      }
    } else {
      var k :| k in policies && k.eq == eq && k.debtor != k.creditor && k.debtor in policies[k].blocked;
      var named := (set j | j in policies :: j.debtor) + {k.debtor, k.creditor};
      var n := LengthBound(named);
      var payer := seq(n + 1, i => 'x');
      assert payer !in named;
      assert DebtKey(eq, payer, k.debtor) !in policies;
      TailThroughBlock(policies, k, payer);
    }
  }

  /** The input behind the condition: B's line to C blocks B, and the route from A to C still
      leads over B. */
  lemma OwnTailMayBeBlocked()
    ensures var g: Graph := map[DebtKey("UAH", "A", "B") := 1, DebtKey("UAH", "B", "C") := 1];
            var policies := map[DebtKey("UAH", "B", "C") := Policy(true, {"B"})];
            var q, p := Query("UAH", "A", "C", 1, 6, {}), ["A", "B", "C"];
            Usable(g, policies, q, p) && !ObeysBlocks(policies, q, p)
  {
    TailThroughBlock(map[DebtKey("UAH", "B", "C") := Policy(true, {"B"})], DebtKey("UAH", "B", "C"), "A");
  }
}
