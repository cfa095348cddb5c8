/** The payment engine as an object over its tables: each method does its work in loops and
    leaves exactly the state its step of the run model names. */
module PaymentEngine {
  import opened Options
  import opened Sums
  import opened Ledger
  import opened Flows
  import opened PrepareLocks
  import E = Engine
  import Checker

  /** The reservations of other live transactions along one edge. */
  method ReservedUsage(locks: Locks, tx: TxId, k: DebtKey, now: int) returns (r: int)
    ensures r == Reserved(locks, k, now, {tx})
  {
    r := 0;
    var all := locks.Keys - {tx};
    var rest := all;
    ghost var f := (t: TxId) => LiveSum(locks, t, k, now);
    while rest != {}
      invariant rest <= all
      invariant r == Sum(all - rest, f)
      decreases rest
    {
      var t :| t in rest;
      if locks[t].expires > now {
        var rows := locks[t].rows;
        var own := 0;
        for i := 0 to |rows|
          invariant RowsSum(rows, k) == own + RowsSum(rows[i..], k)
        {
          assert rows[i..][1..] == rows[i + 1..];
          if rows[i].participant == k.debtor {
            own := own + EdgeSum(rows[i].flows, k);
          }
        }
        assert rows[|rows|..] == [];
        r := r + own;
      }
      SumInsert(all - rest, f, t);
      assert all - rest + {t} == all - (rest - {t});
      rest := rest - {t};
    }
    assert all - rest == all;
  }

  /** The reservations of this call so far. */
  ghost predicate Counted(local: map<DebtKey, int>, fs: seq<Flow>)
  {
    forall k :: Get(local, k) == EdgeSum(fs, k)
  }

  lemma CountOneMore(local: map<DebtKey, int>, fs: seq<Flow>, f: Flow)
    requires Counted(local, fs)
    ensures Counted(local[f.Key() := Get(local, f.Key()) + f.amount], fs + [f])
  {
    var after := local[f.Key() := Get(local, f.Key()) + f.amount];
    forall j ensures Get(after, j) == EdgeSum(fs + [f], j) {
      EdgeSumAppend(fs, [f], j);
      assert EdgeSum([f], j) == if j == f.Key() then f.amount else 0;
      assert Get(local, j) == EdgeSum(fs, j);
    }
  }

  /** Checks every segment in turn, counting the reservations of this call as it goes, and
      files the flows under their senders. */
  method ReserveSegments(st: E.State, tx: TxId, fs: seq<Flow>, now: int) returns (ok: bool, rows: seq<LockRow>)
    ensures ok <==> E.Fits(st, tx, fs, now)
    ensures ok ==> rows == FileFlows([], fs)
  {
    hide FileFlow, EdgeSum;
    rows := [];
    var localReserved: map<DebtKey, int> := map[];
    assert Counted(localReserved, fs[..0]) by { NothingCounted(); assert fs[..0] == []; }
    for i := 0 to |fs|
      invariant forall j :: 0 <= j < i ==> E.FitsAt(st, tx, fs, now, j)
      invariant Counted(localReserved, fs[..i])
      invariant rows == FileFlows([], fs[..i])
    {
      var k := fs[i].Key();
      var reserved := ReservedUsage(st.locks, tx, k, now);
      reserved := reserved + Get(localReserved, k);
      if E.Available(st, k) < fs[i].amount + reserved {
        assert !E.FitsAt(st, tx, fs, now, i);
        return false, [];
      }
      assert fs[..i + 1] == fs[..i] + [fs[i]];
      assert fs[..i + 1][..i] == fs[..i];
      rows := FileFlow(rows, fs[i]);
      CountOneMore(localReserved, fs[..i], fs[i]);
      localReserved := localReserved[k := Get(localReserved, k) + fs[i].amount];
    }
    assert fs[..|fs|] == fs;
    ok := true;
  }

  lemma NothingCounted()
    ensures Counted(map[], [])
  {
  }

  /** The segment loop of a single path. */
  method LockSegments(st: E.State, tx: TxId, fs: seq<Flow>, now: int) returns (ok: bool, rows: seq<LockRow>)
    ensures ok <==> forall f :: f in fs ==> E.FitsAlone(st, tx, f, now)
    ensures ok ==> rows == RowEach(fs)
  {
    rows := [];
    for i := 0 to |fs|
      invariant forall j :: 0 <= j < i ==> E.FitsAlone(st, tx, fs[j], now)
      invariant rows == RowEach(fs[..i])
    {
      var k := fs[i].Key();
      var reserved := ReservedUsage(st.locks, tx, k, now);
      if E.Available(st, k) < fs[i].amount + reserved {
        assert fs[i] in fs && !E.FitsAlone(st, tx, fs[i], now);
        return false, [];
      }
      assert fs[..i + 1][..i] == fs[..i];
      rows := rows + [LockRow(fs[i].from, [fs[i]])];
    }
    assert fs[..|fs|] == fs;
    ok := true;
  }

  /** The lock table takes one row per transaction and sender. */
  method AcceptRows(rows: seq<LockRow>) returns (ok: bool)
    ensures ok <==> SendersOnce(rows)
  {
    var senders: set<Pid> := {};
    for n := 0 to |rows|
      invariant forall i, j :: 0 <= i < j < n ==> rows[i].participant != rows[j].participant
      invariant forall x :: x in senders <==> exists i :: 0 <= i < n && rows[i].participant == x
    {
      if rows[n].participant in senders { return false; }
      senders := senders + {rows[n].participant};
    }
    ok := true;
  }

  ghost predicate SendersOnce(rows: seq<LockRow>)
  {
    forall i, j :: 0 <= i < j < |rows| ==> rows[i].participant != rows[j].participant
  }

  lemma SendersOf(fs: seq<Flow>)
    ensures SendersDiffer(fs) <==> SendersOnce(RowEach(fs))
  {
    hide RowEach;
    var rows := RowEach(fs);
    if SendersDiffer(fs) {
      forall i, j | 0 <= i < j < |rows| ensures rows[i].participant != rows[j].participant {
        assert fs[i].from != fs[j].from;
      }
    }
    if SendersOnce(rows) {
      forall i, j | 0 <= i < j < |fs| ensures fs[i].from != fs[j].from {
        assert rows[i].participant != rows[j].participant;
      }
    }
  }

  /** Applies the rows' flows one after the other. */
  method ApplyRows(d: Debts, rows: seq<LockRow>) returns (after: Debts)
    ensures after == ApplyFlows(d, RowFlows(rows))
  {
    after := d;
    for i := 0 to |rows|
      invariant ApplyFlows(after, RowFlows(rows[i..])) == ApplyFlows(d, RowFlows(rows))
    {
      var fs := rows[i].flows;
      ghost var later := RowFlows(rows[i + 1..]);
      assert rows[i..][1..] == rows[i + 1..];
      assert RowFlows(rows[i..]) == fs + later;
      for j := 0 to |fs|
        invariant ApplyFlows(after, fs[j..] + later) == ApplyFlows(d, RowFlows(rows))
      {
        assert (fs[j..] + later)[0] == fs[j] && (fs[j..] + later)[1..] == fs[j + 1..] + later;
        after := ApplyFlow(after, fs[j]);
      }
      assert fs[|fs|..] + later == later;
    }
    assert rows[|rows|..] == [];
  }

  /** Both directions of every pair the flows use, grouped by equivalent. */
  method AffectedPairs(fs: seq<Flow>) returns (pairs: map<string, seq<(Pid, Pid)>>)
    ensures forall k: DebtKey :: Touches(fs, k) <==> k.eq in pairs && (k.debtor, k.creditor) in pairs[k.eq]
    ensures forall eq :: eq in pairs ==> pairs[eq] != []
    ensures forall eq, a, b :: eq in pairs && (a, b) in pairs[eq] ==> (b, a) in pairs[eq]
  {
    pairs := map[];
    for i := 0 to |fs|
      invariant forall k: DebtKey :: Touches(fs[..i], k) <==> k.eq in pairs && (k.debtor, k.creditor) in pairs[k.eq]
      invariant forall eq :: eq in pairs ==> pairs[eq] != []
      invariant forall eq, a, b :: eq in pairs && (a, b) in pairs[eq] ==> (b, a) in pairs[eq]
    {
      TouchesStep(fs, i);
      var f := fs[i];
      var known := if f.eq in pairs then pairs[f.eq] else [];
      pairs := pairs[f.eq := known + [(f.from, f.to), (f.to, f.from)]];
    }
    assert fs[..|fs|] == fs;
  }

  lemma TouchesStep(fs: seq<Flow>, i: nat)
    requires i < |fs|
    ensures forall k :: Touches(fs[..i + 1], k) <==> Touches(fs[..i], k) || fs[i].Key() == k || fs[i].Key() == k.Reverse()
  {
    forall k ensures Touches(fs[..i + 1], k) <==> Touches(fs[..i], k) || fs[i].Key() == k || fs[i].Key() == k.Reverse() {
      if Touches(fs[..i], k) {
        var j :| 0 <= j < i && (fs[..i][j].Key() == k || fs[..i][j].Key() == k.Reverse());
        assert fs[..i + 1][j] == fs[j];
      }
      assert fs[..i + 1][i] == fs[i];
      if Touches(fs[..i + 1], k) {
        var j :| 0 <= j < i + 1 && (fs[..i + 1][j].Key() == k || fs[..i + 1][j].Key() == k.Reverse());
        if j < i { assert fs[..i][j] == fs[j]; }
      }
    }
  }

  /** Compares each affected participant's move with the flows, to within one atom. */
  method DeltaCheck(before: Debts, after: Debts, fs: seq<Flow>) returns (ok: bool)
    ensures ok <==> forall f, p :: f in fs && p in {f.from, f.to} ==>
      -1 <= Position(after, f.eq, p) - Position(before, f.eq, p) - Delta(fs, f.eq, p) <= 1
  {
    ok := true;
    for i := 0 to |fs|
      invariant ok <==> forall f, p :: f in fs[..i] && p in {f.from, f.to} ==>
        -1 <= Position(after, f.eq, p) - Position(before, f.eq, p) - Delta(fs, f.eq, p) <= 1
    {
      var f := fs[i];
      assert fs[..i + 1] == fs[..i] + [f];
      var b0 := Checker.NetPosition(before, f.eq, f.from);
      var a0 := Checker.NetPosition(after, f.eq, f.from);
      var b1 := Checker.NetPosition(before, f.eq, f.to);
      var a1 := Checker.NetPosition(after, f.eq, f.to);
      var drift0 := a0 - b0 - Delta(fs, f.eq, f.from);
      var drift1 := a1 - b1 - Delta(fs, f.eq, f.to);
      if !(-1 <= drift0 <= 1 && -1 <= drift1 <= 1) {
        ok := false;
        assert f in fs[..i + 1] && f.from in {f.from, f.to} && f.to in {f.from, f.to};
      }
    }
    assert fs[..|fs|] == fs;
  }

  /** All four checks commit runs before it makes the debts durable. */
  method RunChecks(before: Debts, after: Debts, lines: Lines, fs: seq<Flow>) returns (ok: bool)
    requires WellFormed(after)
    ensures ok <==> E.ChecksPass(before, after, lines, fs)
  {
    hide Position, E.ZeroSumHolds, Touches, WellFormed;
    forall eq ensures E.ZeroSumHolds(after, eq) { ZeroSumAlways(after, eq); }
    var pairs := AffectedPairs(fs);
    ok := true;
    var rest := pairs.Keys;
    while rest != {}
      invariant rest <= pairs.Keys
      invariant ok <==> forall eq :: eq in pairs && eq !in rest ==> GoodIn(after, lines, fs, eq)
      decreases rest
    {
      var eq :| eq in rest;
      var over := Checker.CheckTrustLimits(after, lines, Some(eq), pairs[eq]);
      var imbalance := Checker.ComputeImbalance(after, eq);
      var mutual := Checker.CheckDebtSymmetry(after, Some(eq), pairs[eq]);
      MutualMeansTouched(after, fs, eq, pairs, mutual);
      OverMeansTouched(after, lines, fs, eq, pairs, over);
      if over != [] || imbalance != 0 || mutual != [] { ok := false; }
      rest := rest - {eq};
    }
    AllGood(after, lines, fs, pairs);
    var deltasOk := DeltaCheck(before, after, fs);
    ok := ok && deltasOk;
  }

  /** The limit and symmetry checks of one equivalent, on the pairs the flows touch. */
  ghost predicate GoodIn(after: Debts, lines: Lines, fs: seq<Flow>, eq: string)
  {
    && (forall k: DebtKey :: k in after && Touches(fs, k) && k.eq == eq ==> after[k] <= Limit(lines, k))
    && (forall k: DebtKey :: Touches(fs, k) && k.eq == eq ==> !Checker.MutualAt(after, k))
  }

  lemma AllGood(after: Debts, lines: Lines, fs: seq<Flow>, pairs: map<string, seq<(Pid, Pid)>>)
    requires WellFormed(after)
    requires forall k: DebtKey :: Touches(fs, k) <==> k.eq in pairs && (k.debtor, k.creditor) in pairs[k.eq]
    ensures (forall eq :: eq in pairs ==> GoodIn(after, lines, fs, eq)) <==> E.TrustLimitsHold(after, lines, fs) && E.NoMutualDebts(after, fs)
  {
    hide Touches;
    if forall eq :: eq in pairs ==> GoodIn(after, lines, fs, eq) {
      forall k | Touches(fs, k) ensures (k in after ==> after[k] <= Limit(lines, k)) && !Checker.MutualAt(after, k) {
        assert GoodIn(after, lines, fs, k.eq);
      }
    }
  }

  lemma ZeroSumAlways(d: Debts, eq: string)
    ensures E.ZeroSumHolds(d, eq)
  {
    ZeroSum(d, eq, E.Involved(d, eq));
  }

  lemma MutualMeansTouched(after: Debts, fs: seq<Flow>, eq: string, pairs: map<string, seq<(Pid, Pid)>>, mutual: seq<DebtKey>)
    requires eq in pairs && pairs[eq] != []
    requires forall k: DebtKey :: Touches(fs, k) <==> k.eq in pairs && (k.debtor, k.creditor) in pairs[k.eq]
    requires forall a, b :: (a, b) in pairs[eq] ==> (b, a) in pairs[eq]
    requires mutual == [] <==> forall k :: Checker.PairSelected(k, Some(eq), pairs[eq]) ==> !Checker.MutualAt(after, k)
    ensures mutual == [] <==> forall k: DebtKey :: Touches(fs, k) && k.eq == eq ==> !Checker.MutualAt(after, k)
  {
    hide Touches;
    forall k: DebtKey ensures Checker.PairSelected(k, Some(eq), pairs[eq]) <==> Touches(fs, k) && k.eq == eq {
    }
  }

  lemma OverMeansTouched(after: Debts, lines: Lines, fs: seq<Flow>, eq: string, pairs: map<string, seq<(Pid, Pid)>>, over: seq<Checker.LimitViolation>)
    requires eq in pairs && pairs[eq] != []
    requires forall k: DebtKey :: Touches(fs, k) <==> k.eq in pairs && (k.debtor, k.creditor) in pairs[k.eq]
    requires forall v :: v in over ==> Checker.Exceeds(after, lines, v) && Checker.Selected(v.key, Some(eq), pairs[eq])
    requires forall k :: Checker.OverLimit(after, lines, k) && Checker.Selected(k, Some(eq), pairs[eq]) ==> exists v :: v in over && v.key == k
    ensures over == [] <==> forall k: DebtKey :: k in after && Touches(fs, k) && k.eq == eq ==> after[k] <= Limit(lines, k)
  {
    if over != [] {
      var v := over[0];
      assert v in over;
      assert Touches(fs, v.key) && v.key.eq == eq;
    }
    forall k: DebtKey | over == [] && k in after && Touches(fs, k) && k.eq == eq ensures after[k] <= Limit(lines, k) {
      assert Checker.Selected(k, Some(eq), pairs[eq]);
      assert !Checker.OverLimit(after, lines, k);
    }
  }

  lemma {:induction false} RowFlowsPermute(rows: seq<LockRow>, order: seq<LockRow>)
    requires multiset(rows) == multiset(order)
    ensures multiset(RowFlows(rows)) == multiset(RowFlows(order))
    decreases |rows|
  {
    if rows == [] {
      assert |order| == |multiset(order)| == 0;
    } else {
      assert rows[0] in multiset(rows) && rows[0] in order;
      var i :| 0 <= i < |order| && order[i] == rows[0];
      DropSame(rows, order, i);
      RowFlowsPermute(rows[1..], order[..i] + order[i + 1..]);
      FlowsWithout(order, i);
      assert RowFlows(rows) == rows[0].flows + RowFlows(rows[1..]);
    }
  }

  lemma FlowsWithout(order: seq<LockRow>, i: nat)
    requires i < |order|
    ensures multiset(RowFlows(order)) == multiset(order[i].flows) + multiset(RowFlows(order[..i] + order[i + 1..]))
  {
    var a, c := order[..i], order[i + 1..];
    assert order == a + ([order[i]] + c);
    RowFlowsAppend(a, [order[i]] + c);
    RowFlowsAppend(a, c);
    assert ([order[i]] + c)[1..] == c;
    BringForward(RowFlows(a), order[i].flows, RowFlows(c));
  }

  lemma BringForward<T>(a: seq<T>, x: seq<T>, c: seq<T>)
    ensures multiset(a + (x + c)) == multiset(x) + multiset(a + c)
  {
  }

  lemma {:induction false} RowFlowsAppend(a: seq<LockRow>, b: seq<LockRow>)
    ensures RowFlows(a + b) == RowFlows(a) + RowFlows(b)
    decreases |a|
  {
    if a == [] {
      assert a + b == b;
    } else {
      assert (a + b)[1..] == a[1..] + b;
      RowFlowsAppend(a[1..], b);
    }
  }

  class Engine {
    var debts: Debts
    var lines: Lines
    var people: set<Pid>
    var txs: map<TxId, E.TxState>
    var locks: Locks

    /** The tables as one value. */
    function Tables(): E.State
      reads this
    {
      E.State(debts, lines, people, txs, locks)
    }

    /** Phase 1. */
    method PrepareRoutes(tx: TxId, routes: seq<E.Route>, eq: string, now: int, ttl: int) returns (outcome: E.PrepareOutcome)
      modifies this`txs, this`locks
      ensures (Tables(), outcome) == E.Prepare(old(Tables()), tx, routes, eq, now, ttl)
    {
      hide E.Fits, E.Segments, FileFlows;
      if tx !in txs { return E.PrepareNotFound; }
      if txs[tx] == E.Committed { return E.PrepareRepeated; }
      if txs[tx] == E.Aborted || txs[tx] == E.Rejected { return E.PrepareConflict; }
      if tx in locks {
        if txs[tx] == E.Prepared { return E.PrepareRepeated; }
        return E.PrepareConflict;
      }
      var named := true;
      for i := 0 to |routes|
        invariant forall j :: 0 <= j < i ==> routes[j].amount > 0 && |routes[j].path| >= 2
        invariant named <==> forall j :: 0 <= j < i ==> forall p :: p in routes[j].path ==> p in people
      {
        if routes[i].amount <= 0 || |routes[i].path| < 2 {
          assert routes[i] in routes;
          return E.PrepareBadRoute;
        }
        named := named && forall p :: p in routes[i].path ==> p in people;
      }
      if !named { return E.PrepareUnknownParticipant; }
      var ok, rows := ReserveSegments(Tables(), tx, E.Segments(routes, eq), now);
      if !ok { return E.PrepareNoCapacity; }
      if rows != [] {
        locks := locks[tx := Lock(rows, now + ttl)];
      }
      txs := txs[tx := E.Prepared];
      return E.PrepareDone;
    }

    /** Phase 1 for one route: a lock row per segment. */
    method PreparePath(tx: TxId, path: seq<Pid>, amount: int, eq: string, now: int, ttl: int) returns (outcome: E.PrepareOutcome)
      modifies this`txs, this`locks
      ensures (Tables(), outcome) == E.PrepareOne(old(Tables()), tx, path, amount, eq, now, ttl)
    {
      hide E.PathFlows, RowEach, E.FitsAlone;
      if tx !in txs { return E.PrepareNotFound; }
      if txs[tx] == E.Committed { return E.PrepareRepeated; }
      if txs[tx] == E.Aborted || txs[tx] == E.Rejected { return E.PrepareConflict; }
      if exists p :: p in path && p !in people { return E.PrepareUnknownParticipant; }
      if tx in locks {
        if txs[tx] == E.Prepared { return E.PrepareRepeated; }
        return E.PrepareConflict;
      }
      var fs := E.PathFlows(path, amount, eq);
      var ok, rows := LockSegments(Tables(), tx, fs, now);
      if !ok { return E.PrepareNoCapacity; }
      var stored := AcceptRows(rows);
      SendersOf(fs);
      if !stored { return E.PrepareUnstorable; }
      if rows != [] {
        locks := locks[tx := Lock(rows, now + ttl)];
      }
      txs := txs[tx := E.Prepared];
      return E.PrepareDone;
    }

    /** Releases the locks and records the abort unless the transaction is terminal. */
    method Abort(tx: TxId) returns (outcome: E.AbortOutcome)
      modifies this`txs, this`locks
      ensures (Tables(), outcome) == E.Abort(old(Tables()), tx)
      ensures tx !in locks
    {
      locks := locks - {tx};
      if tx in txs && txs[tx] == E.Committed { return E.AlreadyCommitted; }
      if tx in txs && txs[tx] == E.Aborted { return E.AlreadyAborted; }
      if tx in txs { txs := txs[tx := E.Aborted]; }
      return E.Success;
    }

    /** Phase 2. `order` is the order of the lock rows' random identifiers; it does not
        influence the result. */
    method Commit(tx: TxId, now: int, order: seq<LockRow>) returns (outcome: E.CommitOutcome)
      requires WellFormed(debts)
      requires tx in locks ==> multiset(order) == multiset(locks[tx].rows)
      modifies this`debts, this`txs, this`locks
      ensures (Tables(), outcome) == E.Commit(old(Tables()), tx, now)
    {
      hide E.ChecksPass, ApplyFlows, E.Malformed;
      if tx !in txs { return E.CommitNotFound; }
      if txs[tx] == E.Committed { return E.CommitRepeated; }
      if txs[tx] != E.Prepared { return E.CommitConflict; }
      if tx !in locks { return E.CommitNoLocks; }
      var parsed := Parse(order);
      MalformedPermutes(locks[tx].rows, order);
      if !parsed { return E.CommitMalformed; }
      if locks[tx].expires <= now {
        var _ := Abort(tx);
        return E.CommitExpired;
      }
      ghost var fs := RowFlows(locks[tx].rows);
      RowFlowsPermute(locks[tx].rows, order);
      SameMembers(fs, RowFlows(order));
      if exists f :: f in RowFlows(order) && f.from == f.to { return E.CommitUnstorable; }
      ParsedProper(locks[tx].rows);
      var before := debts;
      ApplyOrderIrrelevant(before, fs, RowFlows(order));
      ApplyFlowsShape(before, fs);
      var after := ApplyRows(before, order);
      var ok := RunChecks(before, after, lines, RowFlows(locks[tx].rows));
      if !ok {
        var _ := Abort(tx);
        return E.CommitViolation;
      }
      debts := after;
      locks := locks - {tx};
      txs := txs[tx := E.Committed];
      return E.CommitDone;
    }
  }

  /** Strict parsing of the persisted effects. */
  method Parse(rows: seq<LockRow>) returns (ok: bool)
    ensures ok <==> !E.Malformed(rows)
  {
    if rows == [] { return false; }
    for i := 0 to |rows|
      invariant forall r :: r in rows[..i] ==> r.flows != [] && forall f :: f in r.flows ==> f.amount > 0
    {
      assert rows[i] in rows;
      if rows[i].flows == [] { return false; }
      for j := 0 to |rows[i].flows|
        invariant forall f :: f in rows[i].flows[..j] ==> f.amount > 0
      {
        assert rows[i].flows[j] in rows[i].flows;
        if rows[i].flows[j].amount <= 0 { return false; }
      }
      assert rows[i].flows[..|rows[i].flows|] == rows[i].flows;
      assert rows[..i + 1] == rows[..i] + [rows[i]];
    }
    assert rows[..|rows|] == rows;
    return true;
  }

  lemma SameMembers<T>(a: seq<T>, b: seq<T>)
    requires multiset(a) == multiset(b)
    ensures forall x :: x in a <==> x in b
  {
    assert forall x :: x in a <==> x in multiset(a);
    assert forall x :: x in b <==> x in multiset(b);
  }

  lemma MalformedPermutes(rows: seq<LockRow>, order: seq<LockRow>)
    requires multiset(rows) == multiset(order)
    ensures E.Malformed(rows) <==> E.Malformed(order)
  {
    SameMembers(rows, order);
    assert |rows| == |multiset(rows)| && |order| == |multiset(order)|;
  }

  lemma {:induction false} FlowsComeFromRows(rows: seq<LockRow>, f: Flow)
    requires f in RowFlows(rows)
    ensures exists r :: r in rows && f in r.flows
    decreases |rows|
  {
    if f in rows[0].flows {
      assert rows[0] in rows;
    } else {
      FlowsComeFromRows(rows[1..], f);
      var r :| r in rows[1..] && f in r.flows;
      assert r in rows;
    }
  }

  lemma ParsedProper(rows: seq<LockRow>)
    requires !E.Malformed(rows) && forall f :: f in RowFlows(rows) ==> f.from != f.to
    ensures AllProper(RowFlows(rows))
  {
    forall f | f in RowFlows(rows) ensures Proper(f) {
      FlowsComeFromRows(rows, f);
    }
  }
}
