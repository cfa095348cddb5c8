/** What whole runs of the engine do to transactions, positions and payments. */
module EngineRuns {
  import opened Lists
  import opened Ledger
  import opened Flows
  import opened PrepareLocks
  import opened Engine
  import Clearing

  // ----- terminal states -----

  lemma StepKeepsTerminal(st: State, step: Step, now: int, tx: TxId)
    requires tx in st.txs && (st.txs[tx] == Committed || st.txs[tx] == Aborted)
    ensures tx in Next(st, step, now).txs && Next(st, step, now).txs[tx] == st.txs[tx]
  {
    hide ChecksPass, Fits, GoodRoutes, ApplyFlows;
  }

  /** A committed transaction stays committed and an aborted one aborted, whatever follows. */
  lemma {:induction false} RunKeepsTerminal(st: State, steps: seq<(Step, int)>, tx: TxId)
    requires tx in st.txs && (st.txs[tx] == Committed || st.txs[tx] == Aborted)
    ensures tx in Run(st, steps).txs && Run(st, steps).txs[tx] == st.txs[tx]
    decreases |steps|
  {
    if steps != [] {
      RunKeepsTerminal(st, steps[..|steps| - 1], tx);
      StepKeepsTerminal(Run(st, steps[..|steps| - 1]), steps[|steps| - 1].0, steps[|steps| - 1].1, tx);
    }
  }

  /** A transaction is applied at most once: after a commit, every later commit of it in any
      run is a no-op, and an abort reports the commit. */
  lemma CommittedOnce(st: State, steps: seq<(Step, int)>, tx: TxId, now: int, later: int)
    requires Commit(st, tx, now).1.CommitDone?
    ensures var after := Run(Commit(st, tx, now).0, steps);
            Commit(after, tx, later) == (after, CommitRepeated) && Abort(after, tx).1 == AlreadyCommitted
  {
    RunKeepsTerminal(Commit(st, tx, now).0, steps, tx);
  }

  // ----- conservation -----

  /** What one step adds to a net position: the flows of the transaction it commits. */
  ghost function StepDelta(st: State, step: Step, now: int, eq: string, p: Pid): int
  {
    if step.CommitTx? && Commit(st, step.tx, now).1.CommitDone?
    then Delta(RowFlows(st.locks[step.tx].rows), eq, p)
    else 0
  }

  /** What a clearing adds to it: nothing, unless its rows are unbalanced in this equivalent. */
  ghost function StepDrift(st: State, step: Step, now: int, eq: string, p: Pid): int
  {
    if step.Clear? && Clearing.Takes(st.debts, step.rows, Protected(st, step.declined, now), step.interlocked)
    then Clearing.MinOwed(st.debts, step.rows) * Clearing.Imbalance(step.rows, eq, p)
    else 0
  }

  lemma StepMovesPosition(st: State, step: Step, now: int, eq: string, p: Pid)
    requires Inv(st)
    ensures Position(Next(st, step, now).debts, eq, p) == Position(st.debts, eq, p) + StepDelta(st, step, now, eq, p) + StepDrift(st, step, now, eq, p)
  {
    hide ChecksPass, Fits, GoodRoutes, ApplyFlows, Position, Clearing.Execute, Clearing.Takes, Clearing.MinOwed, Clearing.Imbalance, Protected, Delta;
    match step
    case CommitTx(tx) =>
      if Commit(st, tx, now).1.CommitDone? {
        FiledProper(st.locks[tx].rows);
        ApplyFlowsPosition(st.debts, RowFlows(st.locks[tx].rows), eq, p);
      } else {
        AbortKeepsDebts(st, tx);
      }
    case Clear(rows, declined, interlocked) => Clearing.ClearingMoves(st.debts, rows, Protected(st, declined, now), interlocked, eq, p);
    case _ =>
  }

  ghost function RunDelta(st: State, steps: seq<(Step, int)>, eq: string, p: Pid): int
  {
    if steps == [] then 0 else
      var init, last := steps[..|steps| - 1], steps[|steps| - 1];
      RunDelta(st, init, eq, p) + StepDelta(Run(st, init), last.0, last.1, eq, p)
  }

  ghost function RunDrift(st: State, steps: seq<(Step, int)>, eq: string, p: Pid): int
  {
    if steps == [] then 0 else
      var init, last := steps[..|steps| - 1], steps[|steps| - 1];
      RunDrift(st, init, eq, p) + StepDrift(Run(st, init), last.0, last.1, eq, p)
  }

  /** Over every run, net positions change by the flows of the committed transactions and the
      drift of clearings and by nothing else: aborts, expiries and trust-line changes move
      nobody. */
  lemma {:induction false} RunMovesPositions(st: State, steps: seq<(Step, int)>, eq: string, p: Pid)
    requires Inv(st)
    ensures Position(Run(st, steps).debts, eq, p) == Position(st.debts, eq, p) + RunDelta(st, steps, eq, p) + RunDrift(st, steps, eq, p)
    decreases |steps|
  {
    if steps != [] {
      var init, last := steps[..|steps| - 1], steps[|steps| - 1];
      RunKeepsInv(st, init);
      RunMovesPositions(st, init, eq, p);
      StepMovesPosition(Run(st, init), last.0, last.1, eq, p);
    }
  }

  /** Every clearing of the run is interlocked or stays within one equivalent. */
  ghost predicate Contained(steps: seq<(Step, int)>)
  {
    forall i :: 0 <= i < |steps| && steps[i].0.Clear? ==> steps[i].0.interlocked || Clearing.OneEquivalent(steps[i].0.rows)
  }

  /** Then clearings do not drift, and the committed payments alone move positions. */
  lemma {:induction false} ContainedRunsDoNotDrift(st: State, steps: seq<(Step, int)>, eq: string, p: Pid)
    requires Inv(st) && Contained(steps)
    ensures RunDrift(st, steps, eq, p) == 0
    ensures Position(Run(st, steps).debts, eq, p) == Position(st.debts, eq, p) + RunDelta(st, steps, eq, p)
    decreases |steps|
  {
    hide Run, Inv, StepDelta, Position, StepDrift;
    RunMovesPositions(st, steps, eq, p);
    if steps != [] {
      var init, last := steps[..|steps| - 1], steps[|steps| - 1];
      ContainedRunsDoNotDrift(st, init, eq, p);
      RunKeepsInv(st, init);
      ContainedStep(Run(st, init), last.0, last.1, eq, p);
    }
  }

  lemma ContainedStep(st: State, step: Step, now: int, eq: string, p: Pid)
    requires Inv(st) && (step.Clear? ==> step.interlocked || Clearing.OneEquivalent(step.rows))
    ensures StepDrift(st, step, now, eq, p) == 0
  {
    hide Clearing.Execute, Clearing.Takes, Clearing.MinOwed, Clearing.Imbalance, Clearing.OneEquivalent, Protected, Position;
    if step.Clear? {
      var blocked := Protected(st, step.declined, now);
      Clearing.ClearingMoves(st.debts, step.rows, blocked, step.interlocked, eq, p);
      Clearing.ClearingIsNeutral(st.debts, step.rows, blocked, step.interlocked, eq, p);
    }
  }

  // ----- payments -----

  /** Every route leads from the payer to the payee. */
  ghost predicate Between(routes: seq<Route>, payer: Pid, payee: Pid)
  {
    forall r :: r in routes ==> |r.path| >= 2 && r.path[0] == payer && r.path[|r.path| - 1] == payee
  }

  /** Along a path the intermediate nodes give what they get. */
  lemma {:induction false} PathTelescopes(path: seq<Pid>, amount: int, eq: string, p: Pid)
    requires |path| >= 1
    ensures Delta(PathFlows(path, amount, eq), eq, p)
         == (if p == path[|path| - 1] then amount else 0) - (if p == path[0] then amount else 0)
    decreases |path|
  {
    if |path| >= 2 {
      PathTelescopes(path[1..], amount, eq, p);
      assert PathFlows(path, amount, eq)[1..] == PathFlows(path[1..], amount, eq);
    }
  }

  lemma {:induction false} RoutesTelescope(routes: seq<Route>, payer: Pid, payee: Pid, eq: string, p: Pid)
    requires Between(routes, payer, payee)
    ensures Delta(Segments(routes, eq), eq, p) == (if p == payee then Total(routes) else 0) - (if p == payer then Total(routes) else 0)
    decreases |routes|
  {
    if routes != [] {
      var r := routes[0];
      assert r in routes;
      assert forall x :: x in routes[1..] ==> x in routes;
      PathTelescopes(r.path, r.amount, eq, p);
      RoutesTelescope(routes[1..], payer, payee, eq, p);
      DeltaAppend(PathFlows(r.path, r.amount, eq), Segments(routes[1..], eq), eq, p);
    }
  }

  lemma {:induction false} DeltaPermutes(fs: seq<Flow>, gs: seq<Flow>, eq: string, p: Pid)
    requires multiset(fs) == multiset(gs)
    ensures Delta(fs, eq, p) == Delta(gs, eq, p)
    decreases |fs|
  {
    if fs == [] {
      assert |gs| == |multiset(gs)| == 0;
    } else {
      assert fs[0] in multiset(fs) && fs[0] in gs;
      var i :| 0 <= i < |gs| && gs[i] == fs[0];
      DropSame(fs, gs, i);
      DeltaPermutes(fs[1..], gs[..i] + gs[i + 1..], eq, p);
      assert gs == gs[..i] + ([gs[i]] + gs[i + 1..]);
      DeltaAppend(gs[..i], [gs[i]] + gs[i + 1..], eq, p);
      DeltaAppend(gs[..i], gs[i + 1..], eq, p);
    }
  }

  lemma {:induction false} DeltaElsewhere(fs: seq<Flow>, eq: string, p: Pid)
    requires forall f :: f in fs ==> f.eq != eq
    ensures Delta(fs, eq, p) == 0
    decreases |fs|
  {
    if fs != [] {
      assert fs[0] in fs;
      assert forall f :: f in fs[1..] ==> f in fs;
      DeltaElsewhere(fs[1..], eq, p);
    }
  }

  lemma {:induction false} SegmentsEquivalent(routes: seq<Route>, eq: string)
    ensures forall f :: f in Segments(routes, eq) ==> f.eq == eq
    decreases |routes|
  {
    if routes != [] {
      PathFlowsAt(routes[0].path, routes[0].amount, eq);
      SegmentsEquivalent(routes[1..], eq);
    }
  }

  /** What a payment is meant to do to a position in equivalent `e`. */
  function Due(routes: seq<Route>, eq: string, payer: Pid, payee: Pid, e: string, p: Pid): int
  {
    if e != eq then 0 else (if p == payee then Total(routes) else 0) - (if p == payer then Total(routes) else 0)
  }

  lemma SegmentsDelta(routes: seq<Route>, payer: Pid, payee: Pid, eq: string, e: string, p: Pid)
    requires Between(routes, payer, payee)
    ensures Delta(Segments(routes, eq), e, p) == Due(routes, eq, payer, payee, e, p)
  {
    hide Delta, Segments;
    if e == eq {
      RoutesTelescope(routes, payer, payee, eq, p);
    } else {
      SegmentsEquivalent(routes, eq);
      DeltaElsewhere(Segments(routes, eq), e, p);
    }
  }

  /** What a successful phase 1 has on file: the debts as before, and flows that together move
      the routes' total from payer to payee. */
  lemma PreparedDelta(st: State, tx: TxId, routes: seq<Route>, eq: string, now: int, ttl: int, payer: Pid, payee: Pid, e: string, p: Pid)
    requires Inv(st) && Between(routes, payer, payee) && routes != []
    requires Prepare(st, tx, routes, eq, now, ttl).1.PrepareDone?
    ensures var mid := Prepare(st, tx, routes, eq, now, ttl).0;
            && mid.debts == st.debts && Inv(mid) && Waiting(mid, tx) && mid.locks[tx].expires == now + ttl
            && Delta(RowFlows(mid.locks[tx].rows), e, p) == Due(routes, eq, payer, payee, e, p)
  {
    hide Delta, Fits, Total, Due;
    var fs := Segments(routes, eq);
    PrepareKeepsInv(st, tx, routes, eq, now, ttl);
    PreparedRows(st, tx, routes, eq, now);
    FileFlowsKeeps(fs);
    SegmentsNonEmpty(routes, eq, payer, payee);
    DeltaPermutes(fs, RowFlows(Prepare(st, tx, routes, eq, now, ttl).0.locks[tx].rows), e, p);
    SegmentsDelta(routes, payer, payee, eq, e, p);
  }

  lemma SegmentsNonEmpty(routes: seq<Route>, eq: string, payer: Pid, payee: Pid)
    requires routes != [] && Between(routes, payer, payee)
    ensures Segments(routes, eq) != []
  {
    assert routes[0] in routes;
  }

  /** Prepared, with its lock on file. */
  ghost predicate Waiting(st: State, tx: TxId)
  {
    tx in st.txs && st.txs[tx] == Prepared && tx in st.locks
  }

  /** Only the commit or the abort of a waiting transaction touches it. */
  lemma StepKeepsWaiting(st: State, step: Step, now: int, tx: TxId)
    requires Waiting(st, tx) && step != CommitTx(tx) && step != AbortTx(tx)
    ensures Waiting(Next(st, step, now), tx) && Next(st, step, now).locks[tx] == st.locks[tx]
  {
    hide ChecksPass, Fits, GoodRoutes, ApplyFlows, Malformed, Clearing.Execute, Protected, Segments, FileFlows;
  }

  /** The run neither commits nor aborts this transaction. */
  ghost predicate Spares(steps: seq<(Step, int)>, tx: TxId)
  {
    forall i :: 0 <= i < |steps| ==> steps[i].0 != CommitTx(tx) && steps[i].0 != AbortTx(tx)
  }

  lemma {:induction false} RunKeepsWaiting(st: State, steps: seq<(Step, int)>, tx: TxId)
    requires Waiting(st, tx) && Spares(steps, tx)
    ensures Waiting(Run(st, steps), tx) && Run(st, steps).locks[tx] == st.locks[tx]
    decreases |steps|
  {
    hide Next;
    if steps != [] {
      RunKeepsWaiting(st, steps[..|steps| - 1], tx);
      StepKeepsWaiting(Run(st, steps[..|steps| - 1]), steps[|steps| - 1].0, steps[|steps| - 1].1, tx);
    }
  }

  /** End to end: prepared, then anything other clients do, then committed. The commit either
      leaves every position alone or moves exactly the routes' total from payer to payee;
      intermediaries, strangers and other equivalents are untouched. */
  lemma PaymentMovesTotal(st: State, tx: TxId, routes: seq<Route>, eq: string, now: int, ttl: int, steps: seq<(Step, int)>, later: int,
                          payer: Pid, payee: Pid, e: string, p: Pid)
    requires Inv(st) && Between(routes, payer, payee) && routes != [] && Spares(steps, tx)
    requires Prepare(st, tx, routes, eq, now, ttl).1.PrepareDone?
    ensures var mid := Run(Prepare(st, tx, routes, eq, now, ttl).0, steps);
            Position(Commit(mid, tx, later).0.debts, e, p) - Position(mid.debts, e, p) ==
            if Commit(mid, tx, later).1.CommitDone? then Due(routes, eq, payer, payee, e, p) else 0
  {
    hide Inv, Prepare, Commit, Position, Delta, Due, Between, RowFlows, Run, Spares;
    var filed := Prepare(st, tx, routes, eq, now, ttl).0;
    PreparedDelta(st, tx, routes, eq, now, ttl, payer, payee, e, p);
    RunKeepsInv(filed, steps);
    RunKeepsWaiting(filed, steps, tx);
    StepMovesPosition(Run(filed, steps), CommitTx(tx), later, e, p);
  }

  /** And it goes through: a payment that was accepted commits whenever its locks are alive,
      whatever others do in between without cutting into reservations. */
  lemma AcceptedPaymentCommits(st: State, tx: TxId, routes: seq<Route>, eq: string, now: int, ttl: int, steps: seq<(Step, int)>, later: int,
                               payer: Pid, payee: Pid)
    requires Inv(st) && Reservable(st, now) && Between(routes, payer, payee) && routes != [] && Spares(steps, tx)
    requires Prepare(st, tx, routes, eq, now, ttl).1.PrepareDone?
    requires Disciplined(Prepare(st, tx, routes, eq, now, ttl).0, now, steps) && Clock(now, steps) <= later < now + ttl
    ensures Commit(Run(Prepare(st, tx, routes, eq, now, ttl).0, steps), tx, later).1.CommitDone?
  {
    hide Inv, Prepare, Commit, Reservable, Between, RowFlows, Run, Spares, Disciplined, Delta, Due;
    var filed := Prepare(st, tx, routes, eq, now, ttl).0;
    PreparedDelta(st, tx, routes, eq, now, ttl, payer, payee, eq, payer);
    PrepareKeepsReservable(st, tx, routes, eq, now, ttl);
    RunKeepsWaiting(filed, steps, tx);
    PreparedAlwaysCommits(filed, now, steps, tx, later);
  }

  // ----- where the promise of phase 1 ends -----

  const CutLine := DebtKey("UAH", "A", "B")

  /** One payment of ten is prepared on a line of ten. */
  ghost function OnePrepared(ttl: int): State
  {
    State(map[], map[CutLine := 10], {"A", "B"}, map["t" := Prepared],
          map["t" := Lock([LockRow("A", [Flow("UAH", "A", "B", 10)])], ttl)])
  }

  lemma OnePreparedIsSound(ttl: int)
    requires ttl > 1
    ensures Inv(OnePrepared(ttl)) && Reservable(OnePrepared(ttl), 0)
    ensures RowFlows(OnePrepared(ttl).locks["t"].rows) == [Flow("UAH", "A", "B", 10)]
  {
    var f := Flow("UAH", "A", "B", 10);
    var st := OnePrepared(ttl);
    OneFlow(st.locks["t"].rows, f);
    forall j ensures ReservableOn(st, j, 0) {
      ReservedWith(st.locks, "t", j, 0);
      assert st.locks.Keys - {"t"} == {};
    }
  }

  /** Taking the line's limit away under the prepared payment makes it fail. */
  lemma CutBreaks(ttl: int, cut: State)
    requires ttl > 1 && Inv(cut)
    requires cut == OnePrepared(ttl).(lines := cut.lines) && Limit(cut.lines, CutLine) == 0
    ensures Inv(OnePrepared(ttl)) && Reservable(OnePrepared(ttl), 0)
    ensures Commit(OnePrepared(ttl), "t", 1).1 == CommitDone && Commit(cut, "t", 1).1 == CommitViolation
  {
    var st := OnePrepared(ttl);
    OnePreparedIsSound(ttl);
    hide Inv, Reservable, Commit, RowFlows;
    WaitKeepsReservable(st, 0, 1);
    ReservationGivesRoom(st, "t", 1);
    CommitsIffRoom(st, "t", 1);
    assert RowFlows(cut.locks["t"].rows)[0].Key() == CutLine;
    assert !RoomForAll(cut, RowFlows(cut.locks["t"].rows));
    CommitsIffRoom(cut, "t", 1);
  }

  /** A limit may be lowered to the used amount while a payment is prepared on the line; the
      prepared payment then fails its trust-limit check and is aborted. */
  lemma LimitCutBreaksPreparedPayment(ttl: int)
    requires ttl > 1
    ensures var st := OnePrepared(ttl);
            && Inv(st) && Reservable(st, 0)
            && Commit(st, "t", 1).1 == CommitDone
            && Commit(Next(st, SetLimit(CutLine, 0), 0), "t", 1).1 == CommitViolation
  {
    hide Inv, Reservable, Commit;
    OnePreparedIsSound(ttl);
    StepKeepsInv(OnePrepared(ttl), SetLimit(CutLine, 0), 0);
    CutBreaks(ttl, Next(OnePrepared(ttl), SetLimit(CutLine, 0), 0));
  }

  /** An unused line may be closed while a payment is prepared on it, with the same result. */
  lemma ClosureBreaksPreparedPayment(ttl: int)
    requires ttl > 1
    ensures var st := OnePrepared(ttl);
            && Inv(st) && Reservable(st, 0)
            && Commit(st, "t", 1).1 == CommitDone
            && Commit(Next(st, CloseLine(CutLine), 0), "t", 1).1 == CommitViolation
  {
    hide Inv, Reservable, Commit;
    OnePreparedIsSound(ttl);
    StepKeepsInv(OnePrepared(ttl), CloseLine(CutLine), 0);
    CutBreaks(ttl, Next(OnePrepared(ttl), CloseLine(CutLine), 0));
  }

  lemma OneFlow(rows: seq<LockRow>, f: Flow)
    requires rows == [LockRow(f.from, [f])] && Proper(f)
    ensures RowFlows(rows) == [f] && Filed(rows)
    ensures forall k :: EdgeSum([f], k) == if k == f.Key() then f.amount else 0
    ensures forall k :: RowsSum(rows, k) == if k == f.Key() then f.amount else 0
  {
    assert RowFlows(rows) == rows[0].flows + RowFlows(rows[1..]);
    FileFlowsKeeps([f]);
    assert [f][..0] == [];
    assert FileFlows([], [f]) == FileFlow([], f);
    forall k ensures EdgeSum([f], k) == if k == f.Key() then f.amount else 0 {
      assert [f][1..] == [];
    }
  }

  // A ring of hryvnia debts, and a dollar debt of B to A that a prepared payment from A to B
  // is going to pay down.

  const Ring := ["A", "B", "C"]
  const DollarDebt := DebtKey("USD", "B", "A")

  function RingDebts(): Debts
  {
    map[DebtKey("UAH", "A", "B") := 5, DebtKey("UAH", "B", "C") := 5, DebtKey("UAH", "C", "A") := 5, DollarDebt := 5]
  }

  ghost function RingPrepared(ttl: int): State
  {
    State(RingDebts(), RingDebts()[DebtKey("UAH", "B", "A") := 0], {"A", "B", "C"},
          map["1" := Committed, "2" := Committed, "3" := Committed, "4" := Committed, "t" := Prepared],
          map["t" := Lock([LockRow("A", [Flow("USD", "A", "B", 5)])], ttl)])
  }

  lemma RingRows()
    ensures Clearing.CycleRows("UAH", Ring) == [DebtKey("UAH", "A", "B"), DebtKey("UAH", "B", "C"), DebtKey("UAH", "C", "A")]
  {
    var path := Clearing.PathRows("UAH", Ring);
    assert path[0] == DebtKey("UAH", "A", "B") && path[1] == DebtKey("UAH", "B", "C");
    assert Clearing.CycleRows("UAH", Ring) == path + [DebtKey("UAH", "C", "A")];
  }

  lemma RingPreparedIsSound(ttl: int)
    requires ttl > 1
    ensures Inv(RingPrepared(ttl)) && Reservable(RingPrepared(ttl), 0) && Waiting(RingPrepared(ttl), "t")
    ensures RowFlows(RingPrepared(ttl).locks["t"].rows) == [Flow("USD", "A", "B", 5)]
    ensures forall k :: PairLocked(RingPrepared(ttl).locks, k, 0) ==> k.eq == "USD"
  {
    RingLocks(ttl);
    RingPairs(ttl);
    RingInv(ttl);
    RingReservable(ttl);
    hide Inv, Reservable, RowFlows, PairLocked, LocksFiled;
  }

  lemma RingInv(ttl: int)
    requires ttl > 1
    ensures Inv(RingPrepared(ttl))
  {
    RingLocks(ttl);
    hide Reserved, RowFlows, LocksFiled;
    RingTable();
  }

  lemma RingTable()
    ensures WellFormed(RingDebts()) && Symmetric(RingDebts())
  {
  }

  lemma RingReservable(ttl: int)
    requires ttl > 1
    ensures Reservable(RingPrepared(ttl), 0)
  {
    RingLocks(ttl);
    var st := RingPrepared(ttl);
    hide Reserved, RowFlows, LocksFiled;
    forall j ensures ReservableOn(st, j, 0) {
    }
  }

  lemma RingPairs(ttl: int)
    requires ttl > 1
    ensures forall k :: PairLocked(RingPrepared(ttl).locks, k, 0) ==> k.eq == "USD"
  {
    RingLocks(ttl);
    hide RowFlows, LocksFiled, Reserved;
  }

  lemma RingLocks(ttl: int)
    requires ttl > 1
    ensures var locks := RingPrepared(ttl).locks;
            && LocksFiled(locks) && RowFlows(locks["t"].rows) == [Flow("USD", "A", "B", 5)]
            && forall j :: Reserved(locks, j, 0, {}) == if j == DollarDebt.Reverse() then 5 else 0
  {
    var locks := RingPrepared(ttl).locks;
    OneFlow(locks["t"].rows, Flow("USD", "A", "B", 5));
    forall j ensures Reserved(locks, j, 0, {}) == if j == DollarDebt.Reverse() then 5 else 0 {
      ReservedWith(locks, "t", j, 0);
      assert locks.Keys - {"t"} == {};
    }
  }

  /** Without the interlock, a clearing of the ring with the dollar debt thrown in takes away
      the debt the prepared payment was going to pay down, although the pair is reserved in
      dollars: the payment then fails. */
  lemma MixedClearingBreaksPreparedPayment(ttl: int)
    requires ttl > 1
    ensures var st, rows := RingPrepared(ttl), Clearing.CycleRows("UAH", Ring) + [DollarDebt];
            && Inv(st) && Reservable(st, 0)
            && Commit(st, "t", 1).1 == CommitDone
            && Commit(Next(st, Clear(rows, {}, false), 0), "t", 1).1 == CommitViolation
  {
    var st, rows := RingPrepared(ttl), Clearing.CycleRows("UAH", Ring) + [DollarDebt];
    RingPreparedIsSound(ttl);
    RingRows();
    RingClears(ttl);
    hide Inv, Reservable, Commit, RowFlows, Clearing.Execute, Clearing.CycleRows;
    WaitKeepsReservable(st, 0, 1);
    ReservationGivesRoom(st, "t", 1);
    CommitsIffRoom(st, "t", 1);
    var after := Next(st, Clear(rows, {}, false), 0);
    StepKeepsInv(st, Clear(rows, {}, false), 0);
    assert RowFlows(after.locks["t"].rows)[0].Key() == DollarDebt.Reverse();
    OneFlow(st.locks["t"].rows, Flow("USD", "A", "B", 5));
    assert !RoomForAll(after, RowFlows(after.locks["t"].rows));
    CommitsIffRoom(after, "t", 1);
  }

  lemma RingUnblocked(ttl: int)
    requires ttl > 1
    ensures var st := RingPrepared(ttl);
            var blocked := Protected(st, {}, 0);
            && (forall k :: k in Clearing.CycleRows("UAH", Ring) ==> k in st.debts && k !in blocked)
            && DollarDebt in st.debts && Clearing.In(DollarDebt, "UAH") !in blocked
  {
    RingPreparedIsSound(ttl);
    RingRows();
    hide Inv, Reservable, PairLocked, Clearing.CycleRows;
  }

  lemma RingLowered()
    ensures var rows := Clearing.CycleRows("UAH", Ring) + [DollarDebt];
            Net(Clearing.Lower(RingDebts(), rows, Clearing.MinOwed(RingDebts(), rows)), DollarDebt.Reverse()) == 0
  {
    var rows := Clearing.CycleRows("UAH", Ring) + [DollarDebt];
    RingRows();
    hide Clearing.CycleRows, Clearing.Lower, Clearing.MinOwed;
    assert rows == [DebtKey("UAH", "A", "B"), DebtKey("UAH", "B", "C"), DebtKey("UAH", "C", "A"), DollarDebt];
    assert rows[3] == DollarDebt && Distinct(rows);
    assert forall k :: k in rows ==> Owed(RingDebts(), k) == 5;
    Clearing.LowerOwed(RingDebts(), rows, 5, DollarDebt);
    Clearing.LowerOwed(RingDebts(), rows, 5, DollarDebt.Reverse());
  }

  lemma StrayClears(st: State, eq: string, nodes: seq<Pid>, stray: DebtKey, now: int)
    requires WellFormed(st.debts) && |nodes| > 1 && Distinct(nodes)
    requires forall k :: k in Clearing.CycleRows(eq, nodes) ==> k in st.debts && k !in Protected(st, {}, now)
    requires stray in st.debts && stray.eq != eq && Clearing.In(stray, eq) !in Protected(st, {}, now)
    ensures var rows := Clearing.CycleRows(eq, nodes) + [stray];
            Next(st, Clear(rows, {}, false), now) == st.(debts := Clearing.Lower(st.debts, rows, Clearing.MinOwed(st.debts, rows)))
  {
    hide Clearing.Execute, Clearing.CycleRows, Clearing.Lower, Clearing.MinOwed, Clearing.Takes, Protected, Position, Distinct, WellFormed;
    Clearing.StrayRowRidesAlong(st.debts, eq, nodes, stray, Protected(st, {}, now));
    Clearing.ClearedIffTaken(st.debts, Clearing.CycleRows(eq, nodes) + [stray], Protected(st, {}, now), false);
  }

  lemma RingClears(ttl: int)
    requires ttl > 1
    ensures var after := Next(RingPrepared(ttl), Clear(Clearing.CycleRows("UAH", Ring) + [DollarDebt], {}, false), 0);
            after == RingPrepared(ttl).(debts := after.debts) && Net(after.debts, DollarDebt.Reverse()) == 0
  {
    assert RingPrepared(ttl).debts == RingDebts() && WellFormed(RingDebts());
    assert Distinct(Ring) && DollarDebt.eq != "UAH";
    RingUnblocked(ttl);
    RingLowered();
    hide *;
    StrayClears(RingPrepared(ttl), "UAH", Ring, DollarDebt, 0);
  }

  // ----- both states are reached from empty tables -----

  ghost function Blank(people: set<Pid>): State
  {
    State(map[], map[], people, map[], map[])
  }

  ghost predicate Reached(people: set<Pid>, st: State)
  {
    exists steps :: Run(Blank(people), steps) == st
  }

  lemma ReachedKeepsInv(people: set<Pid>, st: State)
    requires Reached(people, st)
    ensures Inv(st)
  {
    var steps :| Run(Blank(people), steps) == st;
    RunKeepsInv(Blank(people), steps);
  }

  lemma BlankIsReached(people: set<Pid>)
    ensures Reached(people, Blank(people))
  {
    assert Run(Blank(people), []) == Blank(people);
  }

  lemma StepIsReached(people: set<Pid>, st: State, step: Step)
    requires Reached(people, st)
    ensures Reached(people, Next(st, step, 0))
  {
    hide Next;
    var steps :| Run(Blank(people), steps) == st;
    var more := steps + [(step, 0)];
    assert more[..|more| - 1] == steps;
    assert Run(Blank(people), more) == Next(st, step, 0);
  }

  /** A new payment over one line, prepared while nothing else is. */
  ghost function Pending(st: State, tx: TxId, f: Flow, ttl: int): State
  {
    st.(txs := st.txs[tx := Prepared], locks := map[tx := Lock([LockRow(f.from, [f])], ttl)])
  }

  ghost predicate MayPay(people: set<Pid>, st: State, tx: TxId, f: Flow)
  {
    && Reached(people, st) && st.people == people && st.locks == map[] && tx !in st.txs
    && f.from != f.to && f.from in people && f.to in people && 0 < f.amount <= Available(st, f.Key())
  }

  lemma OneHop(f: Flow)
    ensures PathFlows([f.from, f.to], f.amount, f.eq) == [f]
  {
    assert [f.from, f.to][1..] == [f.to];
  }

  lemma PendingIsReached(people: set<Pid>, st: State, tx: TxId, f: Flow, ttl: int)
    requires MayPay(people, st, tx, f)
    ensures Reached(people, Pending(st, tx, f, ttl))
  {
    hide Reached, PathFlows, Fits;
    var begun := Next(st, Begin(tx), 0);
    StepIsReached(people, st, Begin(tx));
    OneHop(f);
    var step := PreparePath(tx, [f.from, f.to], f.amount, f.eq, ttl);
    StepIsReached(people, begun, step);
    assert Reserved(begun.locks, f.Key(), 0, {tx}) == 0;
    assert RowEach([f]) == [LockRow(f.from, [f])];
    var rows := RowEach([f]);
    assert FitsAlone(begun, tx, f, 0);
    assert forall p :: p in [f.from, f.to] ==> p in st.people;
    assert Next(begun, step, 0) == Pending(st, tx, f, ttl);
  }

  lemma FreshDebt(d: Debts, f: Flow)
    requires WellFormed(d) && Proper(f) && f.Key() !in d && f.Key().Reverse() !in d
    ensures ApplyFlows(d, [f]) == d[f.Key() := f.amount]
  {
    assert f.Key() != f.Key().Reverse();
    assert SetOwed(d, f.Key().Reverse(), 0) == d;
    assert ApplyFlow(d, f) == d[f.Key() := f.amount];
    assert [f][1..] == [];
    assert ApplyFlows(ApplyFlow(d, f), []) == ApplyFlow(d, f);
  }

  /** Committed at once it leaves a debt. */
  lemma PaidIsReached(people: set<Pid>, st: State, tx: TxId, f: Flow)
    requires MayPay(people, st, tx, f) && f.Key() !in st.debts && f.Key().Reverse() !in st.debts
    ensures Reached(people, st.(debts := st.debts[f.Key() := f.amount], txs := st.txs[tx := Committed]))
  {
    hide Reached;
    var pending := Pending(st, tx, f, 1);
    PendingIsReached(people, st, tx, f, 1);
    ReachedKeepsInv(people, pending);
    StepIsReached(people, pending, CommitTx(tx));
    PaidStep(st, tx, f);
  }

  lemma PaidStep(st: State, tx: TxId, f: Flow)
    requires Inv(Pending(st, tx, f, 1)) && st.locks == map[] && f.from != f.to && 0 < f.amount <= Limit(st.lines, f.Key())
    requires f.Key() !in st.debts && f.Key().Reverse() !in st.debts
    ensures Next(Pending(st, tx, f, 1), CommitTx(tx), 0) == st.(debts := st.debts[f.Key() := f.amount], txs := st.txs[tx := Committed])
  {
    var pending := Pending(st, tx, f, 1);
    OneFlow(pending.locks[tx].rows, f);
    assert WellFormed(st.debts);
    FreshDebt(st.debts, f);
    hide Inv, ApplyFlows, Net, EdgeSum, RowFlows;
    assert RoomForAll(pending, [f]) by { RoomOnFresh(pending, f); }
    CommitsIffRoom(pending, tx, 0);
    assert pending.locks - {tx} == map[];
    CommittedTables(pending, tx);
  }

  lemma RoomOnFresh(st: State, f: Flow)
    requires Proper(f) && f.amount <= Limit(st.lines, f.Key()) && f.Key() !in st.debts && f.Key().Reverse() !in st.debts
    ensures RoomForAll(st, [f])
  {
    OneFlow([LockRow(f.from, [f])], f);
  }

  lemma CommittedTables(st: State, tx: TxId)
    requires Commit(st, tx, 0).1.CommitDone?
    ensures var after := Commit(st, tx, 0).0;
            after == st.(debts := after.debts, txs := st.txs[tx := Committed], locks := st.locks - {tx})
  {
    hide ChecksPass, ApplyFlows, Malformed, RowFlows;
  }

  /** The first state is reached by opening a line and preparing a payment on it. */
  lemma OnePreparedIsReached(ttl: int)
    ensures Reached({"A", "B"}, OnePrepared(ttl))
  {
    var blank := Blank({"A", "B"});
    hide Reached;
    BlankIsReached({"A", "B"});
    StepIsReached({"A", "B"}, blank, OpenLine(CutLine, 10));
    var lined := Next(blank, OpenLine(CutLine, 10), 0);
    assert lined == blank.(lines := map[CutLine := 10]);
    PendingIsReached({"A", "B"}, lined, "t", Flow("UAH", "A", "B", 10), ttl);
    assert Pending(lined, "t", Flow("UAH", "A", "B", 10), ttl) == OnePrepared(ttl);
  }

  lemma LineIsReached(people: set<Pid>, st: State, k: DebtKey, limit: int)
    requires Reached(people, st) && k !in st.lines && k.debtor != k.creditor && limit >= 0
    ensures Reached(people, st.(lines := st.lines[k := limit]))
  {
    hide Reached;
    StepIsReached(people, st, OpenLine(k, limit));
  }

  ghost function RingLines(): State
  {
    Blank({"A", "B", "C"}).(lines := RingDebts()[DebtKey("UAH", "B", "A") := 0])
  }

  lemma RingLinesAreReached()
    ensures Reached({"A", "B", "C"}, RingLines())
  {
    var people := {"A", "B", "C"};
    hide Reached;
    BlankIsReached(people);
    var s0 := Blank(people);
    LineIsReached(people, s0, DebtKey("UAH", "A", "B"), 5);
    var s1 := s0.(lines := s0.lines[DebtKey("UAH", "A", "B") := 5]);
    LineIsReached(people, s1, DebtKey("UAH", "B", "C"), 5);
    var s2 := s1.(lines := s1.lines[DebtKey("UAH", "B", "C") := 5]);
    LineIsReached(people, s2, DebtKey("UAH", "C", "A"), 5);
    var s3 := s2.(lines := s2.lines[DebtKey("UAH", "C", "A") := 5]);
    LineIsReached(people, s3, DollarDebt, 5);
    var s4 := s3.(lines := s3.lines[DollarDebt := 5]);
    LineIsReached(people, s4, DebtKey("UAH", "B", "A"), 0);
    assert s4.(lines := s4.lines[DebtKey("UAH", "B", "A") := 0]) == RingLines();
  }

  /** The second by opening five lines, paying four times and preparing the fifth payment. */
  lemma RingPreparedIsReached(ttl: int)
    ensures Reached({"A", "B", "C"}, RingPrepared(ttl))
  {
    var people := {"A", "B", "C"};
    RingLinesAreReached();
    hide Reached;
    var s0 := RingLines();
    var f1, f2, f3, f4 := Flow("UAH", "A", "B", 5), Flow("UAH", "B", "C", 5), Flow("UAH", "C", "A", 5), Flow("USD", "B", "A", 5);
    PaidIsReached(people, s0, "1", f1);
    var s1 := s0.(debts := s0.debts[f1.Key() := 5], txs := s0.txs["1" := Committed]);
    PaidIsReached(people, s1, "2", f2);
    var s2 := s1.(debts := s1.debts[f2.Key() := 5], txs := s1.txs["2" := Committed]);
    PaidIsReached(people, s2, "3", f3);
    var s3 := s2.(debts := s2.debts[f3.Key() := 5], txs := s2.txs["3" := Committed]);
    PaidIsReached(people, s3, "4", f4);
    var s4 := s3.(debts := s3.debts[f4.Key() := 5], txs := s3.txs["4" := Committed]);
    PendingIsReached(people, s4, "t", Flow("USD", "A", "B", 5), ttl);
    assert s4.debts == RingDebts();
    assert Pending(s4, "t", Flow("USD", "A", "B", 5), ttl) == RingPrepared(ttl);
  }
}
