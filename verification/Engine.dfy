/** The two-phase payment engine, clearing and trust-line changes as steps over one
    persisted state, and what every run of them keeps. */
module Engine {
  import opened Lists
  import opened Sums
  import opened Ledger
  import opened Flows
  import opened PrepareLocks
  import Clearing

  datatype TxState = New | Prepared | Committed | Aborted | Rejected

  datatype Route = Route(path: seq<Pid>, amount: int)

  /** What the database holds: debts, active trust lines, participants, transactions and
      prepare locks. */
  datatype State = State(
    debts: Debts,
    lines: Lines,
    people: set<Pid>,
    txs: map<TxId, TxState>,
    locks: Locks)

  /** Room for new debt plus what the receiver owes back. */
  function Available(st: State, k: DebtKey): int
  {
    Limit(st.lines, k) - Owed(st.debts, k) + Owed(st.debts, k.Reverse())
  }

  function PathFlows(path: seq<Pid>, amount: int, eq: string): (fs: seq<Flow>)
  {
    if |path| < 2 then [] else [Flow(eq, path[0], path[1], amount)] + PathFlows(path[1..], amount, eq)
  }

  function Segments(routes: seq<Route>, eq: string): (fs: seq<Flow>)
  {
    if routes == [] then [] else PathFlows(routes[0].path, routes[0].amount, eq) + Segments(routes[1..], eq)
  }

  /** What the routes carry together. */
  function Total(routes: seq<Route>): int
  {
    if routes == [] then 0 else routes[0].amount + Total(routes[1..])
  }

  /** Segment `i` fits beside the other transactions' live reservations and the earlier
      segments of the same call. */
  ghost predicate FitsAt(st: State, tx: TxId, fs: seq<Flow>, now: int, i: nat)
    requires i < |fs|
  {
    Available(st, fs[i].Key()) >= fs[i].amount + Reserved(st.locks, fs[i].Key(), now, {tx}) + EdgeSum(fs[..i], fs[i].Key())
  }

  ghost predicate Fits(st: State, tx: TxId, fs: seq<Flow>, now: int)
  {
    forall i :: 0 <= i < |fs| ==> FitsAt(st, tx, fs, now, i)
  }

  datatype PrepareOutcome = PrepareDone | PrepareRepeated | PrepareNotFound | PrepareConflict
                          | PrepareBadRoute | PrepareUnknownParticipant | PrepareNoCapacity | PrepareUnstorable

  ghost predicate GoodRoutes(routes: seq<Route>)
  {
    forall r :: r in routes ==> r.amount > 0 && |r.path| >= 2
  }

  /** Phase 1: reserve every segment of every route, or nothing. */
  ghost function Prepare(st: State, tx: TxId, routes: seq<Route>, eq: string, now: int, ttl: int): (State, PrepareOutcome)
  {
    if tx !in st.txs then (st, PrepareNotFound)
    else if st.txs[tx] == Committed then (st, PrepareRepeated)
    else if st.txs[tx] == Aborted || st.txs[tx] == Rejected then (st, PrepareConflict)
    else if tx in st.locks then (st, if st.txs[tx] == Prepared then PrepareRepeated else PrepareConflict)
    else if !GoodRoutes(routes) then (st, PrepareBadRoute)
    else if exists r :: r in routes && exists p :: p in r.path && p !in st.people then (st, PrepareUnknownParticipant)
    else
      var fs := Segments(routes, eq);
      if !Fits(st, tx, fs, now) then (st, PrepareNoCapacity)
      else
        var rows := FileFlows([], fs);
        (st.(txs := st.txs[tx := Prepared],
             locks := if rows == [] then st.locks else st.locks[tx := Lock(rows, now + ttl)]), PrepareDone)
  }

  /** A segment of a single path fits beside the other transactions' live reservations. */
  ghost predicate FitsAlone(st: State, tx: TxId, f: Flow, now: int)
  {
    Available(st, f.Key()) >= f.amount + Reserved(st.locks, f.Key(), now, {tx})
  }

  /** Phase 1 of a payment with one route: one lock row per segment, without looking at its own
      earlier segments; the lock table refuses a second row of the same sender. */
  ghost function PrepareOne(st: State, tx: TxId, path: seq<Pid>, amount: int, eq: string, now: int, ttl: int): (State, PrepareOutcome)
  {
    if tx !in st.txs then (st, PrepareNotFound)
    else if st.txs[tx] == Committed then (st, PrepareRepeated)
    else if st.txs[tx] == Aborted || st.txs[tx] == Rejected then (st, PrepareConflict)
    else if exists p :: p in path && p !in st.people then (st, PrepareUnknownParticipant)
    else if tx in st.locks then (st, if st.txs[tx] == Prepared then PrepareRepeated else PrepareConflict)
    else
      var fs := PathFlows(path, amount, eq);
      if exists f :: f in fs && !FitsAlone(st, tx, f, now) then (st, PrepareNoCapacity)
      else if !SendersDiffer(fs) then (st, PrepareUnstorable)
      else
        (st.(txs := st.txs[tx := Prepared],
             locks := if fs == [] then st.locks else st.locks[tx := Lock(RowEach(fs), now + ttl)]), PrepareDone)
  }

  /** What the payment service does with the routes it found. */
  ghost function PrepareFound(st: State, tx: TxId, routes: seq<Route>, amount: int, eq: string, now: int, ttl: int): (State, PrepareOutcome)
  {
    if |routes| == 1 then PrepareOne(st, tx, routes[0].path, amount, eq, now, ttl) else Prepare(st, tx, routes, eq, now, ttl)
  }

  datatype AbortOutcome = Success | AlreadyAborted | AlreadyCommitted

  /** Drop the transaction's locks and mark it aborted unless it is already terminal. */
  function Abort(st: State, tx: TxId): (State, AbortOutcome)
  {
    var released := st.(locks := st.locks - {tx});
    if tx in st.txs && st.txs[tx] == Committed then (released, AlreadyCommitted)
    else if tx in st.txs && st.txs[tx] == Aborted then (released, AlreadyAborted)
    else (if tx in st.txs then released.(txs := st.txs[tx := Aborted]) else released, Success)
  }

  // ----- the checks commit runs on the pairs and participants it touched -----

  ghost predicate TrustLimitsHold(d: Debts, lines: Lines, fs: seq<Flow>)
  {
    forall k :: k in d && Touches(fs, k) ==> d[k] <= Limit(lines, k)
  }

  ghost predicate NoMutualDebts(d: Debts, fs: seq<Flow>)
  {
    forall k :: Touches(fs, k) ==> !(Owed(d, k) > 0 && Owed(d, k.Reverse()) > 0)
  }

  /** Participants with a row in this equivalent. */
  ghost function Involved(d: Debts, eq: string): set<Pid>
  {
    (set k | k in d && k.eq == eq :: k.debtor) + (set k | k in d && k.eq == eq :: k.creditor)
  }

  ghost predicate ZeroSumHolds(d: Debts, eq: string)
  {
    Sum(Involved(d, eq), (p: Pid) => Position(d, eq, p)) == 0
  }

  /** The flows' senders and receivers moved as the flows say, to within one atom. */
  ghost predicate DeltasMatch(before: Debts, after: Debts, fs: seq<Flow>)
  {
    forall f, p :: f in fs && p in {f.from, f.to} ==>
      -1 <= Position(after, f.eq, p) - Position(before, f.eq, p) - Delta(fs, f.eq, p) <= 1
  }

  ghost predicate ChecksPass(before: Debts, after: Debts, lines: Lines, fs: seq<Flow>)
  {
    && TrustLimitsHold(after, lines, fs)
    && NoMutualDebts(after, fs)
    && (forall eq :: ZeroSumHolds(after, eq))
    && DeltasMatch(before, after, fs)
  }

  datatype CommitOutcome = CommitDone | CommitRepeated | CommitNotFound | CommitConflict
                         | CommitNoLocks | CommitMalformed | CommitExpired | CommitUnstorable | CommitViolation

  /** Persisted effects that strict parsing refuses: no rows, a row without flows, or an amount
      that is not positive. */
  ghost predicate Malformed(rows: seq<LockRow>)
  {
    rows == [] || exists row :: row in rows && (row.flows == [] || exists f :: f in row.flows && f.amount <= 0)
  }

  /** Phase 2: apply the persisted flows, check, and release; an expired or violating
      transaction is aborted and its debt changes are rolled back. The debt table refuses a
      debt of somebody to himself. */
  ghost function Commit(st: State, tx: TxId, now: int): (State, CommitOutcome)
  {
    if tx !in st.txs then (st, CommitNotFound)
    else if st.txs[tx] == Committed then (st, CommitRepeated)
    else if st.txs[tx] != Prepared then (st, CommitConflict)
    else if tx !in st.locks then (st, CommitNoLocks)
    else
      var lock := st.locks[tx];
      var fs := RowFlows(lock.rows);
      if Malformed(lock.rows) then (st, CommitMalformed)
      else if lock.expires <= now then (Abort(st, tx).0, CommitExpired)
      else if exists f :: f in fs && f.from == f.to then (st, CommitUnstorable)
      else
        var after := ApplyFlows(st.debts, fs);
        if ChecksPass(st.debts, after, st.lines, fs)
        then (st.(debts := after, txs := st.txs[tx := Committed], locks := st.locks - {tx}), CommitDone)
        else (Abort(st, tx).0, CommitViolation)
  }

  // ----- invariants -----

  /** Kept by every step at every clock value: table constraints, no mutual debt, no debt
      above its active line, reservations only for prepared transactions. */
  ghost predicate Inv(st: State)
  {
    && WellFormed(st.debts) && Symmetric(st.debts)
    && (forall k :: k in st.lines ==> st.lines[k] >= 0 && k.debtor != k.creditor)
    && (forall k :: k in st.debts ==> st.debts[k] <= Limit(st.lines, k))
    && LocksFiled(st.locks)
    && (forall t :: t in st.locks ==> t in st.txs && st.txs[t] == Prepared)
  }

  /** Kept while no limit is cut below a reservation: on every edge, net debt plus what is
      reserved stays within the limit. */
  ghost predicate Reservable(st: State, now: int)
  {
    forall k :: ReservableOn(st, k, now)
  }

  ghost predicate ReservableOn(st: State, k: DebtKey, now: int)
  {
    Net(st.debts, k) + Reserved(st.locks, k, now, {}) <= Limit(st.lines, k)
  }

  lemma OwedWithinLimit(st: State, k: DebtKey)
    requires Inv(st)
    ensures 0 <= Owed(st.debts, k) && Owed(st.debts, k) <= Limit(st.lines, k) && Net(st.debts, k) <= Limit(st.lines, k)
    ensures Owed(st.debts, k) > 0 ==> Owed(st.debts, k.Reverse()) == 0
  {
    assert k.Reverse() in st.debts ==> st.debts[k.Reverse()] > 0;
  }

  // ----- prepare -----

  /** Fitting segment by segment means the whole reservation fits on every edge. */
  lemma {:induction false} FitsInTotal(st: State, tx: TxId, fs: seq<Flow>, now: int, k: DebtKey)
    requires Fits(st, tx, fs, now) && exists i :: 0 <= i < |fs| && fs[i].Key() == k
    ensures EdgeSum(fs, k) + Reserved(st.locks, k, now, {tx}) <= Available(st, k)
    decreases |fs|
  {
    var n := |fs| - 1;
    var init, last := fs[..n], fs[n];
    assert fs == init + [last];
    EdgeSumAppend(init, [last], k);
    assert EdgeSum([last], k) == if last.Key() == k then last.amount else 0;
    if last.Key() == k {
      assert FitsAt(st, tx, fs, now, n);
    } else {
      forall i | 0 <= i < n ensures FitsAt(st, tx, init, now, i) {
        assert FitsAt(st, tx, fs, now, i);
        assert fs[..i] == init[..i];
      }
      var i :| 0 <= i < |fs| && fs[i].Key() == k;
      assert init[i].Key() == k;
      FitsInTotal(st, tx, init, now, k);
    }
  }

  lemma {:induction false} PathFlowsAt(path: seq<Pid>, amount: int, eq: string)
    ensures |path| >= 2 ==> |PathFlows(path, amount, eq)| == |path| - 1
    ensures forall f :: f in PathFlows(path, amount, eq) ==> f.amount == amount && f.eq == eq
    decreases |path|
  {
    if |path| >= 2 {
      PathFlowsAt(path[1..], amount, eq);
    }
  }

  lemma {:induction false} SegmentsPositive(routes: seq<Route>, eq: string)
    requires forall r :: r in routes ==> r.amount > 0
    ensures forall f :: f in Segments(routes, eq) ==> f.amount > 0
    decreases |routes|
  {
    if routes != [] {
      var r := routes[0];
      assert r in routes;
      PathFlowsAt(r.path, r.amount, eq);
      assert forall x :: x in routes[1..] ==> x in routes;
      SegmentsPositive(routes[1..], eq);
    }
  }

  /** A segment from somebody to himself never fits, so accepted flows are proper. */
  lemma FittingFlowsProper(st: State, tx: TxId, fs: seq<Flow>, now: int)
    requires Inv(st) && Fits(st, tx, fs, now) && forall f :: f in fs ==> f.amount > 0
    ensures AllProper(fs)
  {
    forall f | f in fs ensures Proper(f) {
      var k := f.Key();
      if f.from == f.to {
        var i :| 0 <= i < |fs| && fs[i] == f;
        assert fs[i].Key() == k;
        FitsInTotal(st, tx, fs, now, k);
        assert k !in st.lines && k !in st.debts && k.Reverse() == k;
        PositiveEdge(fs, i);
        assert EdgeSum(fs, k) > 0;
        ReservedExceptNonNegative(st.locks, k, now, tx);
      }
    }
  }

  lemma ReservedExceptNonNegative(locks: Locks, k: DebtKey, now: int, tx: TxId)
    requires LocksFiled(locks)
    ensures Reserved(locks, k, now, {tx}) >= 0
  {
    assert LocksFiled(locks - {tx});
    ReservedDrop(locks, tx, k, now);
    ReservedShrinks(locks - {tx}, tx, k, now, now);
  }

  lemma {:induction false} PositiveEdge(fs: seq<Flow>, i: nat)
    requires i < |fs| && forall f :: f in fs ==> f.amount > 0
    ensures EdgeSum(fs, fs[i].Key()) > 0
    decreases |fs|
  {
    assert fs[0] in fs;
    assert forall f :: f in fs[1..] ==> f in fs;
    if i > 0 {
      PositiveEdge(fs[1..], i - 1);
    } else {
      NonNegativeEdge(fs[1..], fs[0].Key());
    }
  }

  lemma {:induction false} NonNegativeEdge(fs: seq<Flow>, k: DebtKey)
    requires forall f :: f in fs ==> f.amount > 0
    ensures EdgeSum(fs, k) >= 0
    decreases |fs|
  {
    if fs != [] {
      assert fs[0] in fs;
      assert forall f :: f in fs[1..] ==> f in fs;
      NonNegativeEdge(fs[1..], k);
    }
  }

  lemma PreparedRows(st: State, tx: TxId, routes: seq<Route>, eq: string, now: int)
    requires Inv(st) && GoodRoutes(routes) && Fits(st, tx, Segments(routes, eq), now)
    ensures AllProper(Segments(routes, eq)) && Filed(FileFlows([], Segments(routes, eq)))
    ensures forall k :: RowsSum(FileFlows([], Segments(routes, eq)), k) == EdgeSum(Segments(routes, eq), k)
  {
    var fs := Segments(routes, eq);
    SegmentsPositive(routes, eq);
    FittingFlowsProper(st, tx, fs, now);
    FileFlowsKeeps(fs);
    forall k ensures RowsSum(FileFlows([], fs), k) == EdgeSum(fs, k) {
      LookupBySenderIsComplete(FileFlows([], fs), k);
      EdgeSumPermutes(fs, RowFlows(FileFlows([], fs)), k);
    }
  }

  lemma PrepareKeepsInv(st: State, tx: TxId, routes: seq<Route>, eq: string, now: int, ttl: int)
    requires Inv(st)
    ensures Inv(Prepare(st, tx, routes, eq, now, ttl).0)
  {
    var (after, o) := Prepare(st, tx, routes, eq, now, ttl);
    if o.PrepareDone? {
      PreparedRows(st, tx, routes, eq, now);
    }
  }

  lemma PrepareKeepsReservable(st: State, tx: TxId, routes: seq<Route>, eq: string, now: int, ttl: int)
    requires Inv(st) && Reservable(st, now)
    ensures Reservable(Prepare(st, tx, routes, eq, now, ttl).0, now)
  {
    var (after, o) := Prepare(st, tx, routes, eq, now, ttl);
    var fs := Segments(routes, eq);
    if o.PrepareDone? && FileFlows([], fs) != [] {
      PreparedRows(st, tx, routes, eq, now);
      forall k ensures ReservableOn(after, k, now) {
        assert ReservableOn(st, k, now);
        ReservedAdd(st.locks, tx, Lock(FileFlows([], fs), now + ttl), k, now);
        assert st.locks.Keys - {tx} == st.locks.Keys - {};
        assert Reserved(st.locks, k, now, {tx}) == Reserved(st.locks, k, now, {});
        EdgeSumNonNegative(fs, k);
        if exists i :: 0 <= i < |fs| && fs[i].Key() == k {
          FitsInTotal(st, tx, fs, now, k);
        } else {
          EdgeSumUntouched(fs, k);
        }
      }
    } else {
      forall k ensures ReservableOn(after, k, now) {
        assert ReservableOn(st, k, now);
      }
    }
  }

  lemma {:induction false} PathFlowsIndex(path: seq<Pid>, amount: int, eq: string, i: nat)
    requires i + 1 < |path|
    ensures |PathFlows(path, amount, eq)| == |path| - 1 && PathFlows(path, amount, eq)[i] == Flow(eq, path[i], path[i + 1], amount)
    decreases |path|
  {
    PathFlowsAt(path, amount, eq);
    if i > 0 {
      PathFlowsIndex(path[1..], amount, eq, i - 1);
    }
  }

  lemma OneRouteSegments(path: seq<Pid>, amount: int, eq: string)
    ensures Segments([Route(path, amount)], eq) == PathFlows(path, amount, eq)
  {
    assert [Route(path, amount)][1..] == [];
    assert Segments([], eq) == [];
  }

  /** With different senders no earlier segment uses the same edge. */
  lemma FitsAloneIsFits(st: State, tx: TxId, fs: seq<Flow>, now: int)
    requires SendersDiffer(fs)
    ensures Fits(st, tx, fs, now) <==> forall f :: f in fs ==> FitsAlone(st, tx, f, now)
  {
    hide Available, Reserved;
    forall i | 0 <= i < |fs| ensures FitsAt(st, tx, fs, now, i) <==> FitsAlone(st, tx, fs[i], now) {
      forall j | 0 <= j < i ensures fs[..i][j].Key() != fs[i].Key() {
        assert fs[j].from != fs[i].from;
      }
      EdgeSumUntouched(fs[..i], fs[i].Key());
    }
    if forall f :: f in fs ==> FitsAlone(st, tx, f, now) {
      assert forall i :: 0 <= i < |fs| ==> fs[i] in fs;
    }
  }

  /** Phase 1 for one route is phase 1 for a list of one route wherever the path has two nodes or
      more and no sender twice; only if both a lock and an unknown participant stand in the way
      may they report a different one of the two. */
  lemma OnePathIsOneRoute(st: State, tx: TxId, path: seq<Pid>, amount: int, eq: string, now: int, ttl: int)
    requires amount > 0 && |path| >= 2 && SendersDiffer(PathFlows(path, amount, eq))
    ensures PrepareOne(st, tx, path, amount, eq, now, ttl).0 == Prepare(st, tx, [Route(path, amount)], eq, now, ttl).0
    ensures tx !in st.locks || (forall p :: p in path ==> p in st.people) ==>
              PrepareOne(st, tx, path, amount, eq, now, ttl) == Prepare(st, tx, [Route(path, amount)], eq, now, ttl)
  {
    hide SendersDiffer, Fits, FitsAlone, FileFlows, RowEach;
    var fs := PathFlows(path, amount, eq);
    OneRouteSegments(path, amount, eq);
    FitsAloneIsFits(st, tx, fs, now);
    RowEachIsFiling(fs);
    PathFlowsAt(path, amount, eq);
    assert [Route(path, amount)][0].path == path;
    assert forall r :: r in [Route(path, amount)] <==> r == Route(path, amount);
  }

  /** The other cases: nothing is filed for a path without segments, and nothing changes if a
      sender occurs twice. */
  lemma OtherPaths(st: State, tx: TxId, path: seq<Pid>, amount: int, eq: string, now: int, ttl: int)
    requires |path| < 2 || !SendersDiffer(PathFlows(path, amount, eq))
    ensures var after := PrepareOne(st, tx, path, amount, eq, now, ttl).0;
            after == st || (tx in st.txs && st.txs[tx] != Committed && st.txs[tx] != Aborted && tx !in st.locks && after == st.(txs := st.txs[tx := Prepared]))
  {
    hide SendersDiffer, FitsAlone;
  }

  lemma PathKeepsInv(st: State, tx: TxId, path: seq<Pid>, amount: int, eq: string, now: int, ttl: int)
    requires Inv(st)
    ensures Inv(Next(st, PreparePath(tx, path, amount, eq, ttl), now))
  {
    hide Prepare, PrepareOne, Fits, PathFlows;
    if amount > 0 {
      if |path| < 2 || !SendersDiffer(PathFlows(path, amount, eq)) {
        OtherPaths(st, tx, path, amount, eq, now, ttl);
      } else {
        hide Inv;
        OnePathIsOneRoute(st, tx, path, amount, eq, now, ttl);
        PrepareKeepsInv(st, tx, [Route(path, amount)], eq, now, ttl);
      }
    }
  }

  lemma PathKeepsReservable(st: State, tx: TxId, path: seq<Pid>, amount: int, eq: string, now: int, ttl: int)
    requires Inv(st) && Reservable(st, now)
    ensures Reservable(Next(st, PreparePath(tx, path, amount, eq, ttl), now), now)
  {
    hide Prepare, PrepareOne, Fits, PathFlows, Inv;
    if amount > 0 {
      if |path| < 2 || !SendersDiffer(PathFlows(path, amount, eq)) {
        OtherPaths(st, tx, path, amount, eq, now, ttl);
        assert forall k :: ReservableOn(st, k, now) ==> ReservableOn(Next(st, PreparePath(tx, path, amount, eq, ttl), now), k, now);
      } else {
        hide Reservable;
        OnePathIsOneRoute(st, tx, path, amount, eq, now, ttl);
        PrepareKeepsReservable(st, tx, [Route(path, amount)], eq, now, ttl);
      }
    }
  }

  // ----- commit -----

  /** Applied flows leave every pair one-sided, so net debt is debt. */
  lemma AppliedOwed(d: Debts, fs: seq<Flow>, k: DebtKey)
    requires WellFormed(d) && Symmetric(d) && AllProper(fs)
    ensures var after := ApplyFlows(d, fs);
            Owed(after, k) == (if Net(after, k) > 0 then Net(after, k) else 0)
            && Net(after, k) == Net(d, k) + EdgeSum(fs, k) - EdgeSum(fs, k.Reverse())
  {
    var after := ApplyFlows(d, fs);
    ApplyFlowsShape(d, fs);
    ApplyFlowsNet(d, fs, k);
    assert k in after ==> k.Reverse() !in after;
    assert k.Reverse() in after ==> after[k.Reverse()] > 0;
  }

  /** The zero-sum, symmetry and delta checks can never fail after applying proper flows,
      whatever mutual debts there are elsewhere. */
  lemma OtherChecksAlwaysPass(d: Debts, fs: seq<Flow>)
    requires WellFormed(d) && AllProper(fs)
    ensures NoMutualDebts(ApplyFlows(d, fs), fs)
    ensures forall eq :: ZeroSumHolds(ApplyFlows(d, fs), eq)
    ensures DeltasMatch(d, ApplyFlows(d, fs), fs)
  {
    hide ApplyFlows, Position, Touches;
    var after := ApplyFlows(d, fs);
    ApplyFlowsShape(d, fs);
    forall k | Touches(fs, k) ensures !(Owed(after, k) > 0 && Owed(after, k.Reverse()) > 0) {
      TouchedIsOneSided(d, fs, k);
    }
    forall eq ensures ZeroSumHolds(after, eq) {
      ZeroSum(after, eq, Involved(after, eq));
    }
    forall f, p | f in fs && p in {f.from, f.to} ensures Position(after, f.eq, p) - Position(d, f.eq, p) == Delta(fs, f.eq, p) {
      ApplyFlowsPosition(d, fs, f.eq, p);
    }
  }

  /** Every edge the flows use still has room for its net change. */
  ghost predicate RoomForAll(st: State, fs: seq<Flow>)
  {
    forall f :: f in fs ==>
      Net(st.debts, f.Key()) + EdgeSum(fs, f.Key()) - EdgeSum(fs, f.Key().Reverse()) <= Limit(st.lines, f.Key())
  }

  ghost predicate Committable(st: State, tx: TxId, now: int)
  {
    tx in st.txs && st.txs[tx] == Prepared && tx in st.locks && st.locks[tx].expires > now
  }

  /** A prepared, unexpired transaction commits exactly when its edges have room; the other
      three checks never decide, and the result is the persisted flows applied. */
  lemma CommitsIffRoom(st: State, tx: TxId, now: int)
    requires Inv(st) && Committable(st, tx, now)
    ensures var fs := RowFlows(st.locks[tx].rows);
            Commit(st, tx, now).1 == (if RoomForAll(st, fs) then CommitDone else CommitViolation)
    ensures Commit(st, tx, now).1 == CommitDone ==>
              Commit(st, tx, now).0.debts == ApplyFlows(st.debts, RowFlows(st.locks[tx].rows))
    ensures Commit(st, tx, now).1 == CommitViolation ==> Commit(st, tx, now).0.debts == st.debts
  {
    hide ApplyFlows, TrustLimitsHold, NoMutualDebts, ZeroSumHolds, DeltasMatch, RoomForAll, Abort, WellFormed, Symmetric, Filed;
    var fs := RowFlows(st.locks[tx].rows);
    var after := ApplyFlows(st.debts, fs);
    FiledProper(st.locks[tx].rows);
    FiledParses(st.locks[tx].rows);
    AbortKeepsDebts(st, tx);
    OtherChecksAlwaysPass(st.debts, fs);
    TrustLimitsIffRoom(st, fs);
  }

  /** What phase 1 filed is never malformed. */
  lemma FiledParses(rows: seq<LockRow>)
    requires Filed(rows) && rows != []
    ensures !Malformed(rows) && forall f :: f in RowFlows(rows) ==> f.from != f.to
  {
    FiledProper(rows);
  }

  lemma AbortKeepsDebts(st: State, tx: TxId)
    ensures Abort(st, tx).0.debts == st.debts && Abort(st, tx).0.lines == st.lines
    ensures Abort(st, tx).0.locks == st.locks - {tx}
  {
  }

  lemma TrustLimitsIffRoom(st: State, fs: seq<Flow>)
    requires Inv(st) && AllProper(fs)
    ensures TrustLimitsHold(ApplyFlows(st.debts, fs), st.lines, fs) <==> RoomForAll(st, fs)
  {
    var after := ApplyFlows(st.debts, fs);
    forall k ensures Owed(after, k) == (if Net(after, k) > 0 then Net(after, k) else 0)
                     && Net(after, k) == Net(st.debts, k) + EdgeSum(fs, k) - EdgeSum(fs, k.Reverse())
    {
      AppliedOwed(st.debts, fs, k);
    }
    if TrustLimitsHold(after, st.lines, fs) {
      forall f | f in fs ensures Net(after, f.Key()) <= Limit(st.lines, f.Key()) {
        var i :| 0 <= i < |fs| && fs[i] == f;
        assert Touches(fs, f.Key());
      }
    }
    if RoomForAll(st, fs) {
      forall k | k in after && Touches(fs, k) ensures after[k] <= Limit(st.lines, k) {
        TouchedWithinLimit(st, fs, k);
      }
    }
  }

  /** An edge used only backwards can only be paid down. */
  lemma TouchedWithinLimit(st: State, fs: seq<Flow>, k: DebtKey)
    requires Inv(st) && AllProper(fs) && RoomForAll(st, fs)
    ensures Net(st.debts, k) + EdgeSum(fs, k) - EdgeSum(fs, k.Reverse()) <= Limit(st.lines, k)
  {
    if f :| f in fs && f.Key() == k {
    } else {
      assert forall i :: 0 <= i < |fs| ==> fs[i] in fs;
      EdgeSumUntouched(fs, k);
      EdgeSumNonNegative(fs, k.Reverse());
      OwedWithinLimit(st, k);
    }
  }

  lemma AppliedWithinLimits(st: State, fs: seq<Flow>)
    requires Inv(st) && AllProper(fs) && TrustLimitsHold(ApplyFlows(st.debts, fs), st.lines, fs)
    ensures WellFormed(ApplyFlows(st.debts, fs)) && Symmetric(ApplyFlows(st.debts, fs))
    ensures forall k :: k in ApplyFlows(st.debts, fs) ==> ApplyFlows(st.debts, fs)[k] <= Limit(st.lines, k)
  {
    ApplyFlowsShape(st.debts, fs);
    forall k | k in ApplyFlows(st.debts, fs) ensures ApplyFlows(st.debts, fs)[k] <= Limit(st.lines, k) {
      if !Touches(fs, k) {
        assert Owed(ApplyFlows(st.debts, fs), k) == Owed(st.debts, k);
        OwedWithinLimit(st, k);
      }
    }
  }

  lemma CommitKeepsInv(st: State, tx: TxId, now: int)
    requires Inv(st)
    ensures Inv(Commit(st, tx, now).0)
  {
    hide ApplyFlows, TrustLimitsHold, NoMutualDebts, ZeroSumHolds, DeltasMatch, WellFormed, Symmetric, Filed, Limit, AllProper;
    if Commit(st, tx, now).1.CommitDone? {
      FiledProper(st.locks[tx].rows);
      AppliedWithinLimits(st, RowFlows(st.locks[tx].rows));
    }
  }

  lemma AbortKeepsReservable(st: State, tx: TxId, now: int)
    requires Inv(st) && Reservable(st, now)
    ensures Reservable(Abort(st, tx).0, now)
  {
    forall k ensures ReservableOn(Abort(st, tx).0, k, now) {
      assert ReservableOn(st, k, now);
      ReservedShrinks(st.locks, tx, k, now, now);
    }
  }

  /** Under the reservation invariant a prepared, unexpired transaction always has room. */
  lemma ReservationGivesRoom(st: State, tx: TxId, now: int)
    requires Inv(st) && Reservable(st, now) && Committable(st, tx, now)
    ensures RoomForAll(st, RowFlows(st.locks[tx].rows))
  {
    var fs := RowFlows(st.locks[tx].rows);
    FiledProper(st.locks[tx].rows);
    forall f | f in fs
      ensures Net(st.debts, f.Key()) + EdgeSum(fs, f.Key()) - EdgeSum(fs, f.Key().Reverse()) <= Limit(st.lines, f.Key())
    {
      var k := f.Key();
      assert ReservableOn(st, k, now);
      ReservedWith(st.locks, tx, k, now);
      ReservedExceptNonNegative(st.locks, k, now, tx);
      LookupBySenderIsComplete(st.locks[tx].rows, k);
      EdgeSumNonNegative(fs, k.Reverse());
    }
  }

  lemma AppliedKeepsReservable(st: State, tx: TxId, after: State, now: int)
    requires Inv(st) && Reservable(st, now) && tx in st.locks && st.locks[tx].expires > now
    requires after.debts == ApplyFlows(st.debts, RowFlows(st.locks[tx].rows))
    requires after.lines == st.lines && after.locks == st.locks - {tx}
    ensures Reservable(after, now)
  {
    var fs := RowFlows(st.locks[tx].rows);
    FiledProper(st.locks[tx].rows);
    forall k ensures ReservableOn(after, k, now) {
      assert ReservableOn(st, k, now);
      ApplyFlowsNet(st.debts, fs, k);
      ReservedWith(st.locks, tx, k, now);
      ReservedDrop(st.locks, tx, k, now);
      LookupBySenderIsComplete(st.locks[tx].rows, k);
      EdgeSumNonNegative(fs, k.Reverse());
    }
  }

  lemma CommitKeepsReservable(st: State, tx: TxId, now: int)
    requires Inv(st) && Reservable(st, now)
    ensures Reservable(Commit(st, tx, now).0, now)
  {
    hide Inv, Reservable, Abort, ApplyFlows, ChecksPass;
    var (after, o) := Commit(st, tx, now);
    if o.CommitDone? {
      AppliedKeepsReservable(st, tx, after, now);
    } else if after != st {
      AbortKeepsReservable(st, tx, now);
    }
  }

  // ----- the other steps -----

  datatype Step =
    | Begin(tx: TxId)
    | PrepareTx(tx: TxId, routes: seq<Route>, eq: string, ttl: int)
    | PreparePath(tx: TxId, path: seq<Pid>, amount: int, eq: string, ttl: int)
    | CommitTx(tx: TxId)
    | AbortTx(tx: TxId)
    | Clear(rows: seq<DebtKey>, declined: set<DebtKey>, interlocked: bool)
    | OpenLine(key: DebtKey, limit: int)
    | SetLimit(key: DebtKey, limit: int)
    | CloseLine(key: DebtKey)

  /** Rows a clearing must not touch: reserved pairs, rows without an active line, and rows
      whose line declines automatic clearing. */
  ghost function Protected(st: State, declined: set<DebtKey>, now: int): iset<DebtKey>
  {
    iset k: DebtKey | PairLocked(st.locks, k, now) || k !in st.lines || k in declined
  }

  /** One persisted step of some client at clock value `now`; refused steps change nothing. The
      service refuses amounts that are not positive before it prepares anything. */
  ghost function Next(st: State, step: Step, now: int): State
  {
    match step
    case Begin(tx) => if tx in st.txs then st else st.(txs := st.txs[tx := New])
    case PrepareTx(tx, routes, eq, ttl) => Prepare(st, tx, routes, eq, now, ttl).0
    case PreparePath(tx, path, amount, eq, ttl) => if amount <= 0 then st else PrepareOne(st, tx, path, amount, eq, now, ttl).0
    case CommitTx(tx) => Commit(st, tx, now).0
    case AbortTx(tx) => Abort(st, tx).0
    case Clear(rows, declined, interlocked) => st.(debts := Clearing.Execute(st.debts, rows, Protected(st, declined, now), interlocked).0)
    case OpenLine(k, limit) =>
      if k in st.lines || k.debtor == k.creditor || limit < 0 then st else st.(lines := st.lines[k := limit])
    case SetLimit(k, limit) =>
      if k !in st.lines || limit < 0 || limit < Owed(st.debts, k) then st else st.(lines := st.lines[k := limit])
    case CloseLine(k) =>
      if k !in st.lines || Owed(st.debts, k) > 0 || Owed(st.debts, k.Reverse()) > 0 then st
      else st.(lines := st.lines - {k})
  }

  /** Debts may shrink. */
  lemma SmallerDebtsKeepInv(st: State, d: Debts)
    requires Inv(st) && WellFormed(d) && d.Keys <= st.debts.Keys && forall k :: Owed(d, k) <= Owed(st.debts, k)
    ensures Inv(st.(debts := d))
  {
    hide LocksFiled;
    forall k | k in d ensures d[k] <= Limit(st.lines, k) && k.Reverse() !in d {
      assert Owed(d, k) <= Owed(st.debts, k);
    }
  }

  lemma ClearKeepsInv(st: State, rows: seq<DebtKey>, declined: set<DebtKey>, interlocked: bool, now: int)
    requires Inv(st)
    ensures Inv(Next(st, Clear(rows, declined, interlocked), now))
  {
    assert WellFormed(st.debts);
    hide Inv, Clearing.Execute, Clearing.Takes, Clearing.OneEquivalent, Protected, WellFormed;
    var blocked := Protected(st, declined, now);
    Clearing.ClearingShrinks(st.debts, rows, blocked, interlocked);
    SmallerDebtsKeepInv(st, Clearing.Execute(st.debts, rows, blocked, interlocked).0);
  }

  /** Lowering row `r` by `m` raises the net debt of its reverse; there must be room for that
      beside the reservations. */
  ghost predicate LeavesRoom(st: State, r: DebtKey, m: int, now: int)
  {
    Net(st.debts, r.Reverse()) + m + Reserved(st.locks, r.Reverse(), now, {}) <= Limit(st.lines, r.Reverse())
  }

  ghost predicate ClearingLeavesRoom(st: State, rows: seq<DebtKey>, declined: set<DebtKey>, interlocked: bool, now: int)
  {
    Clearing.Takes(st.debts, rows, Protected(st, declined, now), interlocked) ==>
      forall r :: r in rows ==> LeavesRoom(st, r, Clearing.MinOwed(st.debts, rows), now)
  }

  lemma LoweredNet(st: State, rows: seq<DebtKey>, m: int, k: DebtKey)
    requires Inv(st) && Distinct(rows) && m > 0 && forall r :: r in rows ==> r in st.debts
    ensures var d := Clearing.Lower(st.debts, rows, m);
            if k.Reverse() in rows then Net(d, k) == Net(st.debts, k) + m else Net(d, k) <= Net(st.debts, k)
  {
    Clearing.LowerOwed(st.debts, rows, m, k);
    Clearing.LowerOwed(st.debts, rows, m, k.Reverse());
    assert k.Reverse() in rows ==> k !in rows;
  }

  /** A clearing keeps the live promises exactly when every row it lowers leaves room in the
      other direction. */
  lemma ClearKeepsReservableIff(st: State, rows: seq<DebtKey>, declined: set<DebtKey>, interlocked: bool, now: int)
    requires Inv(st) && Reservable(st, now)
    ensures Reservable(Next(st, Clear(rows, declined, interlocked), now), now) <==> ClearingLeavesRoom(st, rows, declined, interlocked, now)
  {
    var blocked, m := Protected(st, declined, now), if rows == [] then 1 else Clearing.MinOwed(st.debts, rows);
    var after := Next(st, Clear(rows, declined, interlocked), now);
    Clearing.ClearedIffTaken(st.debts, rows, blocked, interlocked);
    if Clearing.Takes(st.debts, rows, blocked, interlocked) {
      Clearing.ClearedIffBalanced(st.debts, rows, blocked, interlocked);
      hide Protected, Clearing.Execute, Clearing.Lower, Clearing.MinOwed, Clearing.BalancedIn, Inv, Net;
      forall k: DebtKey ensures if k.Reverse() in rows then Net(after.debts, k) == Net(st.debts, k) + m else Net(after.debts, k) <= Net(st.debts, k) {
        LoweredNet(st, rows, m, k);
      }
      RoomIff(st, after, rows, m, now);
    } else {
      assert after == st;
    }
  }

  lemma RoomIff(st: State, after: State, rows: seq<DebtKey>, m: int, now: int)
    requires Reservable(st, now) && after == st.(debts := after.debts)
    requires forall k: DebtKey :: if k.Reverse() in rows then Net(after.debts, k) == Net(st.debts, k) + m else Net(after.debts, k) <= Net(st.debts, k)
    ensures Reservable(after, now) <==> forall r :: r in rows ==> LeavesRoom(st, r, m, now)
  {
    hide Net;
    if Reservable(after, now) {
      forall r | r in rows ensures LeavesRoom(st, r, m, now) {
        assert r.Reverse().Reverse() == r;
        assert ReservableOn(after, r.Reverse(), now);
      }
    }
    if forall r :: r in rows ==> LeavesRoom(st, r, m, now) {
      forall k ensures ReservableOn(after, k, now) {
        assert ReservableOn(st, k, now);
        assert k.Reverse() in rows ==> LeavesRoom(st, k.Reverse(), m, now);
        assert k.Reverse().Reverse() == k;
      }
    }
  }

  /** Clearing keeps off reserved pairs of the equivalent it looks at, so an attempt within one
      equivalent, or under the interlock, never eats into a reservation. */
  lemma ClearKeepsReservable(st: State, rows: seq<DebtKey>, declined: set<DebtKey>, interlocked: bool, now: int)
    requires Inv(st) && Reservable(st, now) && (interlocked || Clearing.OneEquivalent(rows))
    ensures Reservable(Next(st, Clear(rows, declined, interlocked), now), now)
  {
    ClearKeepsReservableIff(st, rows, declined, interlocked, now);
    if Clearing.Takes(st.debts, rows, Protected(st, declined, now), interlocked) {
      forall r | r in rows ensures LeavesRoom(st, r, Clearing.MinOwed(st.debts, rows), now) {
        assert Clearing.In(r, rows[0].eq) == r;
        UnlockedReservesNothing(st.locks, r, now);
        assert r in st.debts && r.Reverse() !in st.debts && r.Reverse().Reverse() == r;
      }
    }
  }

  // ----- every run -----

  lemma AbortKeepsInv(st: State, tx: TxId)
    requires Inv(st)
    ensures Inv(Abort(st, tx).0)
  {
  }

  lemma BeginKeepsInv(st: State, tx: TxId, now: int)
    requires Inv(st)
    ensures Inv(Next(st, Begin(tx), now))
  {
  }

  lemma StepKeepsInv(st: State, step: Step, now: int)
    requires Inv(st)
    ensures Inv(Next(st, step, now))
  {
    hide Inv, Prepare, Commit, Abort;
    match step
    case Begin(tx) => BeginKeepsInv(st, tx, now);
    case PrepareTx(tx, routes, eq, ttl) => PrepareKeepsInv(st, tx, routes, eq, now, ttl);
    case PreparePath(tx, path, amount, eq, ttl) => PathKeepsInv(st, tx, path, amount, eq, now, ttl);
    case CommitTx(tx) => CommitKeepsInv(st, tx, now);
    case AbortTx(tx) => AbortKeepsInv(st, tx);
    case Clear(rows, declined, interlocked) => ClearKeepsInv(st, rows, declined, interlocked, now);
    case OpenLine(k, limit) => LineKeepsInv(st, k, step, now);
    case SetLimit(k, limit) => LineKeepsInv(st, k, step, now);
    case CloseLine(k) => LineKeepsInv(st, k, step, now);
  }

  /** Lines that still cover every debt. */
  ghost predicate GoodLines(d: Debts, lines: Lines)
  {
    && (forall j :: j in lines ==> lines[j] >= 0 && j.debtor != j.creditor)
    && (forall j :: j in d ==> d[j] <= Limit(lines, j))
  }

  lemma SetLineGood(d: Debts, lines: Lines, k: DebtKey, limit: int)
    requires GoodLines(d, lines) && limit >= 0 && k.debtor != k.creditor && Owed(d, k) <= limit
    ensures GoodLines(d, lines[k := limit])
  {
    forall j | j in d ensures d[j] <= Limit(lines[k := limit], j) {
      assert j != k ==> Limit(lines[k := limit], j) == Limit(lines, j);
    }
  }

  lemma DropLineGood(d: Debts, lines: Lines, k: DebtKey)
    requires GoodLines(d, lines) && k !in d
    ensures GoodLines(d, lines - {k})
  {
    forall j | j in d ensures d[j] <= Limit(lines - {k}, j) {
      assert Limit(lines - {k}, j) == Limit(lines, j);
    }
  }

  lemma NewLinesKeepInv(st: State, lines: Lines)
    requires Inv(st) && GoodLines(st.debts, lines)
    ensures Inv(st.(lines := lines))
  {
  }

  lemma LineKeepsInv(st: State, k: DebtKey, step: Step, now: int)
    requires Inv(st) && (step.OpenLine? || step.SetLimit? || step.CloseLine?) && step.key == k
    ensures Inv(Next(st, step, now))
  {
    assert GoodLines(st.debts, st.lines);
    assert k !in st.lines ==> k !in st.debts;
    assert k in st.debts ==> Owed(st.debts, k) > 0;
    assert k in st.lines ==> k.debtor != k.creditor;
    hide Inv, Prepare, Commit, Abort, Protected, GoodLines, Clearing.Execute;
    var after := Next(st, step, now);
    assert after == st.(lines := after.lines);
    if step.CloseLine? {
      if k !in st.debts { DropLineGood(st.debts, st.lines, k); }
    } else if step.limit >= 0 && Owed(st.debts, k) <= step.limit && k.debtor != k.creditor {
      SetLineGood(st.debts, st.lines, k, step.limit);
    }
    NewLinesKeepInv(st, after.lines);
  }

  /** The state a run of timed steps ends in. */
  ghost function Run(st: State, steps: seq<(Step, int)>): State
  {
    if steps == [] then st else Next(Run(st, steps[..|steps| - 1]), steps[|steps| - 1].0, steps[|steps| - 1].1)
  }

  /** Safety: in every run of payments, clearings and trust-line changes, whatever clocks the
      clients read, debts stay positive, one-sided and within their active lines. */
  lemma {:induction false} RunKeepsInv(st: State, steps: seq<(Step, int)>)
    requires Inv(st)
    ensures Inv(Run(st, steps))
    decreases |steps|
  {
    if steps != [] {
      RunKeepsInv(st, steps[..|steps| - 1]);
      StepKeepsInv(Run(st, steps[..|steps| - 1]), steps[|steps| - 1].0, steps[|steps| - 1].1);
    }
  }

  /** The steps that keep the live promises: of all steps only a limit change, a closure and a
      clearing can break them, when they take effect and leave too little room. */
  ghost predicate RespectsReservations(st: State, step: Step, now: int)
  {
    match step
    case SetLimit(k, limit) =>
      k in st.lines && limit >= 0 && limit >= Owed(st.debts, k) ==> limit >= Net(st.debts, k) + Reserved(st.locks, k, now, {})
    case CloseLine(k) =>
      k in st.lines && Owed(st.debts, k) <= 0 && Owed(st.debts, k.Reverse()) <= 0 ==> Reserved(st.locks, k, now, {}) <= 0
    case Clear(rows, declined, interlocked) => ClearingLeavesRoom(st, rows, declined, interlocked, now)
    case _ => true
  }

  /** The condition is exact for every step. */
  lemma StepKeepsReservableIff(st: State, step: Step, now: int)
    requires Inv(st) && Reservable(st, now)
    ensures Reservable(Next(st, step, now), now) <==> RespectsReservations(st, step, now)
  {
    hide Inv, Prepare, Commit, Abort, ClearingLeavesRoom, Clearing.Execute, Protected;
    match step
    case Begin(tx) => assert forall k :: ReservableOn(st, k, now) ==> ReservableOn(Next(st, step, now), k, now);
    case PrepareTx(tx, routes, eq, ttl) => PrepareKeepsReservable(st, tx, routes, eq, now, ttl);
    case PreparePath(tx, path, amount, eq, ttl) => PathKeepsReservable(st, tx, path, amount, eq, now, ttl);
    case CommitTx(tx) => CommitKeepsReservable(st, tx, now);
    case AbortTx(tx) => AbortKeepsReservable(st, tx, now);
    case Clear(rows, declined, interlocked) => ClearKeepsReservableIff(st, rows, declined, interlocked, now);
    case OpenLine(k, limit) => LineKeepsReservableIff(st, k, step, now);
    case SetLimit(k, limit) => LineKeepsReservableIff(st, k, step, now);
    case CloseLine(k) => LineKeepsReservableIff(st, k, step, now);
  }

  lemma LineKeepsReservableIff(st: State, k: DebtKey, step: Step, now: int)
    requires Inv(st) && Reservable(st, now)
    requires (step.OpenLine? || step.SetLimit? || step.CloseLine?) && step.key == k
    ensures Reservable(Next(st, step, now), now) <==> RespectsReservations(st, step, now)
  {
    var after := Next(st, step, now);
    OnlyThisLine(st, k, step, now);
    ThisLine(st, k, step, now);
    hide Inv, Next, RespectsReservations;
    assert ReservableOn(st, k, now);
    forall j | j != k ensures ReservableOn(after, j, now) {
      assert ReservableOn(st, j, now);
    }
  }

  lemma OnlyThisLine(st: State, k: DebtKey, step: Step, now: int)
    requires (step.OpenLine? || step.SetLimit? || step.CloseLine?) && step.key == k
    ensures var after := Next(st, step, now);
            after.debts == st.debts && after.locks == st.locks && forall j :: j != k ==> Limit(after.lines, j) == Limit(st.lines, j)
  {
  }

  lemma ThisLine(st: State, k: DebtKey, step: Step, now: int)
    requires Inv(st) && ReservableOn(st, k, now)
    requires (step.OpenLine? || step.SetLimit? || step.CloseLine?) && step.key == k
    ensures ReservableOn(Next(st, step, now), k, now) <==> RespectsReservations(st, step, now)
  {
    OwedWithinLimit(st, k);
    OwedWithinLimit(st, k.Reverse());
    hide Inv, Reserved, Prepare, Commit, Abort, ClearingLeavesRoom, Clearing.Execute, Protected;
  }

  /** A limit change the service accepts keeps the live promises exactly when the new limit
      covers net debt plus reservations; the service looks at the used amount only. */
  lemma SetLimitKeepsReservableIff(st: State, k: DebtKey, limit: int, now: int)
    requires Inv(st) && Reservable(st, now) && k in st.lines && limit >= 0 && limit >= Owed(st.debts, k)
    ensures Reservable(Next(st, SetLimit(k, limit), now), now) <==> limit >= Net(st.debts, k) + Reserved(st.locks, k, now, {})
  {
    StepKeepsReservableIff(st, SetLimit(k, limit), now);
  }

  /** A closure the service accepts keeps them exactly when nothing is reserved on the line;
      the service looks at the two debts only. */
  lemma CloseLineKeepsReservableIff(st: State, k: DebtKey, now: int)
    requires Inv(st) && Reservable(st, now) && k in st.lines && Owed(st.debts, k) == 0 && Owed(st.debts, k.Reverse()) == 0
    ensures Reservable(Next(st, CloseLine(k), now), now) <==> Reserved(st.locks, k, now, {}) <= 0
  {
    StepKeepsReservableIff(st, CloseLine(k), now);
  }

  /** Clocks do not run backwards and no step cuts into a live reservation. */
  ghost predicate Disciplined(st: State, start: int, steps: seq<(Step, int)>)
  {
    steps == [] ||
    (var init, last := steps[..|steps| - 1], steps[|steps| - 1];
     && Disciplined(st, start, init)
     && Clock(start, init) <= last.1
     && RespectsReservations(Run(st, init), last.0, last.1))
  }

  function Clock(start: int, steps: seq<(Step, int)>): int
  {
    if steps == [] then start else steps[|steps| - 1].1
  }

  lemma WaitKeepsReservable(st: State, now: int, later: int)
    requires Inv(st) && Reservable(st, now) && now <= later
    ensures Reservable(st, later)
  {
    forall k ensures ReservableOn(st, k, later) {
      assert ReservableOn(st, k, now);
      ReservedShrinks(st.locks, "", k, now, later);
    }
  }

  lemma {:induction false} RunKeepsReservable(st: State, start: int, steps: seq<(Step, int)>)
    requires Inv(st) && Reservable(st, start) && Disciplined(st, start, steps)
    ensures Reservable(Run(st, steps), Clock(start, steps))
    decreases |steps|
  {
    if steps != [] {
      var init, last := steps[..|steps| - 1], steps[|steps| - 1];
      RunKeepsInv(st, init);
      RunKeepsReservable(st, start, init);
      WaitKeepsReservable(Run(st, init), Clock(start, init), last.1);
      StepKeepsReservableIff(Run(st, init), last.0, last.1);
    }
  }

  /** The promise of phase 1: after any disciplined run, every prepared transaction whose
      locks have not expired commits, and its flows are applied in full. */
  lemma PreparedAlwaysCommits(st: State, start: int, steps: seq<(Step, int)>, tx: TxId, now: int)
    requires Inv(st) && Reservable(st, start) && Disciplined(st, start, steps) && Clock(start, steps) <= now
    requires Committable(Run(st, steps), tx, now)
    ensures Commit(Run(st, steps), tx, now).1 == CommitDone
    ensures Commit(Run(st, steps), tx, now).0.debts ==
            ApplyFlows(Run(st, steps).debts, RowFlows(Run(st, steps).locks[tx].rows))
  {
    RunKeepsInv(st, steps);
    RunKeepsReservable(st, start, steps);
    WaitKeepsReservable(Run(st, steps), Clock(start, steps), now);
    ReservationGivesRoom(Run(st, steps), tx, now);
    CommitsIffRoom(Run(st, steps), tx, now);
  }
}
