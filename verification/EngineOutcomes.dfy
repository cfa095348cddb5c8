/** What each step of the engine does and when, in terms of the tables alone: which outcome a
    call reports, what it leaves behind, and that it leaves everything else. */
module EngineOutcomes {
  import opened Lists
  import opened Ledger
  import opened Flows
  import opened PrepareLocks
  import opened Engine
  import Clearing
  import R = EngineRuns

  // ----- reservations -----

  /** A lock reserves exactly its flows until it expires, and nothing from then on. */
  lemma LockReserves(locks: Locks, t: TxId, k: DebtKey, now: int)
    requires t in locks && Filed(locks[t].rows)
    ensures Reserved(locks, k, now, {}) == Reserved(locks - {t}, k, now, {}) + if now < locks[t].expires then EdgeSum(RowFlows(locks[t].rows), k) else 0
  {
    ReservedWith(locks, t, k, now);
    ReservedDrop(locks, t, k, now);
    LookupBySenderIsComplete(locks[t].rows, k);
  }

  lemma NoLocksReserveNothing(k: DebtKey, now: int, except: set<TxId>)
    ensures Reserved(map[], k, now, except) == 0
  {
  }

  // ----- abort -----

  lemma AbortOutcomes(st: State, tx: TxId)
    ensures Abort(st, tx).1 == AlreadyCommitted <==> tx in st.txs && st.txs[tx] == Committed
    ensures Abort(st, tx).1 == AlreadyAborted <==> tx in st.txs && st.txs[tx] == Aborted
    ensures tx in st.txs && st.txs[tx] != Committed ==> Abort(st, tx).0 == st.(txs := st.txs[tx := Aborted], locks := st.locks - {tx})
    ensures tx !in st.txs || st.txs[tx] == Committed ==> Abort(st, tx).0 == st.(locks := st.locks - {tx})
  {
    assert tx in st.txs && st.txs[tx] == Aborted ==> st.txs[tx := Aborted] == st.txs;
  }

  // ----- commit -----

  /** A commit that fails on an expired lock or a violated limit ends the transaction: it is
      aborted, its locks are gone, and nothing else has changed. */
  lemma FailedCommitAborts(st: State, tx: TxId, now: int)
    requires Commit(st, tx, now).1 == CommitExpired || Commit(st, tx, now).1 == CommitViolation
    ensures Commit(st, tx, now).0 == st.(txs := st.txs[tx := Aborted], locks := st.locks - {tx})
  {
    hide ChecksPass, ApplyFlows, Malformed, RowFlows;
  }

  lemma DoneCommitSettles(st: State, tx: TxId, now: int)
    requires Commit(st, tx, now).1 == CommitDone
    ensures Commit(st, tx, now).0
         == st.(debts := ApplyFlows(st.debts, RowFlows(st.locks[tx].rows)), txs := st.txs[tx := Committed], locks := st.locks - {tx})
  {
    hide ChecksPass, ApplyFlows, Malformed, RowFlows;
  }

  /** Every other outcome changes nothing. */
  lemma OtherCommitsChangeNothing(st: State, tx: TxId, now: int)
    requires Commit(st, tx, now).1 !in {CommitDone, CommitExpired, CommitViolation}
    ensures Commit(st, tx, now).0 == st
  {
    hide ChecksPass, ApplyFlows, Malformed, RowFlows;
  }

  /** Which outcome a commit reports, on any tables. */
  lemma CommitOutcomes(st: State, tx: TxId, now: int)
    ensures var o := Commit(st, tx, now).1;
            && (o == CommitNotFound <==> tx !in st.txs)
            && (o == CommitRepeated <==> tx in st.txs && st.txs[tx] == Committed)
            && (o == CommitConflict <==> tx in st.txs && st.txs[tx] != Committed && st.txs[tx] != Prepared)
            && (o == CommitNoLocks <==> tx in st.txs && st.txs[tx] == Prepared && tx !in st.locks)
            && (o == CommitMalformed <==> tx in st.txs && st.txs[tx] == Prepared && tx in st.locks && !Readable(st.locks[tx].rows))
            && (o == CommitExpired <==> tx in st.txs && st.txs[tx] == Prepared && tx in st.locks && Readable(st.locks[tx].rows) && st.locks[tx].expires <= now)
            && (o == CommitUnstorable <==> Live(st, tx, now) && exists f :: f in RowFlows(st.locks[tx].rows) && f.from == f.to)
  {
    hide ChecksPass, ApplyFlows, RowFlows;
  }

  /** Rows that strict parsing accepts: at least one, each with flows, all of positive amount. */
  ghost predicate Readable(rows: seq<LockRow>)
  {
    rows != [] && forall r :: r in rows ==> r.flows != [] && forall f :: f in r.flows ==> f.amount > 0
  }

  ghost predicate Live(st: State, tx: TxId, now: int)
  {
    tx in st.txs && st.txs[tx] == Prepared && tx in st.locks && Readable(st.locks[tx].rows) && now < st.locks[tx].expires
  }

  /** In every reachable state an expired prepared transaction is aborted by its commit. */
  lemma ExpiredAlwaysAborts(st: State, tx: TxId, now: int)
    requires Inv(st) && tx in st.txs && st.txs[tx] == Prepared && tx in st.locks && st.locks[tx].expires <= now
    ensures Commit(st, tx, now) == (st.(txs := st.txs[tx := Aborted], locks := st.locks - {tx}), CommitExpired)
  {
    FiledParses(st.locks[tx].rows);
    assert Readable(st.locks[tx].rows);
    CommitOutcomes(st, tx, now);
    FailedCommitAborts(st, tx, now);
  }

  /** A payment that is committed too late, whatever happens in between, is aborted and moves
      nothing. */
  lemma LateCommitAborts(st: State, tx: TxId, routes: seq<Route>, eq: string, now: int, ttl: int, steps: seq<(Step, int)>, later: int, payer: Pid, payee: Pid)
    requires Inv(st) && R.Between(routes, payer, payee) && routes != [] && R.Spares(steps, tx)
    requires Prepare(st, tx, routes, eq, now, ttl).1.PrepareDone? && now + ttl <= later
    ensures var mid := Run(Prepare(st, tx, routes, eq, now, ttl).0, steps);
            Commit(mid, tx, later) == (mid.(txs := mid.txs[tx := Aborted], locks := mid.locks - {tx}), CommitExpired)
  {
    hide Inv, Prepare, Commit, R.Between, R.Spares, RowFlows, Run, R.Due, Delta;
    var filed := Prepare(st, tx, routes, eq, now, ttl).0;
    R.PreparedDelta(st, tx, routes, eq, now, ttl, payer, payee, eq, payer);
    RunKeepsInv(filed, steps);
    R.RunKeepsWaiting(filed, steps, tx);
    ExpiredAlwaysAborts(Run(filed, steps), tx, later);
  }

  // ----- prepare -----

  /** There is room for segment `i`: the limit, less what is owed, plus what is owed back, covers
      it beside the live reservations of others and the earlier segments. */
  ghost predicate Room(st: State, tx: TxId, fs: seq<Flow>, now: int, i: nat)
    requires i < |fs|
  {
    var k, back := DebtKey(fs[i].eq, fs[i].from, fs[i].to), DebtKey(fs[i].eq, fs[i].to, fs[i].from);
    Limit(st.lines, k) - Owed(st.debts, k) + Owed(st.debts, back)
      >= fs[i].amount + Reserved(st.locks - {tx}, k, now, {}) + EdgeSum(fs[..i], k)
  }

  ghost predicate Preparable(st: State, tx: TxId)
  {
    tx in st.txs && (st.txs[tx] == New || st.txs[tx] == Prepared) && tx !in st.locks
  }

  ghost predicate Named(st: State, routes: seq<Route>)
  {
    forall r, p :: r in routes && p in r.path ==> p in st.people
  }

  ghost predicate RoomForEach(st: State, tx: TxId, fs: seq<Flow>, now: int)
  {
    forall i :: 0 <= i < |fs| ==> Room(st, tx, fs, now, i)
  }

  lemma RoomIsFits(st: State, tx: TxId, fs: seq<Flow>, now: int)
    ensures Fits(st, tx, fs, now) <==> RoomForEach(st, tx, fs, now)
  {
    hide Reserved;
    forall i | 0 <= i < |fs| ensures FitsAt(st, tx, fs, now, i) <==> Room(st, tx, fs, now, i) {
      ReservedDrop(st.locks, tx, fs[i].Key(), now);
    }
  }

  /** Which outcome a preparation reports, on any tables; nothing changes unless it is done. */
  lemma PrepareOutcomes(st: State, tx: TxId, routes: seq<Route>, eq: string, now: int, ttl: int)
    ensures var (after, o) := Prepare(st, tx, routes, eq, now, ttl);
            var good := forall r :: r in routes ==> r.amount > 0 && |r.path| >= 2;
            && (o == PrepareNotFound <==> tx !in st.txs)
            && (o == PrepareRepeated <==> tx in st.txs && (st.txs[tx] == Committed || (st.txs[tx] == Prepared && tx in st.locks)))
            && (o == PrepareConflict <==> tx in st.txs && (st.txs[tx] == Aborted || st.txs[tx] == Rejected || (st.txs[tx] == New && tx in st.locks)))
            && (o == PrepareBadRoute <==> Preparable(st, tx) && !good)
            && (o == PrepareUnknownParticipant <==> Preparable(st, tx) && good && !Named(st, routes))
            && (o == PrepareNoCapacity <==> Preparable(st, tx) && good && Named(st, routes) && !RoomForEach(st, tx, Segments(routes, eq), now))
            && (o == PrepareDone <==> Preparable(st, tx) && good && Named(st, routes) && RoomForEach(st, tx, Segments(routes, eq), now))
            && (o != PrepareDone ==> after == st)
  {
    hide RoomForEach, Fits, Segments;
    RoomIsFits(st, tx, Segments(routes, eq), now);
    assert Named(st, routes) <==> !(exists r :: r in routes && exists p :: p in r.path && p !in st.people);
  }

  lemma DonePrepareFiles(st: State, tx: TxId, routes: seq<Route>, eq: string, now: int, ttl: int)
    requires Prepare(st, tx, routes, eq, now, ttl).1 == PrepareDone
    ensures var rows := FileFlows([], Segments(routes, eq));
            && tx !in st.locks && GoodRoutes(routes) && Fits(st, tx, Segments(routes, eq), now)
            && Prepare(st, tx, routes, eq, now, ttl).0 == st.(txs := st.txs[tx := Prepared], locks := if rows == [] then st.locks else st.locks[tx := Lock(rows, now + ttl)])
  {
    hide Fits, FileFlows, Segments;
  }

  /** A preparation reserves each route's amount on each of its segments until it expires, and
      does nothing else. */
  lemma PreparationReserves(st: State, tx: TxId, routes: seq<Route>, eq: string, now: int, ttl: int, k: DebtKey, u: int)
    requires Inv(st) && Prepare(st, tx, routes, eq, now, ttl).1 == PrepareDone
    ensures var after := Prepare(st, tx, routes, eq, now, ttl).0;
            && after == st.(txs := st.txs[tx := Prepared], locks := after.locks)
            && after.locks - {tx} == st.locks
            && Reserved(after.locks, k, u, {}) == Reserved(st.locks, k, u, {}) + if u < now + ttl then EdgeSum(Segments(routes, eq), k) else 0
  {
    var fs := Segments(routes, eq);
    var after := Prepare(st, tx, routes, eq, now, ttl).0;
    hide Inv, Prepare, Fits, Reserved, FileFlows, RowFlows, Segments, GoodRoutes, EdgeSum;
    DonePrepareFiles(st, tx, routes, eq, now, ttl);
    PreparedRows(st, tx, routes, eq, now);
    FileFlowsKeeps(fs);
    EdgeSumUntouched([], k);
    if FileFlows([], fs) == [] {
      assert fs == [];
      assert after.locks == st.locks && after.locks - {tx} == st.locks;
    } else {
      assert after.locks - {tx} == st.locks;
      EdgeSumPermutes(fs, RowFlows(FileFlows([], fs)), k);
      LockReserves(after.locks, tx, k, u);
    }
  }

  /** A path that uses a sender twice is refused by the lock table, whatever its capacity, and
      nothing changes. */
  lemma RepeatedSenderIsRefused(st: State, tx: TxId, path: seq<Pid>, amount: int, eq: string, now: int, ttl: int, i: nat, j: nat)
    requires i < j && j + 1 < |path| && path[i] == path[j]
    ensures PrepareOne(st, tx, path, amount, eq, now, ttl).0 == st && PrepareOne(st, tx, path, amount, eq, now, ttl).1 != PrepareDone
  {
    PathFlowsIndex(path, amount, eq, i);
    PathFlowsIndex(path, amount, eq, j);
    hide PathFlows, FitsAlone;
    assert !SendersDiffer(PathFlows(path, amount, eq));
  }

  // ----- transactions and lines -----

  lemma BeginOutcome(st: State, tx: TxId, now: int)
    ensures Next(st, Begin(tx), now) == if tx in st.txs then st else st.(txs := st.txs[tx := New])
  {
  }

  /** Opening a line needs two different participants, no active line between them yet, and a
      limit that is not negative. */
  lemma OpenOutcome(st: State, k: DebtKey, limit: int, now: int)
    ensures var after := Next(st, OpenLine(k, limit), now);
            && after == st.(lines := after.lines)
            && (forall j :: j != k ==> (j in after.lines <==> j in st.lines) && Limit(after.lines, j) == Limit(st.lines, j))
            && (k !in st.lines && k.debtor != k.creditor && limit >= 0 ==> k in after.lines && after.lines[k] == limit)
            && (k in st.lines || k.debtor == k.creditor || limit < 0 ==> after == st)
  {
  }

  /** An accepted limit change sets this line's limit and no other; it is accepted exactly when
      the line is active and the limit covers what is owed on it. */
  lemma LimitOutcome(st: State, k: DebtKey, limit: int, now: int)
    requires Inv(st)
    ensures var after := Next(st, SetLimit(k, limit), now);
            && after == st.(lines := after.lines)
            && (forall j :: (j in after.lines <==> j in st.lines) && (j != k ==> Limit(after.lines, j) == Limit(st.lines, j)))
            && (k in st.lines && limit >= Owed(st.debts, k) ==> after.lines[k] == limit)
            && (k !in st.lines || limit < Owed(st.debts, k) ==> after == st)
  {
    OwedWithinLimit(st, k);
  }

  /** An accepted closure removes this line and no other; it is accepted exactly when neither
      owes the other anything. */
  lemma CloseOutcome(st: State, k: DebtKey, now: int)
    requires Inv(st)
    ensures var after := Next(st, CloseLine(k), now);
            && after == st.(lines := after.lines)
            && (forall j :: j != k ==> (j in after.lines <==> j in st.lines) && Limit(after.lines, j) == Limit(st.lines, j))
            && (k !in st.debts && DebtKey(k.eq, k.creditor, k.debtor) !in st.debts ==> k !in after.lines)
            && (k in st.debts || DebtKey(k.eq, k.creditor, k.debtor) in st.debts ==> after == st)
  {
    assert k.Reverse() == DebtKey(k.eq, k.creditor, k.debtor);
    OwedWithinLimit(st, k);
    assert k.Reverse() in st.debts ==> st.debts[k.Reverse()] > 0;
  }

  // ----- clearing -----

  /** Some live lock holds a flow between the two participants of the row, either way round. */
  ghost predicate LockedPair(st: State, k: DebtKey, now: int)
  {
    exists t, f :: t in st.locks && now < st.locks[t].expires && f in RowFlows(st.locks[t].rows) && f.eq == k.eq
                   && ((f.from == k.debtor && f.to == k.creditor) || (f.from == k.creditor && f.to == k.debtor))
  }

  lemma LockedPairIsLocked(st: State, k: DebtKey, now: int)
    ensures LockedPair(st, k, now) <==> PairLocked(st.locks, k, now)
  {
    hide RowFlows;
    if LockedPair(st, k, now) {
      var t, f :| t in st.locks && now < st.locks[t].expires && f in RowFlows(st.locks[t].rows) && f.eq == k.eq
                  && ((f.from == k.debtor && f.to == k.creditor) || (f.from == k.creditor && f.to == k.debtor));
      var fs := RowFlows(st.locks[t].rows);
      var i :| 0 <= i < |fs| && fs[i] == f;
      assert Touches(fs, k);
    }
    if PairLocked(st.locks, k, now) {
      var t :| t in st.locks && st.locks[t].expires > now && Touches(RowFlows(st.locks[t].rows), k);
      var fs := RowFlows(st.locks[t].rows);
      var i :| 0 <= i < |fs| && (fs[i].Key() == k || fs[i].Key() == k.Reverse());
      assert fs[i] in fs;
    }
  }

  /** What a clearing must not touch. */
  ghost predicate OffLimits(st: State, k: DebtKey, declined: set<DebtKey>, now: int)
  {
    k in declined || k !in st.lines || LockedPair(st, k, now)
  }

  lemma OffLimitsIsProtected(st: State, k: DebtKey, declined: set<DebtKey>, now: int)
    ensures OffLimits(st, k, declined, now) <==> k in Protected(st, declined, now)
  {
    hide PairLocked, LockedPair;
    LockedPairIsLocked(st, k, now);
  }

  /** A clearing changes debts only, and never a row whose line declines automatic clearing, has
      no active line, or joins a pair with a live lock: in the equivalent of its first row
      always, and in all of them if the rows share one. */
  lemma ClearingSpares(st: State, rows: seq<DebtKey>, declined: set<DebtKey>, interlocked: bool, now: int, k: DebtKey)
    requires Inv(st) && OffLimits(st, k, declined, now)
    requires rows != [] && ((forall r :: r in rows ==> r.eq == rows[0].eq) || k.eq == rows[0].eq)
    ensures var after := Next(st, Clear(rows, declined, interlocked), now);
            after == st.(debts := after.debts) && Owed(after.debts, k) == Owed(st.debts, k)
  {
    hide Clearing.Execute, Clearing.Takes, Protected, OffLimits;
    OffLimitsIsProtected(st, k, declined, now);
    Clearing.ClearingShrinks(st.debts, rows, Protected(st, declined, now), interlocked);
  }

  /** Conversely a simple cycle of debts on rows that are not off limits is cleared: each of its
      rows goes down by the least of them, and no other row changes. */
  lemma CycleStepClears(st: State, eq: string, nodes: seq<Pid>, declined: set<DebtKey>, interlocked: bool, now: int, k: DebtKey)
    requires Inv(st) && |nodes| > 1 && Distinct(nodes)
    requires forall r :: r in Clearing.CycleRows(eq, nodes) ==> r in st.debts && !OffLimits(st, r, declined, now)
    ensures var rows := Clearing.CycleRows(eq, nodes);
            Owed(Next(st, Clear(rows, declined, interlocked), now).debts, k) == Owed(st.debts, k) - if k in rows then Clearing.MinOwed(st.debts, rows) else 0
  {
    hide Clearing.CycleRows, Clearing.Execute, Clearing.MinOwed, OffLimits, Protected, PairLocked, Owed;
    var rows, blocked := Clearing.CycleRows(eq, nodes), Protected(st, declined, now);
    assert WellFormed(st.debts);
    forall r | r in rows ensures r !in blocked { OffLimitsIsProtected(st, r, declined, now); }
    CycleExecutes(st.debts, eq, nodes, blocked, interlocked, k);
    assert Next(st, Clear(rows, declined, interlocked), now).debts == Clearing.Execute(st.debts, rows, blocked, interlocked).0;
  }

  lemma CycleExecutes(d: Debts, eq: string, nodes: seq<Pid>, blocked: iset<DebtKey>, interlocked: bool, k: DebtKey)
    requires WellFormed(d) && |nodes| > 1 && Distinct(nodes) && forall r :: r in Clearing.CycleRows(eq, nodes) ==> r in d && r !in blocked
    ensures var rows := Clearing.CycleRows(eq, nodes);
            Owed(Clearing.Execute(d, rows, blocked, interlocked).0, k) == Owed(d, k) - if k in rows then Clearing.MinOwed(d, rows) else 0
  {
    hide *;
    var rows := Clearing.CycleRows(eq, nodes);
    Clearing.SimpleCycleClears(d, eq, nodes, blocked, interlocked);
    Clearing.ClearedIffTaken(d, rows, blocked, interlocked);
    Clearing.CycleRowsDistinct(eq, nodes);
    Clearing.LowerOwed(d, rows, Clearing.MinOwed(d, rows), k);
  }
}
