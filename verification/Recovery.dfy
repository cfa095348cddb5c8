/** The recovery sweeps: expired prepare locks, stale payments, and one recovery pass. */
module Recovery {
  import opened Lists
  import E = Engine

  type TxId = string
  type LockId = string

  /** How a delegated abort may end: one of the engine's outcomes, an outcome nobody knows, or
      an exception. */
  datatype Attempt = Returned(outcome: E.AbortOutcome) | Strange | Raised

  predicate Failed(a: Attempt)
  {
    !a.Returned?
  }

  /** Newly aborted and terminal-seen increments; an unknown outcome is an error. */
  function Classify(a: Attempt): (r: (nat, nat))
    requires a.Returned?
    ensures r.0 + r.1 == 1
  {
    if a.outcome == E.Success then (1, 0) else (0, 1)
  }

  /** How many of the transactions satisfy `p`. */
  function Count(txs: seq<TxId>, p: TxId -> bool): (n: nat)
    ensures n <= |txs|
  {
    if txs == [] then 0 else Count(txs[..|txs| - 1], p) + (if p(txs[|txs| - 1]) then 1 else 0)
  }

  function Succeeded(attempt: TxId -> Attempt): TxId -> bool
  {
    t => attempt(t) == Returned(E.Success)
  }

  function Terminal(attempt: TxId -> Attempt): TxId -> bool
  {
    t => attempt(t).Returned? && attempt(t).outcome != E.Success
  }

  function Failing(attempt: TxId -> Attempt): TxId -> bool
  {
    t => Failed(attempt(t))
  }

  /** Every attempt falls in exactly one class. */
  lemma {:induction false} ClassesPartition(txs: seq<TxId>, attempt: TxId -> Attempt)
    ensures Count(txs, Succeeded(attempt)) + Count(txs, Terminal(attempt)) + Count(txs, Failing(attempt)) == |txs|
    decreases |txs|
  {
    if txs != [] {
      ClassesPartition(txs[..|txs| - 1], attempt);
    }
  }

  // ----- grouping expired lock rows by transaction -----

  datatype LockRow = LockRow(id: LockId, tx: TxId)

  /** Rows belonging to one of the transactions. */
  function RowsIn(rows: seq<LockRow>, txs: set<TxId>): (n: nat)
  {
    if rows == [] then 0 else RowsIn(rows[..|rows| - 1], txs) + (if rows[|rows| - 1].tx in txs then 1 else 0)
  }

  lemma {:induction false} RowsInStep(rows: seq<LockRow>, txs: set<TxId>, t: TxId)
    requires t !in txs
    ensures RowsIn(rows, txs + {t}) == RowsIn(rows, txs) + RowsIn(rows, {t})
    decreases |rows|
  {
    if rows != [] {
      RowsInStep(rows[..|rows| - 1], txs, t);
    }
  }

  lemma {:induction false} RowsInNone(rows: seq<LockRow>)
    ensures RowsIn(rows, {}) == 0
    decreases |rows|
  {
    if rows != [] {
      RowsInNone(rows[..|rows| - 1]);
    }
  }

  /** The transactions of the rows, each once, with its lock identifiers. */
  ghost predicate Grouped(rows: seq<LockRow>, order: seq<TxId>, ids: map<TxId, seq<LockId>>)
  {
    && Distinct(order)
    && (forall t :: t in order <==> t in ids)
    && (forall t :: t in ids <==> exists r :: r in rows && r.tx == t)
    && (forall t :: t in ids ==> |ids[t]| == RowsIn(rows, {t}))
  }

  method GroupByTx(rows: seq<LockRow>) returns (order: seq<TxId>, ids: map<TxId, seq<LockId>>)
    ensures Grouped(rows, order, ids)
  {
    order, ids := [], map[];
    for i := 0 to |rows|
      invariant Distinct(order)
      invariant forall t :: t in order <==> t in ids
      invariant forall t :: t in ids <==> exists r :: r in rows[..i] && r.tx == t
      invariant forall t :: (if t in ids then |ids[t]| else 0) == RowsIn(rows[..i], {t})
    {
      var row := rows[i];
      assert rows[..i + 1] == rows[..i] + [row];
      assert rows[..i + 1][..i] == rows[..i];
      ghost var before := ids;
      if row.tx in ids {
        ids := ids[row.tx := ids[row.tx] + [row.id]];
      } else {
        order := order + [row.tx];
        ids := ids[row.tx := [row.id]];
      }
      forall t ensures (if t in ids then |ids[t]| else 0) == RowsIn(rows[..i + 1], {t}) {
        assert RowsIn(rows[..i + 1], {t}) == RowsIn(rows[..i], {t}) + (if row.tx == t then 1 else 0);
        assert (if t in before then |before[t]| else 0) == RowsIn(rows[..i], {t});
      }
      forall t ensures t in ids <==> exists r :: r in rows[..i + 1] && r.tx == t {
        assert row in rows[..i + 1];
        if r :| r in rows[..i] && r.tx == t { assert r in rows[..i + 1]; }
      }
    }
    assert rows[..|rows|] == rows;
  }

  // ----- the sweep over expired locks -----

  datatype ExpiredResult = ExpiredResult(resolved: nat, aborted: nat, terminalSeen: nat, failures: nat)
  {
    predicate Clean() { failures == 0 }
  }

  datatype Sweep<T> = Finished(result: T) | Crashed

  ghost function Resolved(txs: seq<TxId>, attempt: TxId -> Attempt): (r: set<TxId>)
  {
    set t | t in txs && !Failed(attempt(t))
  }

  /** A failing item whose rollback fails too takes the sweep down with it. */
  ghost predicate Fatal(attempt: TxId -> Attempt, broken: TxId -> bool, t: TxId)
  {
    Failed(attempt(t)) && broken(t)
  }

  /** The attempts a sweep makes: all of them, or up to and including the first fatal one. */
  ghost predicate Attempts(order: seq<TxId>, attempt: TxId -> Attempt, broken: TxId -> bool, attempted: seq<TxId>, crashed: bool)
  {
    && attempted <= order
    && (forall i :: 0 <= i < |attempted| - (if crashed then 1 else 0) ==> attempt(attempted[i]).Returned? || !broken(attempted[i]))
    && (crashed ==> attempted != [] && !attempt(attempted[|attempted| - 1]).Returned? && broken(attempted[|attempted| - 1]))
    && (!crashed ==> attempted == order)
  }

  /** The transactions of the rows that satisfy `p`. */
  ghost function TxsWith(rows: seq<LockRow>, p: TxId -> bool): set<TxId>
  {
    set x | x in rows && p(x.tx) :: x.tx
  }

  /** The books of a finished sweep: every distinct transaction is in exactly one of the three
      counts, and the resolved locks are the rows of those that did not fail. */
  ghost predicate Accounts(rows: seq<LockRow>, attempt: TxId -> Attempt, r: ExpiredResult)
  {
    && r.aborted == |set x | x in rows && attempt(x.tx) == Returned(E.Success) :: x.tx|
    && r.terminalSeen == |set x | x in rows && (attempt(x.tx) == Returned(E.AlreadyCommitted) || attempt(x.tx) == Returned(E.AlreadyAborted)) :: x.tx|
    && r.failures == |set x | x in rows && (attempt(x.tx) == Strange || attempt(x.tx) == Raised) :: x.tx|
    && r.aborted + r.terminalSeen + r.failures == |set x | x in rows :: x.tx|
    && r.resolved == RowsIn(rows, set x | x in rows && attempt(x.tx).Returned? :: x.tx)
  }

  ghost function Those(txs: seq<TxId>, p: TxId -> bool): set<TxId>
  {
    set t | t in txs && p(t)
  }

  lemma ThoseStep(init: seq<TxId>, last: TxId, p: TxId -> bool)
    requires last !in init
    ensures Those(init + [last], p) == (if p(last) then Those(init, p) + {last} else Those(init, p)) && last !in Those(init, p)
  {
  }

  lemma {:induction false} CountIsSize(txs: seq<TxId>, p: TxId -> bool)
    requires Distinct(txs)
    ensures Count(txs, p) == |Those(txs, p)|
    decreases |txs|
  {
    if txs != [] {
      var init, last := txs[..|txs| - 1], txs[|txs| - 1];
      CountIsSize(init, p);
      ThoseStep(init, last, p);
      assert txs == init + [last];
    }
  }

  /** Counting along the order is counting the distinct transactions of the rows. */
  lemma CountIsTxs(rows: seq<LockRow>, order: seq<TxId>, p: TxId -> bool)
    requires Distinct(order) && forall t :: t in order <==> exists x :: x in rows && x.tx == t
    ensures Count(order, p) == |TxsWith(rows, p)|
  {
    CountIsSize(order, p);
    assert Those(order, p) == TxsWith(rows, p);
  }

  lemma Settle(rows: seq<LockRow>, order: seq<TxId>, attempt: TxId -> Attempt)
    requires Distinct(order) && forall t :: t in order <==> exists x :: x in rows && x.tx == t
    ensures Resolved(order, attempt) == set x | x in rows && !Failed(attempt(x.tx)) :: x.tx
    ensures Accounts(rows, attempt, ExpiredResult(RowsIn(rows, Resolved(order, attempt)), Count(order, Succeeded(attempt)),
                                                  Count(order, Terminal(attempt)), Count(order, Failing(attempt))))
  {
    CountIsTxs(rows, order, Succeeded(attempt));
    CountIsTxs(rows, order, Terminal(attempt));
    CountIsTxs(rows, order, Failing(attempt));
    ClassesPartition(order, attempt);
    CountIsTxs(rows, order, t => true);
    AllCounted(order);
    assert TxsWith(rows, t => true) == set x | x in rows :: x.tx;
    assert TxsWith(rows, Succeeded(attempt)) == set x | x in rows && attempt(x.tx) == Returned(E.Success) :: x.tx;
    assert TxsWith(rows, Terminal(attempt)) == set x | x in rows && (attempt(x.tx) == Returned(E.AlreadyCommitted) || attempt(x.tx) == Returned(E.AlreadyAborted)) :: x.tx;
    assert TxsWith(rows, Failing(attempt)) == set x | x in rows && (attempt(x.tx) == Strange || attempt(x.tx) == Raised) :: x.tx;
    assert (set x | x in rows && attempt(x.tx).Returned? :: x.tx) == set x | x in rows && !Failed(attempt(x.tx)) :: x.tx;
    assert Resolved(order, attempt) == set x | x in rows && !Failed(attempt(x.tx)) :: x.tx;
  }

  lemma FailuresCounted(rows: seq<LockRow>, order: seq<TxId>, attempt: TxId -> Attempt, r: ExpiredResult)
    requires Distinct(order) && forall t :: t in order <==> exists x :: x in rows && x.tx == t
    requires Accounts(rows, attempt, r)
    ensures r.failures == Count(order, Failing(attempt))
  {
    CountIsTxs(rows, order, Failing(attempt));
    assert TxsWith(rows, Failing(attempt)) == set x | x in rows && (attempt(x.tx) == Strange || attempt(x.tx) == Raised) :: x.tx;
  }

  lemma {:induction false} AllCounted(txs: seq<TxId>)
    ensures Count(txs, t => true) == |txs|
    decreases |txs|
  {
    if txs != [] { AllCounted(txs[..|txs| - 1]); }
  }

  /** Hands every expired transaction to the engine once, whatever happens to the others.
      The engine removes all locks of a transaction whenever it returns normally. */
  method CleanupExpiredLocks(rows: seq<LockRow>, attempt: TxId -> Attempt, broken: TxId -> bool, locks0: map<TxId, seq<LockId>>)
    returns (r: Sweep<ExpiredResult>, locks: map<TxId, seq<LockId>>, ghost order: seq<TxId>, ghost attempted: seq<TxId>)
    ensures Distinct(order) && forall t :: t in order <==> exists x :: x in rows && x.tx == t
    ensures Attempts(order, attempt, broken, attempted, r.Crashed?)
    ensures r.Finished? ==> Accounts(rows, attempt, r.result)
    ensures r.Finished? ==> locks == locks0 - (set x | x in rows && attempt(x.tx).Returned? :: x.tx)
    ensures locks == locks0 - set t | t in attempted && attempt(t).Returned?
  {
    var txs, ids := GroupByTx(rows);
    order := txs;
    locks := locks0;
    var resolved, aborted, terminalSeen, failures := 0, 0, 0, 0;
    NothingTaken(txs, attempt, rows);
    hide Count, Resolved, RowsIn, Distinct;
    for i := 0 to |txs|
      invariant aborted == Count(txs[..i], Succeeded(attempt)) && terminalSeen == Count(txs[..i], Terminal(attempt))
      invariant failures == Count(txs[..i], Failing(attempt))
      invariant resolved == RowsIn(rows, Resolved(txs[..i], attempt))
      invariant forall j :: 0 <= j < i ==> !Fatal(attempt, broken, txs[j])
      invariant locks == locks0 - Resolved(txs[..i], attempt)
    {
      var t := txs[i];
      TakeOne(txs, i, attempt);
      var a := attempt(t);
      if Failed(a) {
        failures := failures + 1;
        if broken(t) {
          attempted := txs[..i + 1];
          ResolvedIs(attempted, attempt);
          return Crashed, locks, order, attempted;
        }
      } else {
        var (newly, seen) := Classify(a);
        locks := locks - {t};
        aborted := aborted + newly;
        terminalSeen := terminalSeen + seen;
        RowsInStep(rows, Resolved(txs[..i], attempt), t);
        resolved := resolved + |ids[t]|;
      }
    }
    assert txs[..|txs|] == txs;
    attempted := txs;
    ResolvedIs(attempted, attempt);
    Settle(rows, txs, attempt);
    r := Finished(ExpiredResult(resolved, aborted, terminalSeen, failures));
  }

  lemma NothingTaken(txs: seq<TxId>, attempt: TxId -> Attempt, rows: seq<LockRow>)
    ensures Resolved(txs[..0], attempt) == {} && RowsIn(rows, Resolved(txs[..0], attempt)) == 0
    ensures forall p: TxId -> bool :: Count(txs[..0], p) == 0
  {
    RowsInNone(rows);
    assert Resolved(txs[..0], attempt) == {};
  }

  lemma TakeOne(txs: seq<TxId>, i: nat, attempt: TxId -> Attempt)
    requires i < |txs| && Distinct(txs)
    ensures txs[..i + 1][..i] == txs[..i] && txs[i] !in Resolved(txs[..i], attempt)
    ensures Resolved(txs[..i + 1], attempt) == if Failed(attempt(txs[i])) then Resolved(txs[..i], attempt) else Resolved(txs[..i], attempt) + {txs[i]}
    ensures Count(txs[..i + 1], Succeeded(attempt)) == Count(txs[..i], Succeeded(attempt)) + (if Succeeded(attempt)(txs[i]) then 1 else 0)
    ensures Count(txs[..i + 1], Terminal(attempt)) == Count(txs[..i], Terminal(attempt)) + (if Terminal(attempt)(txs[i]) then 1 else 0)
    ensures Count(txs[..i + 1], Failing(attempt)) == Count(txs[..i], Failing(attempt)) + (if Failing(attempt)(txs[i]) then 1 else 0)
  {
    assert txs[..i + 1][..i] == txs[..i];
    assert txs[..i + 1] == txs[..i] + [txs[i]];
  }

  // ----- the sweep over stale payments -----

  lemma ResolvedIs(txs: seq<TxId>, attempt: TxId -> Attempt)
    ensures Resolved(txs, attempt) == set t | t in txs && attempt(t).Returned?
  {
  }

  lemma StaleCounts(txs: seq<TxId>, attempt: TxId -> Attempt)
    requires Distinct(txs)
    ensures Count(txs, Succeeded(attempt)) == |set t | t in txs && attempt(t) == Returned(E.Success)|
    ensures Count(txs, Terminal(attempt)) == |set t | t in txs && (attempt(t) == Returned(E.AlreadyCommitted) || attempt(t) == Returned(E.AlreadyAborted))|
    ensures Count(txs, Failing(attempt)) == |set t | t in txs && (attempt(t) == Strange || attempt(t) == Raised)|
  {
    CountIsSize(txs, Succeeded(attempt));
    CountIsSize(txs, Terminal(attempt));
    CountIsSize(txs, Failing(attempt));
    assert Those(txs, Succeeded(attempt)) == set t | t in txs && attempt(t) == Returned(E.Success);
    assert Those(txs, Terminal(attempt)) == set t | t in txs && (attempt(t) == Returned(E.AlreadyCommitted) || attempt(t) == Returned(E.AlreadyAborted));
    assert Those(txs, Failing(attempt)) == set t | t in txs && (attempt(t) == Strange || attempt(t) == Raised);
  }

  datatype StaleResult = StaleResult(aborted: nat, terminalSeen: nat, failures: nat)
  {
    predicate Clean() { failures == 0 }
  }

  method AbortStalePayments(txs: seq<TxId>, attempt: TxId -> Attempt, broken: TxId -> bool, locks0: map<TxId, seq<LockId>>)
    returns (r: Sweep<StaleResult>, locks: map<TxId, seq<LockId>>, ghost attempted: seq<TxId>)
    requires Distinct(txs)
    ensures Attempts(txs, attempt, broken, attempted, r.Crashed?)
    ensures r.Finished? ==>
              && r.result.aborted == |set t | t in txs && attempt(t) == Returned(E.Success)|
              && r.result.terminalSeen == |set t | t in txs && (attempt(t) == Returned(E.AlreadyCommitted) || attempt(t) == Returned(E.AlreadyAborted))|
              && r.result.failures == |set t | t in txs && (attempt(t) == Strange || attempt(t) == Raised)|
    ensures r.Finished? ==> r.result.aborted + r.result.terminalSeen + r.result.failures == |txs|
    ensures locks == locks0 - set t | t in attempted && attempt(t).Returned?
  {
    locks := locks0;
    var aborted, terminalSeen, failures := 0, 0, 0;
    NothingTaken(txs, attempt, []);
    hide Count, Resolved, RowsIn, Distinct;
    for i := 0 to |txs|
      invariant aborted == Count(txs[..i], Succeeded(attempt)) && terminalSeen == Count(txs[..i], Terminal(attempt))
      invariant failures == Count(txs[..i], Failing(attempt))
      invariant forall j :: 0 <= j < i ==> !Fatal(attempt, broken, txs[j])
      invariant locks == locks0 - Resolved(txs[..i], attempt)
    {
      TakeOne(txs, i, attempt);
      var a := attempt(txs[i]);
      if Failed(a) {
        failures := failures + 1;
        if broken(txs[i]) {
          attempted := txs[..i + 1];
          ResolvedIs(attempted, attempt);
          return Crashed, locks, attempted;
        }
      } else {
        var (newly, seen) := Classify(a);
        locks := locks - {txs[i]};
        aborted := aborted + newly;
        terminalSeen := terminalSeen + seen;
      }
    }
    assert txs[..|txs|] == txs;
    attempted := txs;
    ResolvedIs(attempted, attempt);
    ClassesPartition(txs, attempt);
    StaleCounts(txs, attempt);
    r := Finished(StaleResult(aborted, terminalSeen, failures));
  }

  // ----- one pass -----

  lemma {:induction false} NoneFailing(txs: seq<TxId>, attempt: TxId -> Attempt)
    ensures Count(txs, Failing(attempt)) == 0 <==> forall t :: t in txs ==> !Failed(attempt(t))
    decreases |txs|
  {
    if txs != [] {
      var init, last := txs[..|txs| - 1], txs[|txs| - 1];
      assert txs == init + [last];
      NoneFailing(init, attempt);
    }
  }

  /** Runs both sweeps and reports success exactly when both queries worked and no item of
      either failed. After a crash of the first sweep the second still runs, unless the
      session cannot be rolled back. A transaction met by both sweeps is attempted by each, and
      the two attempts may end differently. */
  method RunRecoveryOnce(queryWorks: bool, rows: seq<LockRow>, sessionRecovers: bool, staleQueryWorks: bool, stale: seq<TxId>,
                         first: TxId -> Attempt, second: TxId -> Attempt, broken: TxId -> bool, brokenLater: TxId -> bool,
                         locks0: map<TxId, seq<LockId>>)
    returns (ok: bool, ghost staleSwept: bool, locks: map<TxId, seq<LockId>>)
    requires Distinct(stale)
    ensures ok <==> queryWorks && staleQueryWorks
                    && (forall x :: x in rows ==> first(x.tx).Returned?) && (forall t :: t in stale ==> second(t).Returned?)
    ensures staleSwept <==> sessionRecovers || (queryWorks && forall x :: x in rows ==> first(x.tx).Returned? || !broken(x.tx))
    ensures ok ==> locks == locks0 - (set x | x in rows :: x.tx) - (set t | t in stale)
  {
    hide Accounts;
    ok, staleSwept, locks := true, false, locks0;
    var crashed := !queryWorks;
    if queryWorks {
      var r;
      ghost var order, attempted;
      r, locks, order, attempted := CleanupExpiredLocks(rows, first, broken, locks0);
      crashed := r.Crashed?;
      OrderCovers(rows, order, first, broken, attempted, crashed);
      NoneFailing(order, first);
      if r.Finished? { FailuresCounted(rows, order, first, r.result); }
      ok := r.Finished? && r.result.Clean();
    }
    if crashed {
      ok := false;
      if !sessionRecovers { return false, false, locks; }
    }
    staleSwept := true;
    if !staleQueryWorks { return false, true, locks; }
    var s;
    ghost var staleAttempted;
    s, locks, staleAttempted := AbortStalePayments(stale, second, brokenLater, locks);
    NoneFailing(stale, second);
    ok := ok && s.Finished? && s.result.Clean();
    if s.Finished? { StaleCounts(stale, second); }
    assert ok ==> (set t | t in staleAttempted && second(t).Returned?) == set t | t in stale;
  }

  lemma OrderCovers(rows: seq<LockRow>, order: seq<TxId>, attempt: TxId -> Attempt, broken: TxId -> bool, attempted: seq<TxId>, crashed: bool)
    requires forall t :: t in order <==> exists x :: x in rows && x.tx == t
    requires Attempts(order, attempt, broken, attempted, crashed)
    ensures (forall t :: t in order ==> !Failed(attempt(t))) <==> (forall x :: x in rows ==> !Failed(attempt(x.tx)))
    ensures crashed <==> exists x :: x in rows && Fatal(attempt, broken, x.tx)
    ensures !crashed && (forall t :: t in order ==> !Failed(attempt(t))) ==> Resolved(attempted, attempt) == set x | x in rows :: x.tx
  {
    forall x | x in rows ensures x.tx in order {
    }
    if crashed {
      var t := attempted[|attempted| - 1];
      assert t in attempted && t in order;
    } else {
      forall x | x in rows ensures !Fatal(attempt, broken, x.tx) {
        var i :| 0 <= i < |order| && order[i] == x.tx;
        assert attempted[i] == x.tx;
      }
    }
  }

  /** The engine's abort meets the contract the sweeps rely on: three outcomes, all locks of
      the transaction gone, nobody else's touched. */
  lemma EngineAbortMeetsContract(st: E.State, tx: TxId)
    ensures tx !in E.Abort(st, tx).0.locks
    ensures forall t :: t != tx ==> (t in E.Abort(st, tx).0.locks <==> t in st.locks)
    ensures forall t :: t in E.Abort(st, tx).0.locks ==> E.Abort(st, tx).0.locks[t] == st.locks[t]
    ensures E.Abort(st, tx).0.debts == st.debts
    ensures tx in st.txs && E.Abort(st, tx).1.Success? ==> E.Abort(st, tx).0.txs == st.txs[tx := E.Aborted]
    ensures !E.Abort(st, tx).1.Success? ==> E.Abort(st, tx).0.txs == st.txs
    ensures E.Abort(E.Abort(st, tx).0, tx).0 == E.Abort(st, tx).0
  {
    assert st.locks - {tx} - {tx} == st.locks - {tx};
  }

  // ----- a sweep on the engine's own tables -----

  /** The engine's aborts one after the other. */
  ghost function AbortAll(st: E.State, txs: seq<TxId>): E.State
  {
    if txs == [] then st else E.Abort(AbortAll(st, txs[..|txs| - 1]), txs[|txs| - 1]).0
  }

  /** Exactly the swept transactions' locks are released, known ones end committed if they were
      and aborted otherwise, and everything else stays. */
  ghost predicate Swept(st: E.State, after: E.State, txs: seq<TxId>)
  {
    && after.debts == st.debts && after.lines == st.lines
    && after.locks == st.locks - Elems(txs)
    && after.txs.Keys == st.txs.Keys
    && (forall t :: t in st.txs ==> after.txs[t] == if t in txs && st.txs[t] != E.Committed then E.Aborted else st.txs[t])
  }

  lemma SweepStep(st: E.State, mid: E.State, txs: seq<TxId>, t: TxId)
    requires Swept(st, mid, txs)
    ensures Swept(st, E.Abort(mid, t).0, txs + [t])
  {
    assert Elems(txs + [t]) == Elems(txs) + {t};
    assert forall x :: x in txs + [t] <==> x in txs || x == t;
  }

  /** A sweep of the engine's own tables in any order does that, and keeps the engine's invariant
      and all live promises. */
  lemma {:induction false} SweepOnEngine(st: E.State, txs: seq<TxId>, now: int)
    requires E.Inv(st) && E.Reservable(st, now)
    ensures E.Inv(AbortAll(st, txs)) && E.Reservable(AbortAll(st, txs), now) && Swept(st, AbortAll(st, txs), txs)
    decreases |txs|
  {
    hide E.Inv, E.Reservable, E.Abort;
    if txs == [] {
      assert st.locks - Elems(txs) == st.locks;
    } else {
      hide Swept;
      var init, last := txs[..|txs| - 1], txs[|txs| - 1];
      SweepOnEngine(st, init, now);
      E.AbortKeepsInv(AbortAll(st, init), last);
      E.AbortKeepsReservable(AbortAll(st, init), last, now);
      SweepStep(st, AbortAll(st, init), init, last);
      assert txs == init + [last];
    }
  }
}
