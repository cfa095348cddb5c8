/** The prepare-lock rows of the two-phase payment engine and the capacity they reserve. */
module PrepareLocks {
  import opened Sums
  import opened Ledger
  import opened Flows

  type TxId = string

  /** One row per sending participant; the table allows one row per transaction and sender. */
  datatype LockRow = LockRow(participant: Pid, flows: seq<Flow>)
  datatype Lock = Lock(rows: seq<LockRow>, expires: int)
  type Locks = map<TxId, Lock>

  function RowFlows(rows: seq<LockRow>): seq<Flow>
  {
    if rows == [] then [] else rows[0].flows + RowFlows(rows[1..])
  }

  /** File a flow under its sender's row, opening one at the end when there is none. */
  function FileFlow(rows: seq<LockRow>, f: Flow): seq<LockRow>
  {
    if rows == [] then [LockRow(f.from, [f])]
    else if rows[0].participant == f.from then [LockRow(f.from, rows[0].flows + [f])] + rows[1..]
    else [rows[0]] + FileFlow(rows[1..], f)
  }

  function FileFlows(rows: seq<LockRow>, fs: seq<Flow>): seq<LockRow>
  {
    if fs == [] then rows else FileFlow(FileFlows(rows, fs[..|fs| - 1]), fs[|fs| - 1])
  }

  /** One row per flow, as the preparation of a single path writes them. */
  function RowEach(fs: seq<Flow>): (rows: seq<LockRow>)
    ensures |rows| == |fs| && forall i :: 0 <= i < |fs| ==> rows[i] == LockRow(fs[i].from, [fs[i]])
  {
    if fs == [] then [] else RowEach(fs[..|fs| - 1]) + [LockRow(fs[|fs| - 1].from, [fs[|fs| - 1]])]
  }

  /** No sender sends twice. */
  ghost predicate SendersDiffer(fs: seq<Flow>)
  {
    forall i, j :: 0 <= i < j < |fs| ==> fs[i].from != fs[j].from
  }

  lemma {:induction false} FileNewSender(rows: seq<LockRow>, f: Flow)
    requires forall r :: r in rows ==> r.participant != f.from
    ensures FileFlow(rows, f) == rows + [LockRow(f.from, [f])]
    decreases |rows|
  {
    if rows != [] {
      assert rows[0] in rows;
      FileNewSender(rows[1..], f);
    }
  }

  /** For different senders filing by sender and one row per flow are the same. */
  lemma {:induction false} RowEachIsFiling(fs: seq<Flow>)
    requires SendersDiffer(fs)
    ensures FileFlows([], fs) == RowEach(fs)
    decreases |fs|
  {
    if fs != [] {
      var init, last := fs[..|fs| - 1], fs[|fs| - 1];
      RowEachIsFiling(init);
      forall r | r in RowEach(init) ensures r.participant != last.from {
        var i :| 0 <= i < |init| && RowEach(init)[i] == r;
        assert fs[i].from != fs[|fs| - 1].from;
      }
      FileNewSender(RowEach(init), last);
    }
  }

  /** Every flow sits under the row of its sender, and no sender has two rows. */
  ghost predicate Filed(rows: seq<LockRow>)
  {
    && (forall r :: r in rows ==> r.flows != [] && AllProper(r.flows) && forall f :: f in r.flows ==> f.from == r.participant)
    && (forall i, j :: 0 <= i < j < |rows| ==> rows[i].participant != rows[j].participant)
  }

  /** What the rows of `k`'s debtor reserve along `k`: the engine looks flows up by sender. */
  function RowsSum(rows: seq<LockRow>, k: DebtKey): int
  {
    if rows == [] then 0
    else (if rows[0].participant == k.debtor then EdgeSum(rows[0].flows, k) else 0) + RowsSum(rows[1..], k)
  }

  /** Looking up by sender finds every flow along the edge. */
  lemma {:induction false} LookupBySenderIsComplete(rows: seq<LockRow>, k: DebtKey)
    requires Filed(rows)
    ensures RowsSum(rows, k) == EdgeSum(RowFlows(rows), k)
    decreases |rows|
  {
    if rows != [] {
      var first := rows[0];
      assert first in rows;
      FiledTail(rows);
      LookupBySenderIsComplete(rows[1..], k);
      EdgeSumAppend(first.flows, RowFlows(rows[1..]), k);
      if first.participant != k.debtor {
        assert forall i :: 0 <= i < |first.flows| ==> first.flows[i] in first.flows;
        EdgeSumUntouched(first.flows, k);
      }
    }
  }

  lemma FiledTail(rows: seq<LockRow>)
    requires Filed(rows) && rows != []
    ensures Filed(rows[1..])
  {
    assert forall r :: r in rows[1..] ==> r in rows;
  }

  lemma {:induction false} FiledProper(rows: seq<LockRow>)
    requires Filed(rows)
    ensures AllProper(RowFlows(rows))
    ensures rows != [] ==> RowFlows(rows) != []
    decreases |rows|
  {
    if rows != [] {
      assert rows[0] in rows;
      FiledTail(rows);
      FiledProper(rows[1..]);
      forall f | f in RowFlows(rows) ensures Proper(f) {
        assert f in rows[0].flows || f in RowFlows(rows[1..]);
      }
    }
  }

  lemma FileIntoFirst(rows: seq<LockRow>, f: Flow)
    requires Filed(rows) && Proper(f) && rows != [] && rows[0].participant == f.from
    ensures Filed(FileFlow(rows, f))
    ensures multiset(RowFlows(FileFlow(rows, f))) == multiset(RowFlows(rows)) + multiset{f}
  {
    var filed := [LockRow(f.from, rows[0].flows + [f])] + rows[1..];
    assert filed[1..] == rows[1..];
    assert RowFlows(filed) == rows[0].flows + [f] + RowFlows(rows[1..]);
    assert rows[0] in rows;
    forall r | r in filed ensures r.flows != [] && AllProper(r.flows) && forall g :: g in r.flows ==> g.from == r.participant {
      assert r in rows || r == filed[0];
    }
  }

  lemma FiledCons(first: LockRow, rest: seq<LockRow>)
    requires Filed([first]) && Filed(rest) && forall r :: r in rest ==> r.participant != first.participant
    ensures Filed([first] + rest)
    ensures RowFlows([first] + rest) == first.flows + RowFlows(rest)
  {
    assert ([first] + rest)[1..] == rest;
    assert [first][0] in [first];
    forall i | 0 <= i < |rest| ensures rest[i].participant != first.participant {
      assert rest[i] in rest;
    }
  }

  lemma {:induction false} FileFlowKeeps(rows: seq<LockRow>, f: Flow)
    requires Filed(rows) && Proper(f)
    ensures Filed(FileFlow(rows, f)) && FileFlow(rows, f) != []
    ensures forall r :: r in FileFlow(rows, f) ==> r.participant == f.from || r in rows
    ensures multiset(RowFlows(FileFlow(rows, f))) == multiset(RowFlows(rows)) + multiset{f}
    decreases |rows|
  {
    if rows == [] {
      assert RowFlows([LockRow(f.from, [f])]) == [f] + RowFlows([]);
    } else if rows[0].participant == f.from {
      FileIntoFirst(rows, f);
    } else {
      FiledTail(rows);
      FileFlowKeeps(rows[1..], f);
      assert rows[0] in rows && Filed([rows[0]]);
      forall r | r in FileFlow(rows[1..], f) ensures r.participant != rows[0].participant {
        if r in rows[1..] {
          var i :| 1 <= i < |rows| && rows[i] == r;
        }
      }
      FiledCons(rows[0], FileFlow(rows[1..], f));
    }
  }

  /** Grouping by sender loses, adds and changes nothing. */
  lemma {:induction false} FileFlowsKeeps(fs: seq<Flow>)
    requires AllProper(fs)
    ensures Filed(FileFlows([], fs))
    ensures multiset(RowFlows(FileFlows([], fs))) == multiset(fs)
    ensures fs != [] ==> FileFlows([], fs) != []
    decreases |fs|
  {
    if fs == [] {
      assert RowFlows([]) == [];
    } else {
      var init, last := fs[..|fs| - 1], fs[|fs| - 1];
      assert fs == init + [last];
      assert forall f :: f in init ==> f in fs;
      FileFlowsKeeps(init);
      FileFlowKeeps(FileFlows([], init), last);
    }
  }

  // ----- reserved capacity -----

  ghost predicate LocksFiled(locks: Locks)
  {
    forall t :: t in locks ==> Filed(locks[t].rows) && locks[t].rows != []
  }

  function LiveSum(locks: Locks, t: TxId, k: DebtKey, now: int): int
  {
    if t in locks && locks[t].expires > now then RowsSum(locks[t].rows, k) else 0
  }

  /** What live locks of transactions other than `except` reserve along `k`. */
  ghost function Reserved(locks: Locks, k: DebtKey, now: int, except: set<TxId>): int
  {
    Sum(locks.Keys - except, (t: TxId) => LiveSum(locks, t, k, now))
  }

  lemma LiveSumNonNegative(locks: Locks, t: TxId, k: DebtKey, now: int)
    requires LocksFiled(locks)
    ensures LiveSum(locks, t, k, now) >= 0
  {
    if t in locks {
      LookupBySenderIsComplete(locks[t].rows, k);
      FiledProper(locks[t].rows);
      EdgeSumNonNegative(RowFlows(locks[t].rows), k);
    }
  }

  lemma ReservedWith(locks: Locks, t: TxId, k: DebtKey, now: int)
    requires t in locks
    ensures Reserved(locks, k, now, {}) == Reserved(locks, k, now, {t}) + LiveSum(locks, t, k, now)
  {
    SumRemove(locks.Keys, (x: TxId) => LiveSum(locks, x, k, now), t);
    assert locks.Keys - {} == locks.Keys;
  }

  /** Adding a transaction's lock reserves exactly what the lock holds. */
  lemma ReservedAdd(locks: Locks, t: TxId, lock: Lock, k: DebtKey, now: int)
    requires t !in locks
    ensures Reserved(locks[t := lock], k, now, {}) ==
            Reserved(locks, k, now, {t}) + LiveSum(locks[t := lock], t, k, now)
  {
    var after := locks[t := lock];
    ReservedWith(after, t, k, now);
    assert after.Keys - {t} == locks.Keys - {t};
    SumCongruent(locks.Keys - {t}, (x: TxId) => LiveSum(after, x, k, now), (x: TxId) => LiveSum(locks, x, k, now));
  }

  lemma ReservedDrop(locks: Locks, t: TxId, k: DebtKey, now: int)
    ensures Reserved(locks - {t}, k, now, {}) == Reserved(locks, k, now, {t})
  {
    var after := locks - {t};
    assert after.Keys - {} == locks.Keys - {t};
    SumCongruent(after.Keys, (x: TxId) => LiveSum(after, x, k, now), (x: TxId) => LiveSum(locks, x, k, now));
  }

  /** Releasing a lock or letting time pass never raises what is reserved. */
  lemma ReservedShrinks(locks: Locks, t: TxId, k: DebtKey, now: int, later: int)
    requires LocksFiled(locks) && now <= later
    ensures Reserved(locks, k, later, {}) <= Reserved(locks, k, now, {})
    ensures Reserved(locks - {t}, k, now, {}) <= Reserved(locks, k, now, {})
    ensures Reserved(locks, k, now, {}) >= 0
  {
    forall x ensures 0 <= LiveSum(locks, x, k, later) <= LiveSum(locks, x, k, now) {
      LiveSumNonNegative(locks, x, k, later);
      LiveSumNonNegative(locks, x, k, now);
    }
    var zero := (x: TxId) => 0;
    SumLeq(locks.Keys - {}, (x: TxId) => LiveSum(locks, x, k, later), (x: TxId) => LiveSum(locks, x, k, now));
    SumLeq(locks.Keys - {}, zero, (x: TxId) => LiveSum(locks, x, k, now));
    SumZero(locks.Keys - {}, zero);
    ReservedDrop(locks, t, k, now);
    if t in locks {
      ReservedWith(locks, t, k, now);
    } else {
      assert locks.Keys - {t} == locks.Keys - {};
    }
  }

  /** Does a live lock send a flow over the unordered pair of `k`? */
  ghost predicate PairLocked(locks: Locks, k: DebtKey, now: int)
  {
    exists t :: t in locks && locks[t].expires > now && Touches(RowFlows(locks[t].rows), k)
  }

  lemma UnlockedReservesNothing(locks: Locks, k: DebtKey, now: int)
    requires LocksFiled(locks) && !PairLocked(locks, k, now)
    ensures Reserved(locks, k, now, {}) == 0 && Reserved(locks, k.Reverse(), now, {}) == 0
  {
    forall t | t in locks && locks[t].expires > now ensures LiveSum(locks, t, k, now) == 0 && LiveSum(locks, t, k.Reverse(), now) == 0 {
      assert !Touches(RowFlows(locks[t].rows), k);
      LookupBySenderIsComplete(locks[t].rows, k);
      LookupBySenderIsComplete(locks[t].rows, k.Reverse());
      EdgeSumUntouched(RowFlows(locks[t].rows), k);
      EdgeSumUntouched(RowFlows(locks[t].rows), k.Reverse());
    }
    SumZero(locks.Keys - {}, (x: TxId) => LiveSum(locks, x, k, now));
    SumZero(locks.Keys - {}, (x: TxId) => LiveSum(locks, x, k.Reverse(), now));
  }
}
