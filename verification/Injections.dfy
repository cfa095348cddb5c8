/** Two writers of the simulator that reach past the engine: freezing a participant's lines and
    injecting a debt. They are not steps of the run model; here is exactly when they leave its
    invariant and the live reservations standing. */
module Injections {
  import opened Ledger
  import opened Flows
  import opened PrepareLocks
  import opened Engine
  import R = EngineRuns

  // ----- freezing -----

  predicate Incident(k: DebtKey, who: Pid)
  {
    k.debtor == who || k.creditor == who
  }

  /** Every active line of the participant is frozen, whatever is owed or reserved on it. */
  function Freeze(st: State, who: Pid): State
  {
    st.(lines := map k | k in st.lines && !Incident(k, who) :: st.lines[k])
  }

  /** The lines on either side of the participant are gone, the others and everything else stay. */
  lemma FreezeOutcome(st: State, who: Pid)
    ensures forall eq, a, b :: DebtKey(eq, a, b) in Freeze(st, who).lines <==> DebtKey(eq, a, b) in st.lines && a != who && b != who
    ensures forall k :: k in Freeze(st, who).lines ==> Freeze(st, who).lines[k] == st.lines[k]
    ensures Freeze(st, who) == State(st.debts, Freeze(st, who).lines, st.people, st.txs, st.locks)
  {
  }

  /** Freezing keeps the engine's invariant exactly when the participant neither owes nor is owed. */
  lemma FreezeKeepsInvIff(st: State, who: Pid)
    requires Inv(st)
    ensures Inv(Freeze(st, who)) <==> forall k :: k in st.debts ==> k.debtor != who && k.creditor != who
  {
    var after := Freeze(st, who);
    assert GoodLines(st.debts, st.lines);
    if forall k :: k in st.debts ==> !Incident(k, who) {
      forall k | k in st.debts ensures st.debts[k] <= Limit(after.lines, k) {
        assert Limit(after.lines, k) == Limit(st.lines, k);
      }
      NewLinesKeepInv(st, after.lines);
    }
    if Inv(after) {
      forall k | k in st.debts ensures !Incident(k, who) {
        assert st.debts[k] > 0 && after.debts[k] <= Limit(after.lines, k);
      }
    }
  }

  /** It keeps the live promises exactly when on each of the participant's edges what is reserved
      only pays back. */
  lemma FreezeKeepsReservableIff(st: State, who: Pid, now: int)
    requires Inv(st) && Reservable(st, now)
    ensures Reservable(Freeze(st, who), now)
       <==> forall k: DebtKey :: k.debtor == who || k.creditor == who ==> Net(st.debts, k) + Reserved(st.locks, k, now, {}) <= 0
  {
    hide Inv, Net;
    var after := Freeze(st, who);
    assert forall k :: Limit(after.lines, k) == if Incident(k, who) then 0 else Limit(st.lines, k);
    if Reservable(after, now) {
      forall k | Incident(k, who) ensures Net(st.debts, k) + Reserved(st.locks, k, now, {}) <= 0 {
        assert ReservableOn(after, k, now);
      }
    }
    if forall k :: Incident(k, who) ==> Net(st.debts, k) + Reserved(st.locks, k, now, {}) <= 0 {
      forall k ensures ReservableOn(after, k, now) {
        assert ReservableOn(st, k, now);
      }
    }
  }

  /** The input behind the condition: the payer of a prepared payment is frozen. */
  lemma FreezeBreaksPreparedPayment(ttl: int)
    requires ttl > 1
    ensures var st := R.OnePrepared(ttl);
            && Inv(st) && Reservable(st, 0)
            && Commit(st, "t", 1).1 == CommitDone
            && Commit(Freeze(st, "A"), "t", 1).1 == CommitViolation
  {
    hide Inv, Reservable, Commit;
    R.OnePreparedIsSound(ttl);
    FreezeKeepsInvIff(R.OnePrepared(ttl), "A");
    R.CutBreaks(ttl, Freeze(R.OnePrepared(ttl), "A"));
  }

  // ----- injecting a debt -----

  /** A hundredth of the unit, in atoms. */
  const Cent: int := 1000000

  /** Cut down to whole hundredths. */
  function Cents(x: int): int
  {
    x - x % Cent
  }

  /** The row's amount after an injection: added to what is owed, and cut down again. */
  function Injected(d: Debts, k: DebtKey, amount: int): int
  {
    if k in d then Cents(d[k] + Cents(amount)) else Cents(amount)
  }

  /** When an injection is applied: a positive amount, known participants, an active line with a
      positive limit, and room under the limit for the debt alone. */
  predicate Applies(st: State, k: DebtKey, amount: int)
  {
    && Cents(amount) > 0 && k.debtor in st.people && k.creditor in st.people
    && k in st.lines && st.lines[k] > 0 && Injected(st.debts, k, amount) <= st.lines[k]
  }

  function Inject(st: State, k: DebtKey, amount: int): State
  {
    if Applies(st, k, amount) then st.(debts := st.debts[k := Injected(st.debts, k, amount)]) else st
  }

  /** An injection only ever raises the debt, although it cuts it down to hundredths. */
  lemma InjectedGrows(d: Debts, k: DebtKey, amount: int)
    requires WellFormed(d) && Cents(amount) > 0
    ensures Injected(d, k, amount) > Owed(d, k) >= 0
  {
    CentsAdd(Owed(d, k), amount);
  }

  lemma CentsAdd(x: int, amount: int)
    requires Cents(amount) > 0
    ensures Cents(x + Cents(amount)) > x
  {
    assert Cents(amount) == amount / Cent * Cent;
    assert amount / Cent >= 1;
  }

  /** What an injection does, in hundredths of the unit: a positive number of them is added to the
      whole hundredths already owed, if both participants are known and the sum fits a line with
      a positive limit; otherwise, and everywhere else, nothing changes. */
  lemma InjectOutcome(st: State, k: DebtKey, amount: int)
    requires WellFormed(st.debts)
    ensures var sum := ((if k in st.debts then st.debts[k] / 1000000 else 0) + amount / 1000000) * 1000000;
            var fits := amount >= 1000000 && k.debtor in st.people && k.creditor in st.people && k in st.lines && 0 < st.lines[k] && sum <= st.lines[k];
            && Inject(st, k, amount) == (if fits then st.(debts := st.debts[k := sum]) else st)
            && (Applies(st, k, amount) <==> fits)
  {
    WholeHundredths(amount);
    if k in st.debts {
      SumOfHundredths(st.debts[k], amount);
    }
  }

  lemma WholeHundredths(x: int)
    ensures Cents(x) == x / 1000000 * 1000000
    ensures Cents(x) > 0 <==> x >= 1000000
  {
  }

  lemma SumOfHundredths(x: int, amount: int)
    ensures Cents(x + Cents(amount)) == (x / 1000000 + amount / 1000000) * 1000000
  {
    WholeHundredths(amount);
    WholeHundredths(x + Cents(amount));
    var q := amount / 1000000;
    assert (x + q * 1000000) / 1000000 == x / 1000000 + q;
  }

  /** The invariant survives exactly when the injection does not apply or nothing is owed the
      other way. */
  lemma InjectKeepsInvIff(st: State, k: DebtKey, amount: int)
    requires Inv(st)
    ensures Inv(Inject(st, k, amount)) <==> !Applies(st, k, amount) || k.Reverse() !in st.debts
  {
    if Applies(st, k, amount) {
      hide LocksFiled, Injected;
      InjectedGrows(st.debts, k, amount);
      var after := Inject(st, k, amount);
      assert k in after.debts && k != k.Reverse() && k.Reverse().Reverse() == k;
      if k.Reverse() !in st.debts {
        forall j | j in after.debts ensures j.Reverse() !in after.debts && after.debts[j] <= Limit(st.lines, j) {
          assert j.Reverse() == k ==> j == k.Reverse();
        }
      }
    }
  }

  /** The live promises survive exactly when the raised debt leaves room for the reservations. */
  lemma InjectKeepsReservableIff(st: State, k: DebtKey, amount: int, now: int)
    requires Inv(st) && Reservable(st, now)
    ensures Reservable(Inject(st, k, amount), now)
       <==> !Applies(st, k, amount) || Injected(st.debts, k, amount) - Owed(st.debts, k.Reverse()) + Reserved(st.locks, k, now, {}) <= st.lines[k]
  {
    if Applies(st, k, amount) {
      InjectedGrows(st.debts, k, amount);
      assert k != k.Reverse() && k.Reverse().Reverse() == k;
      hide Inv, Injected;
      var after := Inject(st, k, amount);
      assert Net(after.debts, k) == Injected(st.debts, k, amount) - Owed(st.debts, k.Reverse());
      forall j | j != k ensures ReservableOn(after, j, now) {
        assert ReservableOn(st, j, now);
        assert Net(after.debts, j) <= Net(st.debts, j);
      }
      assert Reservable(after, now) <==> ReservableOn(after, k, now);
    }
  }

  /** The input behind the condition: a debt of one hundredth is injected on the line of a
      prepared payment that was going to use the line up. */
  lemma InjectBreaksPreparedPayment(ttl: int)
    requires ttl > 1
    ensures var k, st := DebtKey("UAH", "A", "B"), FullLine(ttl);
            && Inv(st) && Reservable(st, 0)
            && Commit(st, "t", 1).1 == CommitDone
            && Commit(Inject(st, k, Cent), "t", 1).1 == CommitViolation
  {
    var st := FullLine(ttl);
    FullLineIsSound(ttl);
    var after := Inject(st, DebtKey("UAH", "A", "B"), Cent);
    assert after == st.(debts := map[DebtKey("UAH", "A", "B") := Cent]);
    InjectKeepsInvIff(st, DebtKey("UAH", "A", "B"), Cent);
    hide Inv, Reservable, Commit, RowFlows, Inject, Injected, Applies;
    WaitKeepsReservable(st, 0, 1);
    ReservationGivesRoom(st, "t", 1);
    CommitsIffRoom(st, "t", 1);
    assert RowFlows(after.locks["t"].rows)[0].Key() == DebtKey("UAH", "A", "B");
    assert !RoomForAll(after, RowFlows(after.locks["t"].rows));
    CommitsIffRoom(after, "t", 1);
  }

  /** One payment of one hundredth is prepared on a line of one hundredth. */
  ghost function FullLine(ttl: int): State
  {
    State(map[], map[DebtKey("UAH", "A", "B") := Cent], {"A", "B"}, map["t" := Prepared],
          map["t" := Lock([LockRow("A", [Flow("UAH", "A", "B", Cent)])], ttl)])
  }

  lemma FullLineIsSound(ttl: int)
    requires ttl > 1
    ensures Inv(FullLine(ttl)) && Reservable(FullLine(ttl), 0)
    ensures RowFlows(FullLine(ttl).locks["t"].rows) == [Flow("UAH", "A", "B", Cent)]
    ensures forall k :: EdgeSum([Flow("UAH", "A", "B", Cent)], k) == if k == DebtKey("UAH", "A", "B") then Cent else 0
  {
    var f := Flow("UAH", "A", "B", Cent);
    var st := FullLine(ttl);
    R.OneFlow(st.locks["t"].rows, f);
    forall j ensures ReservableOn(st, j, 0) {
      ReservedWith(st.locks, "t", j, 0);
      assert st.locks.Keys - {"t"} == {};
    }
  }
}
