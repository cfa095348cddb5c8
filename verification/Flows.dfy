/** Payment flows over the debt table: one edge flow pays back what the receiver owes the
    sender first and lends the rest, then nets whatever is mutual. */
module Flows {
  import opened Ledger

  datatype Flow = Flow(eq: string, from: Pid, to: Pid, amount: int)
  {
    /** The row in which a flow makes its sender owe its receiver. */
    function Key(): DebtKey { DebtKey(eq, from, to) }
  }

  function Min(a: int, b: int): int { if a <= b then a else b }

  /** Pay down the receiver's debt to the sender, then raise the sender's debt. */
  function PayAndLend(d: Debts, f: Flow): Debts
  {
    var k := f.Key();
    var owedBack := Owed(d, k.Reverse());
    var reduction := if owedBack > 0 then Min(f.amount, owedBack) else 0;
    var d1 := SetOwed(d, k.Reverse(), owedBack - reduction);
    var remaining := f.amount - reduction;
    if remaining > 0 then SetOwed(d1, k, Owed(d1, k) + remaining) else d1
  }

  /** Cancel what two participants owe each other. */
  function NetMutual(d: Debts, k: DebtKey): Debts
  {
    var forward, back := Owed(d, k), Owed(d, k.Reverse());
    if forward > 0 && back > 0 then
      var net := Min(forward, back);
      SetOwed(SetOwed(d, k, forward - net), k.Reverse(), back - net)
    else d
  }

  function ApplyFlow(d: Debts, f: Flow): Debts
  {
    NetMutual(PayAndLend(d, f), f.Key())
  }

  function ApplyFlows(d: Debts, fs: seq<Flow>): Debts
    decreases |fs|
  {
    if fs == [] then d else ApplyFlows(ApplyFlow(d, fs[0]), fs[1..])
  }

  ghost predicate Proper(f: Flow)
  {
    f.amount > 0 && f.from != f.to
  }

  ghost predicate AllProper(fs: seq<Flow>)
  {
    forall f :: f in fs ==> Proper(f)
  }

  /** Total amount flowing along one edge. */
  function EdgeSum(fs: seq<Flow>, k: DebtKey): int
  {
    if fs == [] then 0 else (if fs[0].Key() == k then fs[0].amount else 0) + EdgeSum(fs[1..], k)
  }

  /** What a list of flows adds to a participant's net position. */
  function Delta(fs: seq<Flow>, eq: string, p: Pid): int
  {
    if fs == [] then 0 else Share(fs[0].Key(), fs[0].amount, eq, p) + Delta(fs[1..], eq, p)
  }

  /** One flow: only its pair changes, the pair's net debt rises by the amount, at most one
      direction is left, and sender and receiver move by exactly the amount. */
  lemma ApplyFlowEffect(d: Debts, f: Flow)
    requires WellFormed(d) && Proper(f)
    ensures WellFormed(ApplyFlow(d, f))
    ensures forall j :: j != f.Key() && j != f.Key().Reverse() ==> Owed(ApplyFlow(d, f), j) == Owed(d, j)
    ensures Net(ApplyFlow(d, f), f.Key()) == Net(d, f.Key()) + f.amount
    ensures !(f.Key() in ApplyFlow(d, f) && f.Key().Reverse() in ApplyFlow(d, f))
  {
    var k, r := f.Key(), f.Key().Reverse();
    assert k != r && r.Reverse() == k;
    var d1 := PayAndLend(d, f);
    assert Owed(d, k) >= 0 && Owed(d, r) >= 0;
    assert WellFormed(d1);
    assert Owed(d1, k) - Owed(d1, r) == Owed(d, k) - Owed(d, r) + f.amount;
  }

  lemma PayAndLendPosition(d: Debts, f: Flow, eq: string, p: Pid)
    requires WellFormed(d) && Proper(f)
    ensures Position(PayAndLend(d, f), eq, p) == Position(d, eq, p) + Share(f.Key(), f.amount, eq, p)
  {
    var k := f.Key();
    var owedBack := Owed(d, k.Reverse());
    var reduction := if owedBack > 0 then Min(f.amount, owedBack) else 0;
    var d1 := SetOwed(d, k.Reverse(), owedBack - reduction);
    PositionSet(d, k.Reverse(), owedBack - reduction, eq, p);
    PositionSet(d1, k, Owed(d1, k) + f.amount - reduction, eq, p);
  }

  lemma NetMutualPosition(d: Debts, k: DebtKey, eq: string, p: Pid)
    ensures Position(NetMutual(d, k), eq, p) == Position(d, eq, p)
  {
    var forward, back := Owed(d, k), Owed(d, k.Reverse());
    if forward > 0 && back > 0 && k != k.Reverse() {
      var net := Min(forward, back);
      PositionSet(d, k, forward - net, eq, p);
      PositionSet(SetOwed(d, k, forward - net), k.Reverse(), back - net, eq, p);
    } else if forward > 0 && back > 0 {
      PositionSet(d, k, 0, eq, p);
      PositionSet(SetOwed(d, k, 0), k, 0, eq, p);
    }
  }

  lemma ApplyFlowPosition(d: Debts, f: Flow, eq: string, p: Pid)
    requires WellFormed(d) && Proper(f)
    ensures Position(ApplyFlow(d, f), eq, p) == Position(d, eq, p) + Share(f.Key(), f.amount, eq, p)
  {
    PayAndLendPosition(d, f, eq, p);
    NetMutualPosition(PayAndLend(d, f), f.Key(), eq, p);
  }

  /** A list of flows moves every position by exactly the flows' deltas. */
  lemma {:induction false} ApplyFlowsPosition(d: Debts, fs: seq<Flow>, eq: string, p: Pid)
    requires WellFormed(d) && AllProper(fs)
    ensures Position(ApplyFlows(d, fs), eq, p) == Position(d, eq, p) + Delta(fs, eq, p)
    decreases fs
  {
    if fs != [] {
      ApplyFlowEffect(d, fs[0]);
      ApplyFlowPosition(d, fs[0], eq, p);
      ApplyFlowsPosition(ApplyFlow(d, fs[0]), fs[1..], eq, p);
    }
  }

  ghost predicate Touches(fs: seq<Flow>, k: DebtKey)
  {
    exists i :: 0 <= i < |fs| && (fs[i].Key() == k || fs[i].Key() == k.Reverse())
  }

  /** Every pair's net debt changes by the amounts sent each way over it. */
  lemma {:induction false} ApplyFlowsNet(d: Debts, fs: seq<Flow>, k: DebtKey)
    requires WellFormed(d) && AllProper(fs)
    ensures Net(ApplyFlows(d, fs), k) == Net(d, k) + EdgeSum(fs, k) - EdgeSum(fs, k.Reverse())
    decreases fs
  {
    if fs != [] {
      ApplyFlowEffect(d, fs[0]);
      ApplyFlowsNet(ApplyFlow(d, fs[0]), fs[1..], k);
    }
  }

  /** Flows keep the table well formed, leave other pairs alone, and keep one-sidedness. */
  lemma {:induction false} ApplyFlowsShape(d: Debts, fs: seq<Flow>)
    requires WellFormed(d) && AllProper(fs)
    ensures WellFormed(ApplyFlows(d, fs))
    ensures forall k :: !Touches(fs, k) ==> Owed(ApplyFlows(d, fs), k) == Owed(d, k)
    ensures Symmetric(d) ==> Symmetric(ApplyFlows(d, fs))
    decreases fs
  {
    if fs != [] {
      var d1, rest := ApplyFlow(d, fs[0]), fs[1..];
      ApplyFlowEffect(d, fs[0]);
      ApplyFlowsShape(d1, rest);
      forall k | !Touches(fs, k) ensures Owed(ApplyFlows(d, fs), k) == Owed(d, k) {
        assert fs[0].Key() != k && fs[0].Key() != k.Reverse();
        assert forall i :: 0 <= i < |rest| ==> rest[i] == fs[i + 1];
        assert !Touches(rest, k);
      }
      forall k | Symmetric(d) && k in d1 ensures k.Reverse() !in d1 {
        assert Owed(d1, k) != 0;
        assert k.Reverse() in d1 ==> Owed(d1, k.Reverse()) != 0;
      }
    }
  }

  /** Every pair the flows use ends up one-sided, even if it started with debts both ways. */
  lemma {:induction false} TouchedIsOneSided(d: Debts, fs: seq<Flow>, k: DebtKey)
    requires WellFormed(d) && AllProper(fs) && Touches(fs, k)
    ensures !(k in ApplyFlows(d, fs) && k.Reverse() in ApplyFlows(d, fs))
    decreases fs
  {
    var d1, rest := ApplyFlow(d, fs[0]), fs[1..];
    ApplyFlowEffect(d, fs[0]);
    assert k.Reverse().Reverse() == k;
    assert forall i :: 0 < i < |fs| ==> fs[i] == rest[i - 1];
    if Touches(rest, k) {
      TouchedIsOneSided(d1, rest, k);
    } else {
      assert fs[0].Key() == k || fs[0].Key() == k.Reverse();
      assert !Touches(rest, k.Reverse());
      ApplyFlowsShape(d1, rest);
      assert Owed(ApplyFlows(d1, rest), k) == Owed(d1, k) && Owed(ApplyFlows(d1, rest), k.Reverse()) == Owed(d1, k.Reverse());
    }
  }

  lemma {:induction false} EdgeSumAppend(a: seq<Flow>, b: seq<Flow>, k: DebtKey)
    ensures EdgeSum(a + b, k) == EdgeSum(a, k) + EdgeSum(b, k)
    decreases a
  {
    if a == [] {
      assert a + b == b;
    } else {
      assert (a + b)[1..] == a[1..] + b;
      EdgeSumAppend(a[1..], b, k);
    }
  }

  lemma {:induction false} EdgeSumNonNegative(fs: seq<Flow>, k: DebtKey)
    requires AllProper(fs)
    ensures EdgeSum(fs, k) >= 0
    decreases fs
  {
    if fs != [] {
      assert Proper(fs[0]);
      EdgeSumNonNegative(fs[1..], k);
    }
  }

  lemma {:induction false} EdgeSumUntouched(fs: seq<Flow>, k: DebtKey)
    requires forall i :: 0 <= i < |fs| ==> fs[i].Key() != k
    ensures EdgeSum(fs, k) == 0
    decreases fs
  {
    if fs != [] {
      EdgeSumUntouched(fs[1..], k);
    }
  }

  lemma {:induction false} DeltaAppend(a: seq<Flow>, b: seq<Flow>, eq: string, p: Pid)
    ensures Delta(a + b, eq, p) == Delta(a, eq, p) + Delta(b, eq, p)
    decreases a
  {
    if a == [] {
      assert a + b == b;
    } else {
      assert (a + b)[1..] == a[1..] + b;
      DeltaAppend(a[1..], b, eq, p);
    }
  }

  /** At most one of the two owes the other. */
  ghost predicate OneSided(d: Debts, k: DebtKey)
  {
    !(k in d && k.Reverse() in d)
  }

  /** A table is determined by its net debts on one-sided pairs and its rows on the others. */
  lemma NetDeterminesTable(d: Debts, e: Debts)
    requires WellFormed(d) && WellFormed(e)
    requires forall k :: Owed(d, k) == Owed(e, k) || (OneSided(d, k) && OneSided(e, k))
    requires forall k :: Net(d, k) == Net(e, k)
    ensures d == e
  {
    forall k ensures Owed(d, k) == Owed(e, k) {
      assert Net(d, k) == Net(e, k);
      assert k.Reverse().Reverse() == k;
    }
    forall k ensures k in d <==> k in e {
      assert Owed(d, k) == Owed(e, k);
    }
    forall k | k in d ensures d[k] == e[k] {
      assert Owed(d, k) == Owed(e, k);
    }
  }

  lemma TouchesPermutes(fs: seq<Flow>, gs: seq<Flow>, k: DebtKey)
    requires multiset(fs) == multiset(gs) && Touches(fs, k)
    ensures Touches(gs, k)
  {
    var i :| 0 <= i < |fs| && (fs[i].Key() == k || fs[i].Key() == k.Reverse());
    assert fs[i] in multiset(gs);
    var j :| 0 <= j < |gs| && gs[j] == fs[i];
  }

  /** The order in which a transaction's persisted flows are applied does not matter. */
  lemma ApplyOrderIrrelevant(d: Debts, fs: seq<Flow>, gs: seq<Flow>)
    requires WellFormed(d) && AllProper(fs) && multiset(fs) == multiset(gs)
    ensures ApplyFlows(d, fs) == ApplyFlows(d, gs)
  {
    forall g | g in gs ensures Proper(g) {
      assert g in multiset(gs);
    }
    hide ApplyFlows, Touches, Net;
    var a, c := ApplyFlows(d, fs), ApplyFlows(d, gs);
    forall k ensures Net(a, k) == Net(c, k) {
      ApplyFlowsNet(d, fs, k);
      ApplyFlowsNet(d, gs, k);
      EdgeSumPermutes(fs, gs, k);
      EdgeSumPermutes(fs, gs, k.Reverse());
    }
    ApplyFlowsShape(d, fs);
    ApplyFlowsShape(d, gs);
    forall k ensures Owed(a, k) == Owed(c, k) || (OneSided(a, k) && OneSided(c, k)) {
      if Touches(fs, k) {
        TouchesPermutes(fs, gs, k);
        TouchedIsOneSided(d, fs, k);
        TouchedIsOneSided(d, gs, k);
      } else if Touches(gs, k) {
        TouchesPermutes(gs, fs, k);
      }
    }
    NetDeterminesTable(a, c);
  }

  lemma EdgeSumWithout(gs: seq<Flow>, i: nat, k: DebtKey)
    requires i < |gs|
    ensures EdgeSum(gs, k) == EdgeSum(gs[..i] + gs[i + 1..], k) + EdgeSum([gs[i]], k)
  {
    assert gs == gs[..i] + ([gs[i]] + gs[i + 1..]);
    EdgeSumAppend(gs[..i], [gs[i]] + gs[i + 1..], k);
    EdgeSumAppend([gs[i]], gs[i + 1..], k);
    EdgeSumAppend(gs[..i], gs[i + 1..], k);
  }

  lemma DropSame<T>(fs: seq<T>, gs: seq<T>, i: nat)
    requires multiset(fs) == multiset(gs) && fs != [] && i < |gs| && gs[i] == fs[0]
    ensures multiset(fs[1..]) == multiset(gs[..i] + gs[i + 1..])
  {
    assert gs == gs[..i] + ([gs[i]] + gs[i + 1..]);
    assert fs == [fs[0]] + fs[1..];
    assert multiset(gs[..i] + gs[i + 1..]) == multiset(gs) - multiset{gs[i]};
    assert multiset(fs[1..]) == multiset(fs) - multiset{fs[0]};
  }

  lemma {:induction false} EdgeSumPermutes(fs: seq<Flow>, gs: seq<Flow>, k: DebtKey)
    requires multiset(fs) == multiset(gs)
    ensures EdgeSum(fs, k) == EdgeSum(gs, k)
    decreases |fs|
  {
    if fs == [] {
      assert |gs| == |multiset(gs)| == 0;
    } else {
      assert fs[0] in multiset(fs) && fs[0] in gs;
      var i :| 0 <= i < |gs| && gs[i] == fs[0];
      DropSame(fs, gs, i);
      EdgeSumPermutes(fs[1..], gs[..i] + gs[i + 1..], k);
      EdgeSumWithout(gs, i, k);
      EdgeSumWithout(fs, 0, k);
      assert fs[..0] + fs[1..] == fs[1..];
    }
  }
}
