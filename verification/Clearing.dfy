/** Clearing a set of debt rows by their common minimum. */
module Clearing {
  import opened Lists
  import opened Ledger

  /** The least amount among the rows. */
  function MinOwed(d: Debts, rows: seq<DebtKey>): (m: int)
    requires rows != []
    ensures forall k :: k in rows ==> m <= Owed(d, k)
    ensures exists k :: k in rows && m == Owed(d, k)
  {
    if |rows| == 1 then Owed(d, rows[0]) else
      var rest := MinOwed(d, rows[1..]);
      if Owed(d, rows[0]) <= rest then Owed(d, rows[0]) else rest
  }

  /** Decrease each row by `m`, deleting rows that reach zero. */
  function Lower(d: Debts, rows: seq<DebtKey>, m: int): (r: Debts)
    decreases |rows|
  {
    if rows == [] then d else Lower(SetOwed(d, rows[0], Owed(d, rows[0]) - m), rows[1..], m)
  }

  /** How often `p` is a debtor less how often it is a creditor among the rows. */
  function Imbalance(rows: seq<DebtKey>, eq: string, p: Pid): int
  {
    if rows == [] then 0 else -Share(rows[0], 1, eq, p) + Imbalance(rows[1..], eq, p)
  }

  lemma {:induction false} LowerOwed(d: Debts, rows: seq<DebtKey>, m: int, k: DebtKey)
    requires Distinct(rows)
    ensures Owed(Lower(d, rows, m), k) == Owed(d, k) - (if k in rows then m else 0)
    ensures k !in rows ==> (k in Lower(d, rows, m) <==> k in d)
    ensures k in rows ==> (k in Lower(d, rows, m) <==> Owed(d, k) != m)
    decreases |rows|
  {
    if rows != [] {
      var rest := rows[1..];
      assert rows == [rows[0]] + rest;
      assert rows[0] !in rest;
      LowerOwed(SetOwed(d, rows[0], Owed(d, rows[0]) - m), rest, m, k);
    }
  }

  lemma ShareScale(k: DebtKey, m: int, eq: string, p: Pid, rest: int)
    ensures Share(k, -m, eq, p) + m * rest == m * (-Share(k, 1, eq, p) + rest)
  {
    var s := Share(k, 1, eq, p);
    assert s == 0 || s == 1 || s == -1;
    assert m * (-s + rest) == m * -s + m * rest;
  }

  /** Lowering the rows by `m` moves each position by `m` times its imbalance. */
  lemma {:induction false} LowerPosition(d: Debts, rows: seq<DebtKey>, m: int, eq: string, p: Pid)
    ensures Position(Lower(d, rows, m), eq, p) == Position(d, eq, p) + m * Imbalance(rows, eq, p)
    decreases |rows|
  {
    if rows != [] {
      var d1 := SetOwed(d, rows[0], Owed(d, rows[0]) - m);
      PositionSet(d, rows[0], Owed(d, rows[0]) - m, eq, p);
      LowerPosition(d1, rows[1..], m, eq, p);
      ShareScale(rows[0], m, eq, p, Imbalance(rows[1..], eq, p));
    }
  }

  function Parties(rows: seq<DebtKey>): (s: set<Pid>)
  {
    (set k | k in rows :: k.debtor) + (set k | k in rows :: k.creditor)
  }

  datatype Outcome = Cleared(amount: int) | Skipped | Refused

  /** The row's pair in another equivalent: locks, lines and policies are looked up in the
      equivalent of the first row only. */
  function In(k: DebtKey, eq: string): DebtKey
  {
    DebtKey(eq, k.debtor, k.creditor)
  }

  predicate OneEquivalent(rows: seq<DebtKey>)
  {
    forall k :: k in rows ==> k.eq == rows[0].eq
  }

  /** One clearing attempt on the selected rows. `blocked` are the pairs a live reservation, a
      missing line or an auto-clearing policy protects. On a database with owner locks the
      attempt is `interlocked` and refuses a selection that spans equivalents; elsewhere it
      goes on. A selection that would move a net position in the first row's equivalent is
      refused and leaves no trace. */
  ghost function Execute(d: Debts, rows: seq<DebtKey>, blocked: iset<DebtKey>, interlocked: bool): (Debts, Outcome)
  {
    if rows == [] || !Distinct(rows) || (exists k :: k in rows && k !in d) then (d, Skipped)
    else if interlocked && !OneEquivalent(rows) then (d, Refused)
    else if MinOwed(d, rows) <= 0 || (exists k :: k in rows && In(k, rows[0].eq) in blocked) then (d, Skipped)
    else
      var m := MinOwed(d, rows);
      var d' := Lower(d, rows, m);
      if forall p :: p in Parties(rows) ==> Position(d', rows[0].eq, p) == Position(d, rows[0].eq, p)
      then (d', Cleared(m))
      else (d, Refused)
  }

  /** The rows a clearing attempt gets as far as lowering. */
  ghost predicate Executable(d: Debts, rows: seq<DebtKey>, blocked: iset<DebtKey>, interlocked: bool)
  {
    && rows != [] && Distinct(rows) && (interlocked ==> OneEquivalent(rows))
    && (forall k :: k in rows ==> k in d && In(k, rows[0].eq) !in blocked)
  }

  /** Everybody is debtor in these rows of `eq` as often as creditor. */
  ghost predicate BalancedIn(rows: seq<DebtKey>, eq: string)
  {
    forall p :: p in Parties(rows) ==> Imbalance(rows, eq, p) == 0
  }

  /** What happens to rows that get as far as being lowered. */
  lemma ExecutableIsTried(d: Debts, rows: seq<DebtKey>, blocked: iset<DebtKey>, interlocked: bool)
    requires WellFormed(d) && Executable(d, rows, blocked, interlocked)
    ensures var m := MinOwed(d, rows);
            var d' := Lower(d, rows, m);
            m > 0 && Execute(d, rows, blocked, interlocked)
                     == if forall p :: p in Parties(rows) ==> Position(d', rows[0].eq, p) == Position(d, rows[0].eq, p) then (d', Cleared(m)) else (d, Refused)
  {
    hide Lower, Parties, Distinct;
  }

  /** Executable rows are cleared exactly when they are balanced in the first row's equivalent;
      otherwise the neutrality check undoes the attempt. */
  lemma ClearedIffBalanced(d: Debts, rows: seq<DebtKey>, blocked: iset<DebtKey>, interlocked: bool)
    requires WellFormed(d) && Executable(d, rows, blocked, interlocked)
    ensures MinOwed(d, rows) > 0
    ensures Execute(d, rows, blocked, interlocked)
         == if BalancedIn(rows, rows[0].eq) then (Lower(d, rows, MinOwed(d, rows)), Cleared(MinOwed(d, rows))) else (d, Refused)
  {
    hide Lower, Parties, Distinct, Imbalance, Position, Execute, MinOwed;
    ExecutableIsTried(d, rows, blocked, interlocked);
    var m, eq := MinOwed(d, rows), rows[0].eq;
    forall p ensures Position(Lower(d, rows, m), eq, p) == Position(d, eq, p) <==> Imbalance(rows, eq, p) == 0 {
      LowerPosition(d, rows, m, eq, p);
      ZeroProduct(m, Imbalance(rows, eq, p));
    }
  }

  /** The selections that are cleared. */
  ghost predicate Takes(d: Debts, rows: seq<DebtKey>, blocked: iset<DebtKey>, interlocked: bool)
  {
    Executable(d, rows, blocked, interlocked) && BalancedIn(rows, rows[0].eq)
  }

  lemma ClearedIffTaken(d: Debts, rows: seq<DebtKey>, blocked: iset<DebtKey>, interlocked: bool)
    requires WellFormed(d)
    ensures Execute(d, rows, blocked, interlocked).1.Cleared? <==> Takes(d, rows, blocked, interlocked)
    ensures Takes(d, rows, blocked, interlocked) ==> Execute(d, rows, blocked, interlocked).0 == Lower(d, rows, MinOwed(d, rows))
    ensures !Takes(d, rows, blocked, interlocked) ==> Execute(d, rows, blocked, interlocked).0 == d
  {
    hide Lower, Parties, Distinct, Imbalance, Position, MinOwed, BalancedIn;
    if Executable(d, rows, blocked, interlocked) {
      ClearedIffBalanced(d, rows, blocked, interlocked);
    } else {
      assert !Execute(d, rows, blocked, interlocked).1.Cleared?;
    }
  }

  /** Which outcome an attempt reports: it is skipped if the rows are not there or something
      protects one of them, refused if it is interlocked and spans equivalents or would move a
      position, and cleared by the least amount otherwise; only then does anything change. */
  lemma ExecuteOutcomes(d: Debts, rows: seq<DebtKey>, blocked: iset<DebtKey>, interlocked: bool)
    requires WellFormed(d)
    ensures var (after, o) := Execute(d, rows, blocked, interlocked);
            var there := rows != [] && Distinct(rows) && forall k :: k in rows ==> k in d;
            var spans := interlocked && exists k :: k in rows && k.eq != rows[0].eq;
            var stopped := exists k :: k in rows && DebtKey(rows[0].eq, k.debtor, k.creditor) in blocked;
            && (o.Skipped? <==> !there || (!spans && stopped))
            && (o.Refused? <==> there && (spans || (!stopped && !BalancedIn(rows, rows[0].eq))))
            && (o.Cleared? <==> there && !spans && !stopped && BalancedIn(rows, rows[0].eq))
            && (o.Cleared? ==> o.amount == MinOwed(d, rows) > 0 && after == Lower(d, rows, o.amount))
            && (!o.Cleared? ==> after == d)
  {
    hide Lower, Parties, Distinct, BalancedIn, MinOwed;
    if rows != [] && Distinct(rows) && (forall k :: k in rows ==> k in d) {
      assert rows[0] in rows;
      assert forall k :: In(k, rows[0].eq) == DebtKey(rows[0].eq, k.debtor, k.creditor);
      assert MinOwed(d, rows) > 0;
      if Executable(d, rows, blocked, interlocked) { ClearedIffBalanced(d, rows, blocked, interlocked); }
    }
  }

  lemma ZeroProduct(m: int, i: int)
    requires m > 0
    ensures m * i == 0 <==> i == 0
  {
  }

  lemma {:induction false} ImbalanceOutside(rows: seq<DebtKey>, eq: string, p: Pid)
    requires p !in Parties(rows)
    ensures Imbalance(rows, eq, p) == 0
    decreases |rows|
  {
    if rows != [] {
      assert rows[0] in rows;
      assert forall k :: k in rows[1..] ==> k in rows;
      ImbalanceOutside(rows[1..], eq, p);
    }
  }

  /** What an attempt does to a net position in any equivalent. */
  lemma ClearingMoves(d: Debts, rows: seq<DebtKey>, blocked: iset<DebtKey>, interlocked: bool, eq: string, p: Pid)
    requires WellFormed(d)
    ensures Position(Execute(d, rows, blocked, interlocked).0, eq, p) == Position(d, eq, p)
              + if Takes(d, rows, blocked, interlocked) then MinOwed(d, rows) * Imbalance(rows, eq, p) else 0
  {
    hide Execute, Takes, Lower, Imbalance, Position;
    ClearedIffTaken(d, rows, blocked, interlocked);
    LowerPosition(d, rows, if Takes(d, rows, blocked, interlocked) then MinOwed(d, rows) else 0, eq, p);
  }

  /** An attempt leaves every net position of every equivalent where it was exactly when it is
      not taken or is balanced in each equivalent it has rows of; the neutrality check itself
      looks at the first row's equivalent only. */
  lemma NeutralIff(d: Debts, rows: seq<DebtKey>, blocked: iset<DebtKey>, interlocked: bool)
    requires WellFormed(d)
    ensures (forall eq, p :: Position(Execute(d, rows, blocked, interlocked).0, eq, p) == Position(d, eq, p))
       <==> (Takes(d, rows, blocked, interlocked) ==> forall k :: k in rows ==> BalancedIn(rows, k.eq))
  {
    hide Execute, Lower, Imbalance, Position, MinOwed, Parties, Distinct;
    var taken := Takes(d, rows, blocked, interlocked);
    if taken { ClearedIffBalanced(d, rows, blocked, interlocked); }
    forall eq, p ensures Position(Execute(d, rows, blocked, interlocked).0, eq, p) == Position(d, eq, p) <==> (taken ==> Imbalance(rows, eq, p) == 0) {
      ClearingMoves(d, rows, blocked, interlocked, eq, p);
      if taken { ZeroProduct(MinOwed(d, rows), Imbalance(rows, eq, p)); }
    }
    if forall k :: k in rows ==> BalancedIn(rows, k.eq) {
      forall eq, p ensures Imbalance(rows, eq, p) == 0 { ZeroElsewhere(rows, eq, p); }
    }
  }

  lemma ZeroElsewhere(rows: seq<DebtKey>, eq: string, p: Pid)
    requires forall k :: k in rows ==> BalancedIn(rows, k.eq)
    ensures Imbalance(rows, eq, p) == 0
  {
    hide Imbalance, Parties;
    if p !in Parties(rows) {
      ImbalanceOutside(rows, eq, p);
    } else if forall k :: k in rows ==> k.eq != eq {
      OtherEquivalent(rows, eq, p);
    }
  }

  /** So an attempt that is interlocked, or whose rows share one equivalent, is neutral. */
  lemma ClearingIsNeutral(d: Debts, rows: seq<DebtKey>, blocked: iset<DebtKey>, interlocked: bool, eq: string, p: Pid)
    requires WellFormed(d) && (interlocked || OneEquivalent(rows))
    ensures Position(Execute(d, rows, blocked, interlocked).0, eq, p) == Position(d, eq, p)
  {
    hide Execute, Lower, Imbalance, Position, BalancedIn, Distinct;
    NeutralIff(d, rows, blocked, interlocked);
  }

  lemma {:induction false} OtherEquivalent(rows: seq<DebtKey>, other: string, p: Pid)
    requires forall k :: k in rows ==> k.eq != other
    ensures Imbalance(rows, other, p) == 0
    decreases |rows|
  {
    if rows != [] {
      assert rows[0] in rows;
      assert forall k :: k in rows[1..] ==> k in rows;
      OtherEquivalent(rows[1..], other, p);
    }
  }

  /** A successful clearing only lowers rows, deletes at least one, creates none, and leaves
      protected rows of the first row's equivalent alone. */
  lemma ClearingShrinks(d: Debts, rows: seq<DebtKey>, blocked: iset<DebtKey>, interlocked: bool)
    requires WellFormed(d)
    ensures var d' := Execute(d, rows, blocked, interlocked).0;
            WellFormed(d') && d'.Keys <= d.Keys && (forall k :: Owed(d', k) <= Owed(d, k))
    ensures Takes(d, rows, blocked, interlocked) ==> |Execute(d, rows, blocked, interlocked).0| < |d|
    ensures forall k :: k in blocked && (OneEquivalent(rows) || k.eq == rows[0].eq) ==> Owed(Execute(d, rows, blocked, interlocked).0, k) == Owed(d, k)
  {
    hide Execute, Lower, BalancedIn;
    ClearedIffTaken(d, rows, blocked, interlocked);
    if Takes(d, rows, blocked, interlocked) {
      var m, d' := MinOwed(d, rows), Execute(d, rows, blocked, interlocked).0;
      ClearedIffBalanced(d, rows, blocked, interlocked);
      forall k ensures Owed(d', k) == Owed(d, k) - (if k in rows then m else 0) && (k in d' ==> k in d && Owed(d', k) > 0) {
        LowerOwed(d, rows, m, k);
      }
      forall k | k in blocked && (OneEquivalent(rows) || k.eq == rows[0].eq) ensures k !in rows {
        assert k == In(k, k.eq);
      }
      var least :| least in rows && m == Owed(d, least);
      LowerOwed(d, rows, m, least);
      assert least in d && least !in d';
      assert d'.Keys <= d.Keys - {least};
      SubsetSize(d'.Keys, d.Keys - {least});
    }
  }

  // ----- cycles -----

  /** The rows of the debt cycle through these participants. */
  function CycleRows(eq: string, nodes: seq<Pid>): (rows: seq<DebtKey>)
    requires nodes != []
    ensures |rows| == |nodes|
  {
    PathRows(eq, nodes) + [DebtKey(eq, nodes[|nodes| - 1], nodes[0])]
  }

  function PathRows(eq: string, nodes: seq<Pid>): (rows: seq<DebtKey>)
    requires nodes != []
    ensures |rows| == |nodes| - 1
    ensures forall i :: 0 <= i < |rows| ==> rows[i] == DebtKey(eq, nodes[i], nodes[i + 1])
  {
    if |nodes| == 1 then [] else [DebtKey(eq, nodes[0], nodes[1])] + PathRows(eq, nodes[1..])
  }

  lemma {:induction false} PathImbalance(eq: string, nodes: seq<Pid>, p: Pid)
    requires nodes != []
    ensures Imbalance(PathRows(eq, nodes), eq, p) == (if p == nodes[0] then 1 else 0) - (if p == nodes[|nodes| - 1] then 1 else 0)
    decreases |nodes|
  {
    if |nodes| > 1 {
      PathImbalance(eq, nodes[1..], p);
      assert PathRows(eq, nodes)[1..] == PathRows(eq, nodes[1..]);
    }
  }

  lemma {:induction false} ImbalanceAppend(a: seq<DebtKey>, b: seq<DebtKey>, eq: string, p: Pid)
    ensures Imbalance(a + b, eq, p) == Imbalance(a, eq, p) + Imbalance(b, eq, p)
    decreases |a|
  {
    if a == [] {
      assert a + b == b;
    } else {
      assert (a + b)[1..] == a[1..] + b;
      ImbalanceAppend(a[1..], b, eq, p);
    }
  }

  /** Every closed walk of debts is balanced. */
  lemma CycleBalanced(eq: string, nodes: seq<Pid>, p: Pid)
    requires nodes != []
    ensures Imbalance(CycleRows(eq, nodes), eq, p) == 0
  {
    var last := [DebtKey(eq, nodes[|nodes| - 1], nodes[0])];
    PathImbalance(eq, nodes, p);
    ImbalanceAppend(PathRows(eq, nodes), last, eq, p);
    assert Imbalance(last, eq, p) == -Share(last[0], 1, eq, p) + Imbalance([], eq, p);
  }

  lemma CycleRowsDistinct(eq: string, nodes: seq<Pid>)
    requires |nodes| > 1 && Distinct(nodes)
    ensures Distinct(CycleRows(eq, nodes))
    ensures forall k :: k in CycleRows(eq, nodes) ==> k.eq == eq
  {
    var rows := CycleRows(eq, nodes);
    var path, last := PathRows(eq, nodes), DebtKey(eq, nodes[|nodes| - 1], nodes[0]);
    assert rows == path + [last] && |path| == |nodes| - 1;
    forall i | 0 <= i < |rows| ensures rows[i].debtor == nodes[i] && rows[i].eq == eq {
      if i < |path| {
        assert rows[i] == path[i] == DebtKey(eq, nodes[i], nodes[i + 1]);
      } else {
        assert rows[i] == last;
      }
    }
  }

  /** Every unblocked simple debt cycle is cleared, by its least amount. */
  lemma SimpleCycleClears(d: Debts, eq: string, nodes: seq<Pid>, blocked: iset<DebtKey>, interlocked: bool)
    requires WellFormed(d) && |nodes| > 1 && Distinct(nodes)
    requires forall k :: k in CycleRows(eq, nodes) ==> k in d && k !in blocked
    ensures Execute(d, CycleRows(eq, nodes), blocked, interlocked).1 == Cleared(MinOwed(d, CycleRows(eq, nodes)))
  {
    var rows := CycleRows(eq, nodes);
    CycleRowsDistinct(eq, nodes);
    assert rows[0] in rows;
    assert forall k :: k in rows ==> In(k, rows[0].eq) == k;
    assert Executable(d, rows, blocked, interlocked);
    forall p ensures Imbalance(rows, rows[0].eq, p) == 0 {
      CycleBalanced(eq, nodes, p);
    }
    ClearedIffBalanced(d, rows, blocked, interlocked);
  }

  // ----- selections that span equivalents -----

  lemma StrayImbalance(eq: string, nodes: seq<Pid>, stray: DebtKey, p: Pid)
    requires |nodes| > 1 && Distinct(nodes) && stray.eq != eq && stray.debtor != stray.creditor
    ensures Imbalance(CycleRows(eq, nodes) + [stray], eq, p) == 0
    ensures Imbalance(CycleRows(eq, nodes) + [stray], stray.eq, stray.debtor) == 1
  {
    hide CycleRows;
    var cycle := CycleRows(eq, nodes);
    CycleRowsDistinct(eq, nodes);
    CycleBalanced(eq, nodes, p);
    ImbalanceAppend(cycle, [stray], eq, p);
    assert Imbalance([stray], eq, p) == -Share(stray, 1, eq, p) + Imbalance([], eq, p);
    OtherEquivalent(cycle, stray.eq, stray.debtor);
    ImbalanceAppend(cycle, [stray], stray.eq, stray.debtor);
    assert Imbalance([stray], stray.eq, stray.debtor) == -Share(stray, 1, stray.eq, stray.debtor) + Imbalance([], stray.eq, stray.debtor);
  }

  /** Without the interlock a stray row of a second equivalent rides along with a cycle of the
      first: the attempt is taken and its debtor's position in the second equivalent rises,
      even if a reservation protects the row there. The interlock refuses it. */
  lemma StrayRowRidesAlong(d: Debts, eq: string, nodes: seq<Pid>, stray: DebtKey, blocked: iset<DebtKey>)
    requires WellFormed(d) && |nodes| > 1 && Distinct(nodes)
    requires forall k :: k in CycleRows(eq, nodes) ==> k in d && k !in blocked
    requires stray in d && stray.eq != eq && In(stray, eq) !in blocked
    ensures var rows := CycleRows(eq, nodes) + [stray];
            && Execute(d, rows, blocked, false).1 == Cleared(MinOwed(d, rows))
            && Position(Execute(d, rows, blocked, false).0, stray.eq, stray.debtor) > Position(d, stray.eq, stray.debtor)
            && Execute(d, rows, blocked, true) == (d, Refused)
  {
    var cycle := CycleRows(eq, nodes);
    var rows := cycle + [stray];
    CycleRowsDistinct(eq, nodes);
    hide CycleRows, Imbalance, Parties, Position, Lower, MinOwed;
    assert cycle[0] in cycle && rows[0] == cycle[0] && rows[|rows| - 1] == stray && stray in rows;
    assert stray !in cycle && Distinct(rows);
    assert forall k :: k in rows ==> k in cycle || k == stray;
    assert forall k :: k in cycle ==> In(k, eq) == k;
    assert Executable(d, rows, blocked, false);
    forall p ensures Imbalance(rows, eq, p) == 0 { StrayImbalance(eq, nodes, stray, p); }
    StrayImbalance(eq, nodes, stray, stray.debtor);
    ClearedIffBalanced(d, rows, blocked, false);
    ClearingMoves(d, rows, blocked, false, stray.eq, stray.debtor);
    assert !OneEquivalent(rows);
  }

  /** The input behind the condition: three hryvnia debts in a ring and one dollar debt. */
  lemma MixedSelectionMovesPositions()
    ensures var d: Debts := map[DebtKey("UAH", "A", "B") := 5, DebtKey("UAH", "B", "C") := 5, DebtKey("UAH", "C", "A") := 5, DebtKey("USD", "A", "B") := 5];
            var rows := CycleRows("UAH", ["A", "B", "C"]) + [DebtKey("USD", "A", "B")];
            WellFormed(d) && Position(Execute(d, rows, iset{}, false).0, "USD", "A") > Position(d, "USD", "A")
  {
    var d: Debts := map[DebtKey("UAH", "A", "B") := 5, DebtKey("UAH", "B", "C") := 5, DebtKey("UAH", "C", "A") := 5, DebtKey("USD", "A", "B") := 5];
    hide Position, Execute;
    var nodes := ["A", "B", "C"];
    var path := PathRows("UAH", nodes);
    assert path[0] == DebtKey("UAH", "A", "B") && path[1] == DebtKey("UAH", "B", "C");
    assert CycleRows("UAH", nodes) == path + [DebtKey("UAH", "C", "A")];
    StrayRowRidesAlong(d, "UAH", nodes, DebtKey("USD", "A", "B"), iset{});
  }
}
