/** The invariant checker: read-only queries over the debt and trust-line tables. */
module Checker {
  import opened Options
  import opened Sums
  import opened Ledger
  import opened Lex

  // ----- net positions and zero sum -----

  ghost function ShareOf(d: Debts, eq: string, p: Pid): DebtKey -> int
  {
    (k: DebtKey) => Share(k, Owed(d, k), eq, p)
  }

  lemma PositionIsSum(d: Debts, eq: string, p: Pid)
    ensures Position(d, eq, p) == Sum(d.Keys, ShareOf(d, eq, p))
  {
    SumCongruent(d.Keys, ShareOf(d, eq, p), (k: DebtKey) => Share(k, Owed(d, k), eq, p));
  }

  /** Net position = credits - debts. */
  method NetPosition(d: Debts, eq: string, p: Pid) returns (net: int)
    ensures net == Position(d, eq, p)
  {
    var credits, debts := 0, 0;
    var rest := d.Keys;
    ghost var f := ShareOf(d, eq, p);
    while rest != {}
      invariant rest <= d.Keys
      invariant credits - debts == Sum(d.Keys - rest, f)
      decreases rest
    {
      var k :| k in rest;
      if k.eq == eq && k.creditor == p { credits := credits + d[k]; }
      if k.eq == eq && k.debtor == p { debts := debts + d[k]; }
      SumInsert(d.Keys - rest, f, k);
      assert d.Keys - rest + {k} == d.Keys - (rest - {k});
      rest := rest - {k};
    }
    assert d.Keys - rest == d.Keys;
    PositionIsSum(d, eq, p);
    net := credits - debts;
  }

  /** The totals of the rows grouped so far. */
  ghost predicate Totals(d: Debts, eq: string, rows: set<DebtKey>, credits: map<Pid, int>, debts: map<Pid, int>)
  {
    forall p :: Get(credits, p) - Get(debts, p) == Sum(rows, ShareOf(d, eq, p))
  }

  lemma TotalsSkip(d: Debts, eq: string, rows: set<DebtKey>, k: DebtKey, credits: map<Pid, int>, debts: map<Pid, int>)
    requires Totals(d, eq, rows, credits, debts) && k in d && k !in rows && k.eq != eq
    ensures Totals(d, eq, rows + {k}, credits, debts)
  {
    forall p ensures Get(credits, p) - Get(debts, p) == Sum(rows + {k}, ShareOf(d, eq, p)) {
      SumInsert(rows, ShareOf(d, eq, p), k);
    }
  }

  lemma TotalsAdd(d: Debts, eq: string, rows: set<DebtKey>, k: DebtKey, credits: map<Pid, int>, debts: map<Pid, int>)
    requires Totals(d, eq, rows, credits, debts) && k in d && k !in rows && k.eq == eq
    ensures Totals(d, eq, rows + {k}, credits[k.creditor := Get(credits, k.creditor) + d[k]], debts[k.debtor := Get(debts, k.debtor) + d[k]])
  {
    var credits', debts' := credits[k.creditor := Get(credits, k.creditor) + d[k]], debts[k.debtor := Get(debts, k.debtor) + d[k]];
    forall p ensures Get(credits', p) - Get(debts', p) == Sum(rows + {k}, ShareOf(d, eq, p)) {
      SumInsert(rows, ShareOf(d, eq, p), k);
      assert Get(credits, p) - Get(debts, p) == Sum(rows, ShareOf(d, eq, p));
      assert Get(credits', p) - Get(debts', p) == Get(credits, p) - Get(debts, p) + Share(k, d[k], eq, p);
    }
  }

  lemma TotalsArePositions(d: Debts, eq: string, credits: map<Pid, int>, debts: map<Pid, int>)
    requires Totals(d, eq, d.Keys, credits, debts)
    ensures forall p :: Get(credits, p) - Get(debts, p) == Position(d, eq, p)
  {
    forall p ensures Get(credits, p) - Get(debts, p) == Position(d, eq, p) {
      PositionIsSum(d, eq, p);
    }
  }

  /** The two grouped queries: totals by creditor and totals by debtor. */
  method GroupTotals(d: Debts, eq: string) returns (credits: map<Pid, int>, debts: map<Pid, int>)
    ensures forall p :: Get(credits, p) - Get(debts, p) == Position(d, eq, p)
    ensures Covers(credits.Keys + debts.Keys, d, eq)
  {
    hide Position, Get;
    credits, debts := map[], map[];
    var rest := d.Keys;
    assert Totals(d, eq, d.Keys - rest, credits, debts) by { NoTotals(d, eq); assert d.Keys - rest == {}; }
    hide Totals;
    while rest != {}
      invariant rest <= d.Keys
      invariant Totals(d, eq, d.Keys - rest, credits, debts)
      invariant forall k :: k in d && k !in rest && k.eq == eq ==> k.creditor in credits && k.debtor in debts
      decreases rest
    {
      var k :| k in rest;
      if k.eq == eq {
        TotalsAdd(d, eq, d.Keys - rest, k, credits, debts);
        credits := credits[k.creditor := Get(credits, k.creditor) + d[k]];
        debts := debts[k.debtor := Get(debts, k.debtor) + d[k]];
      } else {
        TotalsSkip(d, eq, d.Keys - rest, k, credits, debts);
      }
      assert d.Keys - rest + {k} == d.Keys - (rest - {k});
      rest := rest - {k};
    }
    assert d.Keys - rest == d.Keys;
    TotalsArePositions(d, eq, credits, debts);
  }

  lemma NoTotals(d: Debts, eq: string)
    ensures Totals(d, eq, {}, map[], map[])
  {
  }

  /** The imbalance of an equivalent is zero for every debt table, so the zero-sum check
      accepts all of them. */
  method ComputeImbalance(d: Debts, eq: string) returns (total: int)
    ensures total == 0
  {
    var credits, debts := GroupTotals(d, eq);
    var people := credits.Keys + debts.Keys;
    var rest := people;
    ghost var f := (p: Pid) => Position(d, eq, p);
    total := 0;
    while rest != {}
      invariant rest <= people
      invariant total == Sum(people - rest, f)
      decreases rest
    {
      var p :| p in rest;
      total := total + (Get(credits, p) - Get(debts, p));
      SumInsert(people - rest, f, p);
      assert people - rest + {p} == people - (rest - {p});
      rest := rest - {p};
    }
    assert people - rest == people;
    ZeroSum(d, eq, people);
  }

  // ----- trust limits -----

  /** The optional filters: an equivalent, and a list of (debtor, creditor) pairs that
      restricts only when it is not empty. */
  predicate Selected(k: DebtKey, eq: Option<string>, pairs: seq<(Pid, Pid)>)
  {
    (eq.None? || k.eq == eq.value) && (pairs == [] || (k.debtor, k.creditor) in pairs)
  }

  datatype LimitViolation = LimitViolation(key: DebtKey, debt: int, limit: int)
  {
    function Excess(): int { debt - limit }
  }

  predicate OverLimit(d: Debts, lines: Lines, k: DebtKey)
  {
    k in d && d[k] > Limit(lines, k)
  }

  /** A report entry states the row's debt, its limit, and a positive excess. */
  predicate Exceeds(d: Debts, lines: Lines, v: LimitViolation)
  {
    OverLimit(d, lines, v.key) && v.debt == d[v.key] && v.limit == Limit(lines, v.key) && v.Excess() > 0
  }

  /** Reports every selected debt above its line, each once, with its excess. */
  method CheckTrustLimits(d: Debts, lines: Lines, eq: Option<string>, pairs: seq<(Pid, Pid)>)
    returns (violations: seq<LimitViolation>)
    ensures forall v :: v in violations ==> Exceeds(d, lines, v) && Selected(v.key, eq, pairs)
    ensures forall k :: OverLimit(d, lines, k) && Selected(k, eq, pairs) ==> exists v :: v in violations && v.key == k
    ensures forall k, debt, limit ::
              LimitViolation(k, debt, limit) in violations <==>
                && k in d && debt == d[k] && limit == (if k in lines then lines[k] else 0) && debt > limit
                && (eq.Some? ==> k.eq == eq.value) && (pairs != [] ==> (k.debtor, k.creditor) in pairs)
    ensures forall i, j :: 0 <= i < j < |violations| ==> violations[i].key != violations[j].key
  {
    violations := [];
    var rest := d.Keys;
    while rest != {}
      invariant rest <= d.Keys
      invariant forall v :: v in violations ==> Exceeds(d, lines, v) && Selected(v.key, eq, pairs) && v.key !in rest
      invariant forall k :: k !in rest && OverLimit(d, lines, k) && Selected(k, eq, pairs)
                  ==> LimitViolation(k, d[k], Limit(lines, k)) in violations
      invariant forall i, j :: 0 <= i < j < |violations| ==> violations[i].key != violations[j].key
      decreases rest
    {
      var k :| k in rest;
      rest := rest - {k};
      if Selected(k, eq, pairs) && d[k] > Limit(lines, k) {
        assert forall i :: 0 <= i < |violations| ==> violations[i] in violations;
        violations := violations + [LimitViolation(k, d[k], Limit(lines, k))];
      }
    }
    forall k | OverLimit(d, lines, k) && Selected(k, eq, pairs) ensures exists v :: v in violations && v.key == k {
      assert LimitViolation(k, d[k], Limit(lines, k)) in violations;
    }
  }

  // ----- symmetry -----

  predicate MutualAt(d: Debts, k: DebtKey)
  {
    Owed(d, k) > 0 && Owed(d, k.Reverse()) > 0
  }

  predicate PairSelected(k: DebtKey, eq: Option<string>, pairs: seq<(Pid, Pid)>)
  {
    (eq.None? || k.eq == eq.value) && (pairs == [] || (k.debtor, k.creditor) in pairs || (k.creditor, k.debtor) in pairs)
  }

  /** Reports each selected mutual pair once, from its smaller participant; an empty report
      means no selected pair owes both ways. */
  method CheckDebtSymmetry(d: Debts, eq: Option<string>, pairs: seq<(Pid, Pid)>) returns (violations: seq<DebtKey>)
    requires WellFormed(d)
    ensures forall k :: k in violations <==> MutualAt(d, k) && PairSelected(k, eq, pairs) && Less(k.debtor, k.creditor)
    ensures violations == [] <==> forall k :: PairSelected(k, eq, pairs) ==> !MutualAt(d, k)
    ensures forall e, a, b ::
              DebtKey(e, a, b) in violations <==>
                && DebtKey(e, a, b) in d && DebtKey(e, b, a) in d && Less(a, b)
                && (eq.Some? ==> e == eq.value) && (pairs != [] ==> (a, b) in pairs || (b, a) in pairs)
    ensures forall i, j :: 0 <= i < j < |violations| ==> violations[i] != violations[j]
  {
    violations := [];
    var rest := d.Keys;
    while rest != {}
      invariant rest <= d.Keys
      invariant forall k :: k in violations <==> k in d && k !in rest && MutualAt(d, k) && PairSelected(k, eq, pairs) && Less(k.debtor, k.creditor)
      invariant forall i, j :: 0 <= i < j < |violations| ==> violations[i] != violations[j]
      decreases rest
    {
      var k :| k in rest;
      if k.Reverse() in d && d[k] > 0 && d[k.Reverse()] > 0 && PairSelected(k, eq, pairs) && Less(k.debtor, k.creditor) {
        assert k !in violations;
        violations := violations + [k];
      }
      rest := rest - {k};
    }
    forall k | PairSelected(k, eq, pairs) && MutualAt(d, k) ensures violations != [] {
      Trichotomy(k.debtor, k.creditor);
      assert k.Reverse().Reverse() == k;
      assert k in violations || k.Reverse() in violations;
    }
    if violations != [] {
      assert violations[0] in violations;
    }
  }

  // ----- clearing neutrality -----

  /** Participants whose net position differs from the one recorded before; those without a
      record are compared with zero. */
  method VerifyClearingNeutrality(d: Debts, cycle: seq<Pid>, eq: string, before: map<Pid, int>) returns (violations: seq<Pid>)
    ensures forall p :: p in violations <==> p in cycle && Position(d, eq, p) != Get(before, p)
    ensures violations == [] <==> forall p :: p in cycle ==> Position(d, eq, p) == Get(before, p)
  {
    violations := [];
    for i := 0 to |cycle|
      invariant forall p :: p in violations <==> p in cycle[..i] && Position(d, eq, p) != Get(before, p)
    {
      assert cycle[..i + 1] == cycle[..i] + [cycle[i]];
      var after := NetPosition(d, eq, cycle[i]);
      if Get(before, cycle[i]) != after {
        violations := violations + [cycle[i]];
      }
    }
    assert cycle[..|cycle|] == cycle;
    if violations != [] {
      assert violations[0] in violations;
    }
  }
}
