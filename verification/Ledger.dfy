/** The debt table: rows keyed by equivalent, debtor and creditor, amounts in atoms, and
    the net positions they give each participant. */
module Ledger {
  import opened Sums

  type Pid = string

  datatype DebtKey = DebtKey(eq: string, debtor: Pid, creditor: Pid)
  {
    function Reverse(): DebtKey { DebtKey(eq, creditor, debtor) }
  }

  /** The table's uniqueness constraint makes it a map. */
  type Debts = map<DebtKey, int>

  /** The table's check constraints: positive amounts, nobody owes himself. */
  ghost predicate WellFormed(d: Debts)
  {
    forall k :: k in d ==> d[k] > 0 && k.debtor != k.creditor
  }

  function Owed(d: Debts, k: DebtKey): (r: int)
  {
    if k in d then d[k] else 0
  }

  /** Writing an amount to a row; a row that reaches zero is deleted. */
  function SetOwed(d: Debts, k: DebtKey, v: int): (r: Debts)
    ensures forall j :: Owed(r, j) == if j == k then v else Owed(d, j)
    ensures forall j :: j in r <==> if j == k then v != 0 else j in d
  {
    if v == 0 then map j | j in d && j != k :: d[j] else d[k := v]
  }

  /** The limits of the active trust lines, keyed by the debt row each allows: the debtor is
      the trusted side, the creditor the trusting one. */
  type Lines = map<DebtKey, int>

  /** A missing line counts as limit zero. */
  function Limit(lines: Lines, k: DebtKey): (r: int)
  {
    if k in lines then lines[k] else 0
  }

  /** A missing entry of a table of totals counts as zero. */
  function Get<K>(m: map<K, int>, k: K): int
  {
    if k in m then m[k] else 0
  }

  /** How row `k` with amount `v` counts for participant `p`: credits minus debts. */
  function Share(k: DebtKey, v: int, eq: string, p: Pid): int
  {
    if k.eq != eq then 0
    else (if k.creditor == p then v else 0) - (if k.debtor == p then v else 0)
  }

  /** Net position: credits minus debts over the rows of one equivalent. */
  ghost function Position(d: Debts, eq: string, p: Pid): int
  {
    Sum(d.Keys, (k: DebtKey) => Share(k, Owed(d, k), eq, p))
  }

  /** What `a` owes `b` less what `b` owes `a`. */
  function Net(d: Debts, k: DebtKey): int
  {
    Owed(d, k) - Owed(d, k.Reverse())
  }

  ghost predicate Symmetric(d: Debts)
  {
    forall k :: k in d ==> k.Reverse() !in d
  }

  /** Positions depend only on the amounts, and summing over more keys changes nothing. */
  lemma PositionOver(d: Debts, keys: set<DebtKey>, eq: string, p: Pid)
    requires d.Keys <= keys
    ensures Position(d, eq, p) == Sum(keys, (k: DebtKey) => Share(k, Owed(d, k), eq, p))
  {
    SumSupport(keys, d.Keys, (k: DebtKey) => Share(k, Owed(d, k), eq, p));
  }

  /** Changing one row moves each position by that row's share of the change. */
  lemma PositionSet(d: Debts, k: DebtKey, v: int, eq: string, p: Pid)
    ensures Position(SetOwed(d, k, v), eq, p) == Position(d, eq, p) + Share(k, v - Owed(d, k), eq, p)
  {
    var d' := SetOwed(d, k, v);
    var keys := d.Keys + {k};
    var f := (j: DebtKey) => Share(j, Owed(d, j), eq, p);
    var g := (j: DebtKey) => Share(j, Owed(d', j), eq, p);
    PositionOver(d, keys, eq, p);
    PositionOver(d', keys, eq, p);
    SumRemove(keys, f, k);
    SumRemove(keys, g, k);
    SumCongruent(keys - {k}, f, g);
  }

  /** A single debt counts for its creditor and against its debtor. */
  lemma OneDebtPosition(eq: string, a: Pid, b: Pid, v: int)
    requires a != b
    ensures Position(map[DebtKey(eq, a, b) := v], eq, b) == v
    ensures Position(map[DebtKey(eq, a, b) := v], eq, a) == -v
  {
    var k, none: Debts := DebtKey(eq, a, b), map[];
    if v == 0 {
      var d := map[k := v];
      SumZero(d.Keys, (j: DebtKey) => Share(j, Owed(d, j), eq, a));
      SumZero(d.Keys, (j: DebtKey) => Share(j, Owed(d, j), eq, b));
    } else {
      assert map[k := v] == SetOwed(none, k, v);
      PositionSet(none, k, v, eq, a);
      PositionSet(none, k, v, eq, b);
    }
  }

  // ----- zero sum -----

  ghost predicate Covers(people: set<Pid>, d: Debts, eq: string)
  {
    forall k :: k in d && k.eq == eq ==> k.debtor in people && k.creditor in people
  }

  /** One row's credit and debit cancel over everybody involved. */
  lemma ShareCancels(k: DebtKey, v: int, eq: string, people: set<Pid>)
    requires k.eq == eq ==> k.debtor in people && k.creditor in people
    ensures Sum(people, (p: Pid) => Share(k, v, eq, p)) == 0
  {
    var f := (p: Pid) => Share(k, v, eq, p);
    if k.eq != eq || k.debtor == k.creditor {
      SumZero(people, f);
    } else {
      SumRemove(people, f, k.debtor);
      SumRemove(people - {k.debtor}, f, k.creditor);
      SumZero(people - {k.debtor} - {k.creditor}, f);
    }
  }

  /** In every debt table whatsoever the net positions of one equivalent add up to zero. */
  lemma {:induction false} ZeroSum(d: Debts, eq: string, people: set<Pid>)
    requires Covers(people, d, eq)
    ensures Sum(people, (p: Pid) => Position(d, eq, p)) == 0
    decreases d.Keys
  {
    var f := (p: Pid) => Position(d, eq, p);
    if d.Keys == {} {
      SumZero(people, f);
    } else {
      var k :| k in d;
      var rest := SetOwed(d, k, 0);
      var g := (p: Pid) => Position(rest, eq, p);
      var h := (p: Pid) => Share(k, Owed(d, k), eq, p);
      assert rest.Keys == d.Keys - {k};
      forall p | p in people ensures f(p) == g(p) + h(p) {
        PositionSet(d, k, 0, eq, p);
      }
      SumPlus(people, g, h, f);
      ShareCancels(k, Owed(d, k), eq, people);
      ZeroSum(rest, eq, people);
    }
  }
}
