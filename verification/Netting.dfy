/** Deriving debts from the used amounts of trust lines by netting mutual edges. */
module Netting {
  import opened Ledger
  import opened Flows
  import opened Lex

  datatype Used = Unreadable | Amount(value: int)

  /** A trust line of a seed: `from` trusts `to`; `used` may fail to parse. */
  datatype TrustLine = TrustLine(active: bool, eq: string, from: Pid, to: Pid, limit: int, used: Used)
  {
    /** The debt row the line controls. */
    function Key(): DebtKey { DebtKey(eq, to, from) }

    predicate Counts()
    {
      active && used.Amount? && used.value > 0 && eq != "" && to != "" && from != "" && to != from
    }
  }

  /** Used amounts by debt edge; a later line for the same edge replaces an earlier one. */
  function UsedByEdge(lines: seq<TrustLine>): (m: Debts)
    ensures WellFormed(m)
  {
    if lines == [] then map[] else
      var last := lines[|lines| - 1];
      var m := UsedByEdge(lines[..|lines| - 1]);
      if last.Counts() then m[last.Key() := last.used.value] else m
  }

  /** What is used of the line from `from` to `to`: the readable positive amount on the last
      active line between them; blank names and lines to oneself do not count. */
  function UsedOf(lines: seq<TrustLine>, eq: string, from: Pid, to: Pid): int
  {
    if lines == [] then 0 else
      var t := lines[|lines| - 1];
      if t.active && t.eq == eq && t.from == from && t.to == to && eq != "" && from != "" && to != "" && from != to
         && t.used.Amount? && t.used.value > 0
      then t.used.value
      else UsedOf(lines[..|lines| - 1], eq, from, to)
  }

  /** The trusted side is the debtor, the trusting side the creditor. */
  lemma {:induction false} UsedByEdgeIs(lines: seq<TrustLine>, eq: string, from: Pid, to: Pid)
    ensures Owed(UsedByEdge(lines), DebtKey(eq, to, from)) == UsedOf(lines, eq, from, to)
    decreases |lines|
  {
    if lines != [] {
      UsedByEdgeIs(lines[..|lines| - 1], eq, from, to);
    }
  }

  /** What is left of an edge after netting. */
  function Netted(used: Debts, k: DebtKey): int
  {
    if Net(used, k) > 0 then Net(used, k) else 0
  }

  datatype Row = Row(key: DebtKey, amount: int)

  /** The output order: by equivalent, then debtor, then creditor. */
  predicate KeyLess(a: DebtKey, b: DebtKey)
  {
    Less(a.eq, b.eq) || (a.eq == b.eq && (Less(a.debtor, b.debtor) || (a.debtor == b.debtor && Less(a.creditor, b.creditor))))
  }

  lemma KeyTrichotomy(a: DebtKey, b: DebtKey)
    ensures KeyLess(a, b) || a == b || KeyLess(b, a)
  {
    Trichotomy(a.eq, b.eq);
    Trichotomy(a.debtor, b.debtor);
    Trichotomy(a.creditor, b.creditor);
  }

  lemma KeyTransitive(a: DebtKey, b: DebtKey, c: DebtKey)
    requires KeyLess(a, b) && KeyLess(b, c)
    ensures KeyLess(a, c)
  {
    if Less(a.eq, b.eq) && Less(b.eq, c.eq) { Transitive(a.eq, b.eq, c.eq); }
    if Less(a.debtor, b.debtor) && Less(b.debtor, c.debtor) { Transitive(a.debtor, b.debtor, c.debtor); }
    if Less(a.creditor, b.creditor) && Less(b.creditor, c.creditor) { Transitive(a.creditor, b.creditor, c.creditor); }
  }

  ghost predicate SortedRows(rows: seq<Row>)
  {
    forall i, j :: 0 <= i < j < |rows| ==> KeyLess(rows[i].key, rows[j].key)
  }

  /** Insert a row whose key is new, keeping the order. */
  function Insert(rows: seq<Row>, r: Row): (s: seq<Row>)
  {
    if rows == [] then [r]
    else if KeyLess(r.key, rows[0].key) then [r] + rows
    else [rows[0]] + Insert(rows[1..], r)
  }

  lemma {:induction false} InsertKeeps(rows: seq<Row>, r: Row)
    requires SortedRows(rows) && forall x :: x in rows ==> x.key != r.key
    ensures SortedRows(Insert(rows, r))
    ensures forall x :: x in Insert(rows, r) <==> x == r || x in rows
    decreases |rows|
  {
    if rows == [] {
    } else if KeyLess(r.key, rows[0].key) {
      forall i | 0 < i < |rows| ensures KeyLess(r.key, rows[i].key) {
        KeyTransitive(r.key, rows[0].key, rows[i].key);
      }
    } else {
      var rest := Insert(rows[1..], r);
      assert rows[0] in rows;
      KeyTrichotomy(r.key, rows[0].key);
      InsertKeeps(rows[1..], r);
      forall x | x in rest ensures KeyLess(rows[0].key, x.key) {
        if x in rows[1..] {
          var i :| 0 <= i < |rows[1..]| && rows[1..][i] == x;
          assert rows[i + 1] == x;
        }
      }
      assert forall i :: 0 <= i < |rest| ==> rest[i] in rest;
      assert rows == [rows[0]] + rows[1..];
    }
  }

  /** The rows are exactly the positive netted amounts. */
  ghost predicate NettedRows(used: Debts, rows: seq<Row>)
  {
    && SortedRows(rows)
    && (forall r :: r in rows ==> Netted(used, r.key) > 0 && r.amount == Netted(used, r.key))
    && (forall k :: Netted(used, k) > 0 ==> Row(k, Netted(used, k)) in rows)
  }

  function PairOf(k: DebtKey): DebtKey
  {
    if Less(k.debtor, k.creditor) then k else k.Reverse()
  }

  lemma PairOfSame(k: DebtKey, j: DebtKey)
    requires PairOf(k) == PairOf(j)
    ensures k == j || k == j.Reverse()
  {
    assert k.Reverse().Reverse() == k && j.Reverse().Reverse() == j;
  }

  lemma PairOfReverse(k: DebtKey)
    requires k.debtor != k.creditor
    ensures PairOf(k) == PairOf(k.Reverse())
  {
    Trichotomy(k.debtor, k.creditor);
    assert k.Reverse().Reverse() == k;
  }

  /** Nets every mutual pair of used amounts and returns the remaining debts in order; the
      order in which edges are taken is left open. */
  method BuildDebts(lines: seq<TrustLine>) returns (rows: seq<Row>)
    ensures NettedRows(UsedByEdge(lines), rows)
    ensures forall eq, d, c, x :: Row(DebtKey(eq, d, c), x) in rows <==> x > 0 && x == UsedOf(lines, eq, c, d) - UsedOf(lines, eq, d, c)
    ensures forall i, j :: 0 <= i < j < |rows| ==>
              var a, b := rows[i].key, rows[j].key;
              Less(a.eq, b.eq) || (a.eq == b.eq && (Less(a.debtor, b.debtor) || (a.debtor == b.debtor && Less(a.creditor, b.creditor))))
  {
    var used: Debts := map[];
    for i := 0 to |lines|
      invariant used == UsedByEdge(lines[..i])
    {
      assert lines[..i + 1][..i] == lines[..i];
      if lines[i].Counts() {
        used := used[lines[i].Key() := lines[i].used.value];
      }
    }
    assert lines[..|lines|] == lines;
    rows := [];
    var seen: set<DebtKey> := {};
    var rest := used.Keys;
    while rest != {}
      invariant rest <= used.Keys
      invariant SortedRows(rows)
      invariant forall r :: r in rows ==> Netted(used, r.key) > 0 && r.amount == Netted(used, r.key) && PairOf(r.key) in seen
      invariant forall k :: PairOf(k) in seen && Netted(used, k) > 0 ==> Row(k, Netted(used, k)) in rows
      invariant forall k :: k in used && k !in rest ==> PairOf(k) in seen
      decreases rest
    {
      var k :| k in rest;
      rest := rest - {k};
      if PairOf(k) !in seen {
        rows := NetPair(used, rows, seen, k);
        seen := seen + {PairOf(k)};
      }
    }
    forall k | Netted(used, k) > 0 ensures Row(k, Netted(used, k)) in rows {
      assert k in used;
    }
    RowsAreDifferences(lines, rows);
  }

  /** Row by row: `d` owes `c` what was used of the line from `c` to `d` less what was used of
      the line from `d` to `c`, when that is positive. */
  lemma RowsAreDifferences(lines: seq<TrustLine>, rows: seq<Row>)
    requires NettedRows(UsedByEdge(lines), rows)
    ensures forall eq, d, c, x :: Row(DebtKey(eq, d, c), x) in rows <==> x > 0 && x == UsedOf(lines, eq, c, d) - UsedOf(lines, eq, d, c)
  {
    forall eq, d, c, x
      ensures Row(DebtKey(eq, d, c), x) in rows <==> x > 0 && x == UsedOf(lines, eq, c, d) - UsedOf(lines, eq, d, c)
    {
      RowIsDifference(lines, rows, eq, d, c, x);
    }
  }

  lemma RowIsDifference(lines: seq<TrustLine>, rows: seq<Row>, eq: string, d: Pid, c: Pid, x: int)
    requires NettedRows(UsedByEdge(lines), rows)
    ensures Row(DebtKey(eq, d, c), x) in rows <==> x > 0 && x == UsedOf(lines, eq, c, d) - UsedOf(lines, eq, d, c)
  {
    hide UsedByEdge, UsedOf, Owed, SortedRows;
    var used, r := UsedByEdge(lines), Row(DebtKey(eq, d, c), x);
    UsedByEdgeIs(lines, eq, c, d);
    UsedByEdgeIs(lines, eq, d, c);
    assert Net(used, r.key) == UsedOf(lines, eq, c, d) - UsedOf(lines, eq, d, c);
    assert r in rows ==> r.amount == Netted(used, r.key) > 0;
    assert Netted(used, r.key) > 0 ==> Row(r.key, Netted(used, r.key)) in rows;
  }

  /** One pair: the larger direction keeps the difference, equal amounts vanish. */
  method NetPair(used: Debts, rows0: seq<Row>, ghost seen: set<DebtKey>, k: DebtKey) returns (rows: seq<Row>)
    requires WellFormed(used) && k in used && PairOf(k) !in seen
    requires SortedRows(rows0)
    requires forall r :: r in rows0 ==> Netted(used, r.key) > 0 && r.amount == Netted(used, r.key) && PairOf(r.key) in seen
    requires forall j :: PairOf(j) in seen && Netted(used, j) > 0 ==> Row(j, Netted(used, j)) in rows0
    ensures SortedRows(rows)
    ensures forall r :: r in rows ==> Netted(used, r.key) > 0 && r.amount == Netted(used, r.key) && PairOf(r.key) in seen + {PairOf(k)}
    ensures forall j :: PairOf(j) in seen + {PairOf(k)} && Netted(used, j) > 0 ==> Row(j, Netted(used, j)) in rows
  {
    PairOfReverse(k);
    var ab, ba := used[k], Owed(used, k.Reverse());
    rows := rows0;
    if ab > ba {
      InsertKeeps(rows0, Row(k, ab - ba));
      rows := Insert(rows0, Row(k, ab - ba));
    } else if ab < ba {
      InsertKeeps(rows0, Row(k.Reverse(), ba - ab));
      rows := Insert(rows0, Row(k.Reverse(), ba - ab));
    }
    forall j | PairOf(j) == PairOf(k) && Netted(used, j) > 0 ensures Row(j, Netted(used, j)) in rows {
      PairOfSame(j, k);
    }
  }

  // ----- what netting preserves and guarantees -----

  /** The rows as a debt table. */
  ghost function Table(used: Debts): (d: Debts)
  {
    map k | k in used && Netted(used, k) > 0 :: Netted(used, k)
  }

  /** The returned rows are that table, row for row. */
  lemma RowsAreTable(used: Debts, rows: seq<Row>)
    requires WellFormed(used) && NettedRows(used, rows)
    ensures forall k :: k in Table(used) <==> exists r :: r in rows && r.key == k
    ensures forall r :: r in rows ==> r.key in Table(used) && Table(used)[r.key] == r.amount
    ensures |rows| == |Table(used)|
  {
    var d := Table(used);
    forall k | k in d ensures Row(k, d[k]) in rows {
    }
    forall r | r in rows ensures r.key in d {
    }
    RowCount(rows, d.Keys);
  }

  lemma {:induction false} RowCount(rows: seq<Row>, keys: set<DebtKey>)
    requires SortedRows(rows) && forall k :: k in keys <==> exists r :: r in rows && r.key == k
    ensures |rows| == |keys|
    decreases |rows|
  {
    if rows == [] {
      assert keys == {};
    } else {
      var init, last := rows[..|rows| - 1], rows[|rows| - 1];
      assert rows == init + [last];
      assert last in rows;
      forall r | r in init ensures r.key != last.key {
        var i :| 0 <= i < |init| && init[i] == r;
        NotLessThanItself(last.key);
        assert KeyLess(rows[i].key, rows[|rows| - 1].key);
      }
      forall k ensures k in keys - {last.key} <==> exists r :: r in init && r.key == k {
        if k in keys {
          var r :| r in rows && r.key == k;
        }
        if r :| r in init && r.key == k { assert r in rows; }
      }
      RowCount(init, keys - {last.key});
    }
  }

  lemma NotLessThanItself(k: DebtKey)
    ensures !KeyLess(k, k)
  {
    Trichotomy(k.eq, k.eq);
    Trichotomy(k.debtor, k.debtor);
    Trichotomy(k.creditor, k.creditor);
  }

  /** Netting pair by pair, in any order that covers every edge. */
  function NetAll(d: Debts, order: seq<DebtKey>): Debts
  {
    if order == [] then d else NetMutual(NetAll(d, order[..|order| - 1]), order[|order| - 1])
  }

  lemma {:induction false} NetAllKeeps(d: Debts, order: seq<DebtKey>, eq: string, p: Pid)
    requires WellFormed(d)
    ensures WellFormed(NetAll(d, order)) && Position(NetAll(d, order), eq, p) == Position(d, eq, p)
    ensures forall k :: Net(NetAll(d, order), k) == Net(d, k)
    ensures forall k :: k in order ==> !(k in NetAll(d, order) && k.Reverse() in NetAll(d, order))
    ensures NetAll(d, order).Keys <= d.Keys
    decreases |order|
  {
    if order != [] {
      var init, last := order[..|order| - 1], order[|order| - 1];
      NetAllKeeps(d, init, eq, p);
      var before := NetAll(d, init);
      NetMutualPosition(before, last, eq, p);
      NetMutualShape(before, last);
      assert order == init + [last];
    }
  }

  lemma NetMutualShape(d: Debts, k: DebtKey)
    requires WellFormed(d)
    ensures WellFormed(NetMutual(d, k)) && NetMutual(d, k).Keys <= d.Keys
    ensures forall j :: Net(NetMutual(d, k), j) == Net(d, j)
    ensures !(k in NetMutual(d, k) && k.Reverse() in NetMutual(d, k))
  {
    assert k.Reverse().Reverse() == k;
    forall j ensures Net(NetMutual(d, k), j) == Net(d, j) && (j in NetMutual(d, k) ==> j in d && NetMutual(d, k)[j] > 0) {
      assert j.Reverse().Reverse() == j;
      assert Owed(NetMutual(d, k), j) >= 0;
    }
  }

  /** Netting moves nobody's net position in any equivalent. */
  lemma NettingKeepsPositions(used: Debts, eq: string, p: Pid)
    requires WellFormed(used)
    ensures Position(Table(used), eq, p) == Position(used, eq, p)
  {
    var order := Enumerate(used.Keys);
    NetAllKeeps(used, order, eq, p);
    var n := NetAll(used, order);
    forall k | k in n ensures k.Reverse() !in n {
      assert k in order;
    }
    TableShape(used);
    forall k ensures Net(n, k) == Net(Table(used), k) {
      NetOfTable(used, k);
    }
    NetDeterminesTable(n, Table(used));
  }

  ghost function Enumerate(s: set<DebtKey>): (r: seq<DebtKey>)
    ensures forall k :: k in r <==> k in s
  {
    if s == {} then [] else
      var x :| x in s;
      [x] + Enumerate(s - {x})
  }

  lemma NetOfTable(used: Debts, k: DebtKey)
    requires WellFormed(used)
    ensures Net(Table(used), k) == Net(used, k)
    ensures Owed(Table(used), k) == Netted(used, k)
  {
    assert k.Reverse().Reverse() == k;
    assert Net(used, k.Reverse()) == -Net(used, k);
    assert Netted(used, k) > 0 ==> k in used;
    assert Netted(used, k.Reverse()) > 0 ==> k.Reverse() in used;
  }

  /** At most one direction per pair, every amount positive and no larger than was used. */
  lemma TableShape(used: Debts)
    requires WellFormed(used)
    ensures WellFormed(Table(used)) && Symmetric(Table(used))
    ensures forall k :: k in Table(used) ==> Table(used)[k] <= used[k]
  {
    forall k | k in Table(used) ensures k.Reverse() !in Table(used) && Table(used)[k] <= used[k] {
      assert k.Reverse().Reverse() == k;
      assert Owed(used, k.Reverse()) >= 0;
    }
  }

  /** Used amounts on the lines `p` grants less those on the lines granted to it. */
  function Granted(lines: seq<TrustLine>, eq: string, p: Pid): int
  {
    if lines == [] then 0 else
      var t := lines[|lines| - 1];
      var used := if t.active && t.eq == eq && t.used.Amount? && t.used.value > 0 then t.used.value else 0;
      Granted(lines[..|lines| - 1], eq, p) + (if t.from == p then used else 0) - (if t.to == p then used else 0)
  }

  /** Named end points and an equivalent, and no two active lines between the same ends. */
  ghost predicate ProperLines(lines: seq<TrustLine>)
  {
    && (forall i :: 0 <= i < |lines| ==> lines[i].eq != "" && lines[i].from != "" && lines[i].to != "" && lines[i].from != lines[i].to)
    && forall i, j :: 0 <= i < j < |lines| && lines[i].active && lines[j].active ==>
         lines[i].eq != lines[j].eq || lines[i].from != lines[j].from || lines[i].to != lines[j].to
  }

  lemma {:induction false} UnusedUntilListed(lines: seq<TrustLine>, t: TrustLine)
    requires forall i :: 0 <= i < |lines| && lines[i].active ==> lines[i].eq != t.eq || lines[i].from != t.from || lines[i].to != t.to
    ensures UsedOf(lines, t.eq, t.from, t.to) == 0
    decreases |lines|
  {
    if lines != [] {
      UnusedUntilListed(lines[..|lines| - 1], t);
    }
  }

  lemma {:induction false} UsedPosition(lines: seq<TrustLine>, eq: string, p: Pid)
    requires ProperLines(lines)
    ensures Position(UsedByEdge(lines), eq, p) == Granted(lines, eq, p)
    decreases |lines|
  {
    if lines != [] {
      var init, t := lines[..|lines| - 1], lines[|lines| - 1];
      UsedPosition(init, eq, p);
      if t.Counts() {
        var m := UsedByEdge(init);
        UnusedUntilListed(init, t);
        UsedByEdgeIs(init, t.eq, t.from, t.to);
        PositionSet(m, t.Key(), t.used.value, eq, p);
        assert UsedByEdge(lines) == SetOwed(m, t.Key(), t.used.value);
      }
    }
  }

  /** After netting every participant stands at what was used of the lines it grants less what
      was used of the lines granted to it. */
  lemma NettedPosition(lines: seq<TrustLine>, eq: string, p: Pid)
    requires ProperLines(lines)
    ensures Position(Table(UsedByEdge(lines)), eq, p) == Granted(lines, eq, p)
  {
    UsedPosition(lines, eq, p);
    NettingKeepsPositions(UsedByEdge(lines), eq, p);
  }

  /** The seed's own limits, active lines only. */
  ghost predicate LinesOf(lines: Lines, tls: seq<TrustLine>)
  {
    forall i :: 0 <= i < |tls| && tls[i].active ==>
      DebtKey(tls[i].eq, tls[i].to, tls[i].from) in lines && lines[DebtKey(tls[i].eq, tls[i].to, tls[i].from)] == tls[i].limit
  }

  ghost predicate UsedWithinLimit(tls: seq<TrustLine>)
  {
    forall i :: 0 <= i < |tls| && tls[i].active && tls[i].used.Amount? ==> tls[i].used.value <= tls[i].limit
  }

  lemma {:induction false} UsedComesFromALine(tls: seq<TrustLine>, k: DebtKey)
    requires k in UsedByEdge(tls)
    ensures exists i :: 0 <= i < |tls| && tls[i].Counts() && tls[i].Key() == k && UsedByEdge(tls)[k] == tls[i].used.value
    decreases |tls|
  {
    var n := |tls| - 1;
    if tls[n].Counts() && tls[n].Key() == k {
      assert 0 <= n < |tls|;
    } else {
      UsedComesFromALine(tls[..n], k);
      var i :| 0 <= i < n && tls[..n][i].Counts() && tls[..n][i].Key() == k && UsedByEdge(tls[..n])[k] == tls[..n][i].used.value;
      assert tls[i] == tls[..n][i];
    }
  }

  /** With used amounts inside their limits, the derived debts pass the trust-limit and the
      symmetry check, for every filter those checks accept: every row is within its line and no
      pair owes both ways. `LinesOf` is satisfiable exactly
      when active lines for one edge agree on the limit, as distinct ones do. */
  lemma NettedDebtsPassChecks(tls: seq<TrustLine>, lines: Lines)
    requires LinesOf(lines, tls) && UsedWithinLimit(tls)
    ensures var d := Table(UsedByEdge(tls));
            forall k :: k in d ==> k in lines && d[k] <= lines[k] && k.Reverse() !in d
  {
    var used := UsedByEdge(tls);
    var d := Table(used);
    TableShape(used);
    forall k | k in d ensures k in lines && d[k] <= lines[k] && k.Reverse() !in d {
      UsedComesFromALine(tls, k);
    }
  }
}
