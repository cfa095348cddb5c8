/** The integrity checkpoint: a canonical text of one equivalent's debts and trust lines, and
    the status the invariant checks give it. */
module Integrity {
  import opened Options
  import opened Lex
  import opened Ledger
  import Checker

  // ----- a canonical order for rows with total keys -----

  /** A stored row: its sort key and the fields that are rendered. */
  datatype Row = Row(key: seq<string>, fields: seq<string>)

  /** Column by column, as ORDER BY compares. */
  predicate KeyLess(a: seq<string>, b: seq<string>)
  {
    if b == [] then false
    else if a == [] then true
    else if a[0] != b[0] then Less(a[0], b[0])
    else KeyLess(a[1..], b[1..])
  }

  lemma {:induction false} KeyTrichotomy(a: seq<string>, b: seq<string>)
    ensures KeyLess(a, b) || a == b || KeyLess(b, a)
    ensures !(KeyLess(a, b) && KeyLess(b, a))
    decreases |a|
  {
    if a != [] && b != [] {
      Trichotomy(a[0], b[0]);
      KeyTrichotomy(a[1..], b[1..]);
      assert a == [a[0]] + a[1..] && b == [b[0]] + b[1..];
    }
  }

  /** Two columns compare by the first, and by the second where the first agrees. */
  lemma KeyLessTwo(a: seq<string>, b: seq<string>)
    requires |a| == |b| >= 2 && KeyLess(a, b)
    ensures Less(a[0], b[0]) || (a[0] == b[0] && (Less(a[1], b[1]) || (a[1] == b[1] && |a| > 2)))
  {
    assert a[0] == b[0] ==> KeyLess(a[1..], b[1..]);
    assert a[1..][0] == a[1] && b[1..][0] == b[1];
    if a[0] == b[0] && a[1] == b[1] && |a| == 2 {
      assert a == b;
      KeyTrichotomy(a, b);
    }
    if a[0] == b[0] && a[1] != b[1] {
      assert Less(a[1..][0], b[1..][0]);
    }
  }

  lemma {:induction false} KeyTransitive(a: seq<string>, b: seq<string>, c: seq<string>)
    requires KeyLess(a, b) && KeyLess(b, c)
    ensures KeyLess(a, c)
    decreases |a|
  {
    if a != [] {
      if a[0] == b[0] && b[0] == c[0] {
        KeyTransitive(a[1..], b[1..], c[1..]);
      } else if a[0] != b[0] && b[0] != c[0] {
        Transitive(a[0], b[0], c[0]);
        Trichotomy(a[0], c[0]);
      }
    }
  }

  ghost predicate Sorted(rows: seq<Row>)
  {
    forall i, j :: 0 <= i < j < |rows| ==> KeyLess(rows[i].key, rows[j].key)
  }

  ghost predicate UniqueKeys(rows: seq<Row>)
  {
    forall i, j :: 0 <= i < j < |rows| ==> rows[i].key != rows[j].key
  }

  function Insert(rows: seq<Row>, r: Row): (s: seq<Row>)
    ensures forall x :: x in s <==> x == r || x in rows
  {
    if rows == [] then [r]
    else if KeyLess(r.key, rows[0].key) then [r] + rows
    else
      assert rows == [rows[0]] + rows[1..];
      [rows[0]] + Insert(rows[1..], r)
  }

  lemma {:induction false} InsertSorted(rows: seq<Row>, r: Row)
    requires Sorted(rows) && forall x :: x in rows ==> x.key != r.key
    ensures Sorted(Insert(rows, r))
    decreases |rows|
  {
    if rows != [] {
      assert rows[0] in rows;
      KeyTrichotomy(r.key, rows[0].key);
      if KeyLess(r.key, rows[0].key) {
        forall i | 0 < i < |rows| ensures KeyLess(r.key, rows[i].key) {
          KeyTransitive(r.key, rows[0].key, rows[i].key);
        }
      } else {
        var rest := Insert(rows[1..], r);
        InsertSorted(rows[1..], r);
        forall x | x in rest ensures KeyLess(rows[0].key, x.key) {
          if x != r {
            var i :| 0 <= i < |rows[1..]| && rows[1..][i] == x;
            assert rows[i + 1] == x;
          }
        }
        assert forall i :: 0 <= i < |rest| ==> rest[i] in rest;
      }
    }
  }

  /** The ordered query result. */
  function Order(rows: seq<Row>): (s: seq<Row>)
    ensures forall x :: x in s <==> x in rows
  {
    if rows == [] then [] else
      assert rows == rows[..|rows| - 1] + [rows[|rows| - 1]];
      Insert(Order(rows[..|rows| - 1]), rows[|rows| - 1])
  }

  lemma {:induction false} OrderSorted(rows: seq<Row>)
    requires UniqueKeys(rows)
    ensures Sorted(Order(rows))
    decreases |rows|
  {
    if rows != [] {
      var init, last := rows[..|rows| - 1], rows[|rows| - 1];
      OrderSorted(init);
      forall x | x in Order(init) ensures x.key != last.key {
        var i :| 0 <= i < |init| && init[i] == x;
        assert rows[i] == x;
      }
      InsertSorted(Order(init), last);
    }
  }

  /** A set of rows with unique keys has one sorted listing. */
  lemma {:induction false} SortedUnique(a: seq<Row>, b: seq<Row>)
    requires Sorted(a) && Sorted(b) && forall x :: x in a <==> x in b
    ensures a == b
    decreases |a|
  {
    if a == [] {
      assert forall i :: 0 <= i < |b| ==> b[i] in b;
    } else {
      assert a[0] in b;
      FirstIsLeast(a, b);
      assert a == [a[0]] + a[1..] && b == [b[0]] + b[1..];
      forall x ensures x in a[1..] <==> x in b[1..] {
        HeadNotInTail(a);
        HeadNotInTail(b);
        assert x in a <==> x in b;
      }
      SortedUnique(a[1..], b[1..]);
    }
  }

  lemma HeadNotInTail(a: seq<Row>)
    requires Sorted(a) && a != []
    ensures a[0] !in a[1..]
  {
    KeyTrichotomy(a[0].key, a[0].key);
  }

  lemma FirstIsLeast(a: seq<Row>, b: seq<Row>)
    requires Sorted(a) && Sorted(b) && a != [] && forall x :: x in a <==> x in b
    ensures b != [] && a[0] == b[0]
  {
    assert a[0] in a && a[0] in b;
    assert b[0] in b && b[0] in a;
    KeyTrichotomy(a[0].key, b[0].key);
  }

  /** The order in which the database stores or scans the rows cannot show. */
  lemma StorageOrderIrrelevant(a: seq<Row>, b: seq<Row>)
    requires UniqueKeys(a) && UniqueKeys(b) && forall x :: x in a <==> x in b
    ensures Order(a) == Order(b)
  {
    OrderSorted(a);
    OrderSorted(b);
    SortedUnique(Order(a), Order(b));
  }

  // ----- the text -----

  function Join(fields: seq<string>): (t: string)
  {
    if fields == [] then []
    else if |fields| == 1 then fields[0]
    else fields[0] + ['|'] + Join(fields[1..])
  }

  function Text(lines: seq<seq<string>>): (t: string)
  {
    if lines == [] then [] else Join(lines[0]) + ['\n'] + Text(lines[1..])
  }

  /** Fields contain neither separator. */
  predicate Clean(f: string)
  {
    '|' !in f && '\n' !in f
  }

  predicate CleanLine(l: seq<string>)
  {
    l != [] && forall f :: f in l ==> Clean(f)
  }

  /** The first separator splits a text in one way only. */
  lemma {:induction false} SplitUnique(c: char, a: string, x: string, b: string, y: string)
    requires c !in a && c !in b && a + [c] + x == b + [c] + y
    ensures a == b && x == y
    decreases |a|
  {
    var s, u := a + [c] + x, b + [c] + y;
    assert s[0] == (if a == [] then c else a[0]) && u[0] == (if b == [] then c else b[0]);
    if a == [] {
      assert b == [];
      assert s[1..] == x && u[1..] == y;
    } else {
      assert a[0] in a && b != [];
      assert s[1..] == a[1..] + [c] + x && u[1..] == b[1..] + [c] + y;
      SplitUnique(c, a[1..], x, b[1..], y);
    }
  }

  lemma {:induction false} JoinClean(l: seq<string>)
    requires CleanLine(l)
    ensures '\n' !in Join(l) && ('|' in Join(l) <==> |l| > 1)
    decreases |l|
  {
    assert l[0] in l;
    if |l| > 1 {
      assert forall f :: f in l[1..] ==> f in l;
      JoinClean(l[1..]);
    }
  }

  lemma {:induction false} JoinInjective(a: seq<string>, b: seq<string>)
    requires CleanLine(a) && CleanLine(b) && Join(a) == Join(b)
    ensures a == b
    decreases |a|
  {
    JoinClean(a);
    JoinClean(b);
    assert a[0] in a && b[0] in b;
    if |a| > 1 {
      assert forall f :: f in a[1..] ==> f in a;
      assert forall f :: f in b[1..] ==> f in b;
      SplitUnique('|', a[0], Join(a[1..]), b[0], Join(b[1..]));
      JoinInjective(a[1..], b[1..]);
      assert a == [a[0]] + a[1..] && b == [b[0]] + b[1..];
    }
  }

  /** Lines of clean fields can be read back from their text. */
  lemma {:induction false} TextInjective(a: seq<seq<string>>, b: seq<seq<string>>)
    requires (forall l :: l in a ==> CleanLine(l)) && (forall l :: l in b ==> CleanLine(l)) && Text(a) == Text(b)
    ensures a == b
    decreases |a|
  {
    if a != [] && b != [] {
      assert a[0] in a && b[0] in b;
      assert forall l :: l in a[1..] ==> l in a;
      assert forall l :: l in b[1..] ==> l in b;
      JoinClean(a[0]);
      JoinClean(b[0]);
      SplitUnique('\n', Join(a[0]), Text(a[1..]), Join(b[0]), Text(b[1..]));
      JoinInjective(a[0], b[0]);
      TextInjective(a[1..], b[1..]);
      assert a == [a[0]] + a[1..] && b == [b[0]] + b[1..];
    }
  }

  // ----- the checkpoint of one equivalent -----

  datatype Debt = Debt(debtor: string, creditor: string, amount: int)
  datatype Line = Line(id: string, from: string, to: string, limit: int, status: string)

  /** How amounts are written: injective and free of separators, as decimals are. */
  ghost predicate Faithful(show: int -> string)
  {
    && (forall x, y :: show(x) == show(y) ==> x == y)
    && (forall x :: Clean(show(x)))
  }

  function DebtRow(show: int -> string, d: Debt): Row
  {
    Row([d.debtor, d.creditor], ["debt", d.debtor, d.creditor, show(d.amount)])
  }

  function LineRow(show: int -> string, l: Line): Row
  {
    Row([l.from, l.to, l.id], ["trustline", l.from, l.to, show(l.limit), l.status])
  }

  function DebtRows(show: int -> string, debts: seq<Debt>): (r: seq<Row>)
    ensures |r| == |debts| && forall i :: 0 <= i < |debts| ==> r[i] == DebtRow(show, debts[i])
  {
    if debts == [] then [] else DebtRows(show, debts[..|debts| - 1]) + [DebtRow(show, debts[|debts| - 1])]
  }

  function LineRows(show: int -> string, lines: seq<Line>): (r: seq<Row>)
    ensures |r| == |lines| && forall i :: 0 <= i < |lines| ==> r[i] == LineRow(show, lines[i])
  {
    if lines == [] then [] else LineRows(show, lines[..|lines| - 1]) + [LineRow(show, lines[|lines| - 1])]
  }

  function Fields(rows: seq<Row>): (f: seq<seq<string>>)
    ensures |f| == |rows| && forall i :: 0 <= i < |rows| ==> f[i] == rows[i].fields
  {
    if rows == [] then [] else Fields(rows[..|rows| - 1]) + [rows[|rows| - 1].fields]
  }

  /** The stored state of one equivalent: one row per debtor and creditor, unique line
      identifiers, names free of separators. */
  ghost predicate Stored(debts: seq<Debt>, lines: seq<Line>)
  {
    && (forall i, j :: 0 <= i < j < |debts| ==> debts[i].debtor != debts[j].debtor || debts[i].creditor != debts[j].creditor)
    && (forall i, j :: 0 <= i < j < |lines| ==> lines[i].id != lines[j].id)
    && (forall d :: d in debts ==> Clean(d.debtor) && Clean(d.creditor))
    && (forall l :: l in lines ==> Clean(l.from) && Clean(l.to) && Clean(l.status))
  }

  function CheckpointLines(show: int -> string, debts: seq<Debt>, lines: seq<Line>): seq<seq<string>>
  {
    Fields(Order(DebtRows(show, debts))) + Fields(Order(LineRows(show, lines)))
  }

  lemma RowsUnique(show: int -> string, debts: seq<Debt>, lines: seq<Line>)
    requires Stored(debts, lines)
    ensures UniqueKeys(DebtRows(show, debts)) && UniqueKeys(LineRows(show, lines))
  {
    var dr, lr := DebtRows(show, debts), LineRows(show, lines);
    forall i, j | 0 <= i < j < |dr| ensures dr[i].key != dr[j].key {
      assert dr[i].key[0] == debts[i].debtor && dr[i].key[1] == debts[i].creditor;
      assert dr[j].key[0] == debts[j].debtor && dr[j].key[1] == debts[j].creditor;
    }
    forall i, j | 0 <= i < j < |lr| ensures lr[i].key != lr[j].key {
      assert lr[i].key[2] == lines[i].id && lr[j].key[2] == lines[j].id;
    }
  }

  lemma DebtMembers(show: int -> string, debts: seq<Debt>, r: Row)
    ensures r in DebtRows(show, debts) <==> exists d :: d in debts && r == DebtRow(show, d)
  {
    var rows := DebtRows(show, debts);
    if r in rows {
      var i :| 0 <= i < |rows| && rows[i] == r;
      assert debts[i] in debts;
    }
    if d :| d in debts && r == DebtRow(show, d) {
      var i :| 0 <= i < |debts| && debts[i] == d;
      assert rows[i] == r;
    }
  }

  lemma LineMembers(show: int -> string, lines: seq<Line>, r: Row)
    ensures r in LineRows(show, lines) <==> exists l :: l in lines && r == LineRow(show, l)
  {
    var rows := LineRows(show, lines);
    if r in rows {
      var i :| 0 <= i < |rows| && rows[i] == r;
      assert lines[i] in lines;
    }
    if l :| l in lines && r == LineRow(show, l) {
      var i :| 0 <= i < |lines| && lines[i] == l;
      assert rows[i] == r;
    }
  }

  lemma FieldsComeFromRows(rows: seq<Row>, f: seq<string>)
    requires f in Fields(Order(rows))
    ensures exists r :: r in rows && r.fields == f
  {
    var i :| 0 <= i < |Order(rows)| && Fields(Order(rows))[i] == f;
    assert Order(rows)[i] in Order(rows);
    assert Order(rows)[i].fields == f;
  }

  lemma CleanDebt(show: int -> string, d: Debt)
    requires Faithful(show) && Clean(d.debtor) && Clean(d.creditor)
    ensures CleanLine(DebtRow(show, d).fields) && DebtRow(show, d).fields[0] == "debt"
  {
    var f := DebtRow(show, d).fields;
    assert f[0] == "debt" && f[1] == d.debtor && f[2] == d.creditor && f[3] == show(d.amount);
  }

  lemma CleanTrustLine(show: int -> string, l: Line)
    requires Faithful(show) && Clean(l.from) && Clean(l.to) && Clean(l.status)
    ensures CleanLine(LineRow(show, l).fields) && LineRow(show, l).fields[0] == "trustline"
  {
    var f := LineRow(show, l).fields;
    assert f[0] == "trustline" && f[1] == l.from && f[2] == l.to && f[3] == show(l.limit) && f[4] == l.status;
  }

  lemma DebtFields(show: int -> string, debts: seq<Debt>)
    requires Faithful(show) && forall d :: d in debts ==> Clean(d.debtor) && Clean(d.creditor)
    ensures forall l :: l in Fields(Order(DebtRows(show, debts))) ==> CleanLine(l) && l[0] == "debt"
  {
    hide Order, Fields, DebtRows, DebtRow, Faithful, CleanLine, Clean;
    forall l | l in Fields(Order(DebtRows(show, debts))) ensures CleanLine(l) && l != [] && l[0] == "debt" {
      FieldsComeFromRows(DebtRows(show, debts), l);
      var r :| r in DebtRows(show, debts) && r.fields == l;
      DebtMembers(show, debts, r);
      var d :| d in debts && r == DebtRow(show, d);
      CleanDebt(show, d);
    }
  }

  lemma LineFields(show: int -> string, lines: seq<Line>)
    requires Faithful(show) && forall l :: l in lines ==> Clean(l.from) && Clean(l.to) && Clean(l.status)
    ensures forall f :: f in Fields(Order(LineRows(show, lines))) ==> CleanLine(f) && f[0] == "trustline"
  {
    hide Order, Fields, LineRows, LineRow, Faithful, CleanLine, Clean;
    forall f | f in Fields(Order(LineRows(show, lines))) ensures CleanLine(f) && f != [] && f[0] == "trustline" {
      FieldsComeFromRows(LineRows(show, lines), f);
      var r :| r in LineRows(show, lines) && r.fields == f;
      LineMembers(show, lines, r);
      var l :| l in lines && r == LineRow(show, l);
      CleanTrustLine(show, l);
    }
  }

  lemma CheckpointClean(show: int -> string, debts: seq<Debt>, lines: seq<Line>)
    requires Faithful(show) && Stored(debts, lines)
    ensures forall l :: l in CheckpointLines(show, debts, lines) ==> CleanLine(l)
  {
    DebtFields(show, debts);
    LineFields(show, lines);
  }

  /** The text fed to the checksum. */
  function CheckpointText(show: int -> string, debts: seq<Debt>, lines: seq<Line>): string
  {
    Text(CheckpointLines(show, debts, lines))
  }

  lemma {:induction false} InsertLength(rows: seq<Row>, r: Row)
    ensures |Insert(rows, r)| == |rows| + 1
    decreases |rows|
  {
    if rows != [] { InsertLength(rows[1..], r); }
  }

  lemma {:induction false} OrderLength(rows: seq<Row>)
    ensures |Order(rows)| == |rows|
    decreases |rows|
  {
    if rows != [] {
      OrderLength(rows[..|rows| - 1]);
      InsertLength(Order(rows[..|rows| - 1]), rows[|rows| - 1]);
    }
  }

  lemma OrderedDebt(show: int -> string, debts: seq<Debt>, i: nat) returns (d: Debt)
    requires i < |debts|
    ensures |Order(DebtRows(show, debts))| == |debts|
    ensures d in debts && Order(DebtRows(show, debts))[i] == DebtRow(show, d)
  {
    hide Order;
    OrderLength(DebtRows(show, debts));
    assert Order(DebtRows(show, debts))[i] in Order(DebtRows(show, debts));
    DebtMembers(show, debts, Order(DebtRows(show, debts))[i]);
    d :| d in debts && Order(DebtRows(show, debts))[i] == DebtRow(show, d);
  }

  /** By debtor, then by creditor. */
  predicate InDebtOrder(a: seq<string>, b: seq<string>)
  {
    |a| == 4 && |b| == 4 && (Less(a[1], b[1]) || (a[1] == b[1] && Less(a[2], b[2])))
  }

  /** First come the debts, one line each, by debtor and then creditor. */
  lemma DebtLayout(show: int -> string, debts: seq<Debt>, lines: seq<Line>)
    requires Stored(debts, lines)
    ensures |CheckpointLines(show, debts, lines)| == |debts| + |lines|
    ensures forall f :: f in CheckpointLines(show, debts, lines)[..|debts|] ==> exists d :: d in debts && f == ["debt", d.debtor, d.creditor, show(d.amount)]
    ensures var f := CheckpointLines(show, debts, lines);
            forall i, j :: 0 <= i < j < |debts| ==>
              InDebtOrder(f[i], f[j])
  {
    hide Order, Stored, KeyLess, LineRows, DebtRows, Fields;
    OrderLength(DebtRows(show, debts));
    OrderLength(LineRows(show, lines));
    var rows, f := Order(DebtRows(show, debts)), CheckpointLines(show, debts, lines);
    assert f[..|debts|] == Fields(rows);
    forall x | x in f[..|debts|] ensures exists d :: d in debts && x == ["debt", d.debtor, d.creditor, show(d.amount)] {
      var i :| 0 <= i < |debts| && f[..|debts|][i] == x;
      var d := OrderedDebt(show, debts, i);
    }
    RowsUnique(show, debts, lines);
    OrderSorted(DebtRows(show, debts));
    forall i, j | 0 <= i < j < |debts| ensures InDebtOrder(f[i], f[j]) {
      var c := OrderedDebt(show, debts, i);
      var d := OrderedDebt(show, debts, j);
      KeyLessTwo(rows[i].key, rows[j].key);
      assert f[i] == f[..|debts|][i] && f[j] == f[..|debts|][j];
    }
  }

  /** By `from`, then by `to`; two closed lines may share both. */
  predicate InLineOrder(a: seq<string>, b: seq<string>)
  {
    |a| == 5 && |b| == 5 && (Less(a[1], b[1]) || (a[1] == b[1] && (Less(a[2], b[2]) || a[2] == b[2])))
  }

  lemma OrderedLine(show: int -> string, lines: seq<Line>, i: nat) returns (l: Line)
    requires i < |lines|
    ensures |Order(LineRows(show, lines))| == |lines|
    ensures l in lines && Order(LineRows(show, lines))[i] == LineRow(show, l)
  {
    hide Order;
    OrderLength(LineRows(show, lines));
    assert Order(LineRows(show, lines))[i] in Order(LineRows(show, lines));
    LineMembers(show, lines, Order(LineRows(show, lines))[i]);
    l :| l in lines && Order(LineRows(show, lines))[i] == LineRow(show, l);
  }

  /** Then come the trust lines, one line each, by `from` and then `to`. */
  lemma TrustLineLayout(show: int -> string, debts: seq<Debt>, lines: seq<Line>)
    requires Stored(debts, lines)
    ensures |CheckpointLines(show, debts, lines)| == |debts| + |lines|
    ensures forall f :: f in CheckpointLines(show, debts, lines)[|debts|..] ==> exists l :: l in lines && f == ["trustline", l.from, l.to, show(l.limit), l.status]
    ensures var f := CheckpointLines(show, debts, lines)[|debts|..];
            forall i, j :: 0 <= i < j < |lines| ==>
              InLineOrder(f[i], f[j])
  {
    hide Order, Stored, KeyLess, LineRows, DebtRows, Fields;
    OrderLength(DebtRows(show, debts));
    OrderLength(LineRows(show, lines));
    var rows, f := Order(LineRows(show, lines)), CheckpointLines(show, debts, lines)[|debts|..];
    assert f == Fields(rows);
    forall x | x in f ensures exists l :: l in lines && x == ["trustline", l.from, l.to, show(l.limit), l.status] {
      var i :| 0 <= i < |lines| && f[i] == x;
      var l := OrderedLine(show, lines, i);
    }
    RowsUnique(show, debts, lines);
    OrderSorted(LineRows(show, lines));
    forall i, j | 0 <= i < j < |lines|
      ensures InLineOrder(f[i], f[j])
    {
      var c := OrderedLine(show, lines, i);
      var d := OrderedLine(show, lines, j);
      KeyLessTwo(rows[i].key, rows[j].key);
    }
  }

  /** A line as it is fed: its fields between bars, ended by a line feed. */
  lemma LineText(a: string, b: string, c: string, d: string, e: string)
    ensures Text([[a, b, c, d]]) == a + "|" + (b + "|" + (c + "|" + d)) + "\n"
    ensures Text([[a, b, c, d, e]]) == a + "|" + (b + "|" + (c + "|" + (d + "|" + e))) + "\n"
  {
    hide Join;
    JoinFour(a, b, c, d);
    JoinFour(b, c, d, e);
    assert [a, b, c, d, e] == [a] + [b, c, d, e];
    JoinCons(a, [b, c, d, e]);
    OneLine([a, b, c, d]);
    OneLine([a, b, c, d, e]);
  }

  lemma JoinFour(a: string, b: string, c: string, d: string)
    ensures Join([a, b, c, d]) == a + "|" + (b + "|" + (c + "|" + d))
  {
    hide Join;
    JoinCons(c, [d]);
    JoinCons(b, [c, d]);
    JoinCons(a, [b, c, d]);
    assert [c] + [d] == [c, d] && [b] + [c, d] == [b, c, d] && [a] + [b, c, d] == [a, b, c, d];
  }

  lemma JoinCons(a: string, rest: seq<string>)
    requires rest != []
    ensures Join([a] + rest) == a + "|" + Join(rest)
    ensures |rest| == 1 ==> Join(rest) == rest[0]
  {
    assert ([a] + rest)[1..] == rest;
  }

  lemma OneLine(l: seq<string>)
    ensures Text([l]) == Join(l) + "\n"
  {
    assert [l][1..] == [];
  }

  /** Equal stored rows give equal texts, in whatever order they are stored. */
  lemma TextIgnoresStorageOrder(show: int -> string, debts: seq<Debt>, lines: seq<Line>, debts': seq<Debt>, lines': seq<Line>)
    requires Faithful(show) && Stored(debts, lines) && Stored(debts', lines')
    requires (forall d :: d in debts <==> d in debts') && (forall l :: l in lines <==> l in lines')
    ensures CheckpointText(show, debts, lines) == CheckpointText(show, debts', lines')
  {
    hide Stored, Faithful, Order, Text, UniqueKeys;
    RowsUnique(show, debts, lines);
    RowsUnique(show, debts', lines');
    SameRows(show, debts, lines, debts', lines');
    StorageOrderIrrelevant(DebtRows(show, debts), DebtRows(show, debts'));
    StorageOrderIrrelevant(LineRows(show, lines), LineRows(show, lines'));
  }

  lemma SameRows(show: int -> string, debts: seq<Debt>, lines: seq<Line>, debts': seq<Debt>, lines': seq<Line>)
    requires (forall d :: d in debts <==> d in debts') && (forall l :: l in lines <==> l in lines')
    ensures forall r :: r in DebtRows(show, debts) <==> r in DebtRows(show, debts')
    ensures forall r :: r in LineRows(show, lines) <==> r in LineRows(show, lines')
  {
    hide DebtRows, LineRows, DebtRow, LineRow;
    forall r ensures r in DebtRows(show, debts) <==> r in DebtRows(show, debts') {
      DebtMembers(show, debts, r);
      DebtMembers(show, debts', r);
    }
    forall r ensures r in LineRows(show, lines) <==> r in LineRows(show, lines') {
      LineMembers(show, lines, r);
      LineMembers(show, lines', r);
    }
  }

  lemma {:induction false} SplitAtKind(a: seq<seq<string>>, x: seq<seq<string>>, b: seq<seq<string>>, y: seq<seq<string>>)
    requires a + x == b + y
    requires forall l :: (l in a || l in b) ==> l != [] && l[0] == "debt"
    requires forall l :: (l in x || l in y) ==> l != [] && l[0] == "trustline"
    ensures a == b && x == y
    decreases |a|
  {
    var s, u := a + x, b + y;
    assert "debt" != "trustline";
    assert a != [] ==> s[0] == a[0] && a[0] in a;
    assert b != [] ==> u[0] == b[0] && b[0] in b;
    assert a == [] && x != [] ==> s[0] == x[0] && x[0] in x;
    assert b == [] && y != [] ==> u[0] == y[0] && y[0] in y;
    if a == [] {
      assert b == [];
      assert s == x && u == y;
    } else {
      assert b != [];
      assert s[1..] == a[1..] + x && u[1..] == b[1..] + y;
      assert forall l :: l in a[1..] ==> l in a;
      assert forall l :: l in b[1..] ==> l in b;
      SplitAtKind(a[1..], x, b[1..], y);
      assert a == [a[0]] + a[1..] && b == [b[0]] + b[1..];
    }
  }

  /** What the text shows of a trust line: everything but its identifier. */
  function Shown(l: Line): (string, string, int, string)
  {
    (l.from, l.to, l.limit, l.status)
  }

  /** What the text shows of every trust line, identifiers dropped, multiplicity kept. */
  function ShownLines(lines: seq<Line>): (s: seq<(string, string, int, string)>)
    ensures |s| == |lines| && forall i :: 0 <= i < |lines| ==> s[i] == Shown(lines[i])
  {
    if lines == [] then [] else ShownLines(lines[..|lines| - 1]) + [Shown(lines[|lines| - 1])]
  }

  /** The rendered lines of some rows, as a bag. */
  function Bag(rows: seq<Row>): multiset<seq<string>>
  {
    multiset(Fields(rows))
  }

  lemma BagCons(r: Row, rows: seq<Row>)
    ensures Bag([r] + rows) == multiset{r.fields} + Bag(rows)
  {
    assert Fields([r] + rows) == [r.fields] + Fields(rows);
  }

  lemma {:induction false} InsertKeepsFields(rows: seq<Row>, r: Row)
    ensures Bag(Insert(rows, r)) == Bag(rows) + multiset{r.fields}
    decreases |rows|
  {
    hide Bag;
    if rows == [] {
      assert [r] == [r] + rows;
      BagCons(r, rows);
    } else if KeyLess(r.key, rows[0].key) {
      BagCons(r, rows);
    } else {
      InsertKeepsFields(rows[1..], r);
      assert rows == [rows[0]] + rows[1..];
      BagCons(rows[0], rows[1..]);
      BagCons(rows[0], Insert(rows[1..], r));
    }
  }

  /** Ordering the rows neither loses nor repeats a rendered line. */
  lemma {:induction false} OrderKeepsFields(rows: seq<Row>)
    ensures multiset(Fields(Order(rows))) == multiset(Fields(rows))
    decreases |rows|
  {
    if rows != [] {
      var init, last := rows[..|rows| - 1], rows[|rows| - 1];
      OrderKeepsFields(init);
      InsertKeepsFields(Order(init), last);
    }
  }

  /** A shown part occurs as often among the lines as its rendering occurs in the text. */
  lemma {:induction false} ShownCount(show: int -> string, lines: seq<Line>, l: Line)
    requires Faithful(show)
    ensures multiset(ShownLines(lines))[Shown(l)] == multiset(Fields(LineRows(show, lines)))[LineRow(show, l).fields]
    decreases |lines|
  {
    hide Faithful, LineRow;
    if lines != [] {
      var init, last := lines[..|lines| - 1], lines[|lines| - 1];
      ShownCount(show, init, l);
      RenderAgrees(show, l, last);
      assert Fields(LineRows(show, lines)) == Fields(LineRows(show, init)) + [LineRow(show, last).fields];
      assert ShownLines(lines) == ShownLines(init) + [Shown(last)];
    }
  }

  /** Two trust lines are rendered alike exactly when their shown parts are equal. */
  lemma RenderAgrees(show: int -> string, l: Line, m: Line)
    requires Faithful(show)
    ensures LineRow(show, l).fields == LineRow(show, m).fields <==> Shown(l) == Shown(m)
  {
    var a, b := LineRow(show, l).fields, LineRow(show, m).fields;
    assert a[1] == l.from && a[2] == l.to && a[3] == show(l.limit) && a[4] == l.status;
    assert b[1] == m.from && b[2] == m.to && b[3] == show(m.limit) && b[4] == m.status;
  }

  lemma SameShown(show: int -> string, lines: seq<Line>, lines': seq<Line>)
    requires Faithful(show)
    requires Fields(Order(LineRows(show, lines))) == Fields(Order(LineRows(show, lines')))
    ensures multiset(ShownLines(lines)) == multiset(ShownLines(lines'))
  {
    hide Order, Fields, LineRows, LineRow, Faithful, ShownLines;
    OrderKeepsFields(LineRows(show, lines));
    OrderKeepsFields(LineRows(show, lines'));
    forall s: (string, string, int, string) ensures multiset(ShownLines(lines))[s] == multiset(ShownLines(lines'))[s] {
      var l := Line("", s.0, s.1, s.2, s.3);
      ShownCount(show, lines, l);
      ShownCount(show, lines', l);
      assert Shown(l) == s;
    }
  }

  /** Equal texts mean equal debt tables and equal collections of trust lines up to their
      identifiers: the same (from, to, limit, status) with the same multiplicity. */
  lemma TextDeterminesState(show: int -> string, debts: seq<Debt>, lines: seq<Line>, debts': seq<Debt>, lines': seq<Line>)
    requires Faithful(show) && Stored(debts, lines) && Stored(debts', lines')
    requires CheckpointText(show, debts, lines) == CheckpointText(show, debts', lines')
    ensures forall d :: d in debts <==> d in debts'
    ensures multiset(ShownLines(lines)) == multiset(ShownLines(lines'))
  {
    hide Order, Fields, ShownLines;
    CheckpointClean(show, debts, lines);
    CheckpointClean(show, debts', lines');
    TextInjective(CheckpointLines(show, debts, lines), CheckpointLines(show, debts', lines'));
    DebtFields(show, debts);
    DebtFields(show, debts');
    LineFields(show, lines);
    LineFields(show, lines');
    SplitAtKind(Fields(Order(DebtRows(show, debts))), Fields(Order(LineRows(show, lines))),
                Fields(Order(DebtRows(show, debts'))), Fields(Order(LineRows(show, lines'))));
    forall d | d in debts ensures d in debts' { SameDebt(show, debts, debts', d); }
    forall d | d in debts' ensures d in debts { SameDebt(show, debts', debts, d); }
    SameShown(show, lines, lines');
  }

  lemma SameDebt(show: int -> string, debts: seq<Debt>, debts': seq<Debt>, d: Debt)
    requires Faithful(show) && d in debts
    requires Fields(Order(DebtRows(show, debts))) == Fields(Order(DebtRows(show, debts')))
    ensures d in debts'
  {
    hide Order, DebtRows;
    var rows, rows' := Order(DebtRows(show, debts)), Order(DebtRows(show, debts'));
    DebtMembers(show, debts, DebtRow(show, d));
    assert DebtRow(show, d) in rows;
    var i :| 0 <= i < |rows| && rows[i] == DebtRow(show, d);
    assert rows'[i] in rows';
    DebtMembers(show, debts', rows'[i]);
    var e :| e in debts' && rows'[i] == DebtRow(show, e);
    assert Fields(rows)[i] == Fields(rows')[i];
    assert Fields(rows)[i][1] == d.debtor && Fields(rows)[i][2] == d.creditor && Fields(rows)[i][3] == show(d.amount);
    assert Fields(rows')[i][1] == e.debtor && Fields(rows')[i][2] == e.creditor && Fields(rows')[i][3] == show(e.amount);
    assert d == e;
  }

  // ----- feeding the checksum and judging the state -----

  /** Feeds the rows line by line, as the incremental checksum receives them. */
  method Feed(lines: seq<seq<string>>) returns (fed: string)
    ensures fed == Text(lines)
  {
    fed := [];
    assert lines[0..] == lines;
    for i := 0 to |lines|
      invariant fed + Text(lines[i..]) == Text(lines)
    {
      assert lines[i..][1..] == lines[i + 1..];
      assert Text(lines[i..]) == Join(lines[i]) + ['\n'] + Text(lines[i + 1..]);
      fed := fed + (Join(lines[i]) + ['\n']);
    }
    assert lines[|lines|..] == [];
  }

  datatype Status = Healthy | Warning | Critical

  /** The recorded status: critical exactly when some debt exceeds its line, a warning exactly
      when only mutual debts are left to complain about. */
  method Judge(d: Debts, lines: Lines, eq: string) returns (status: Status, alerts: seq<string>)
    requires WellFormed(d)
    ensures var over := exists k: DebtKey :: k.eq == eq && k in d && d[k] > (if k in lines then lines[k] else 0);
            var mutual := exists k: DebtKey :: k.eq == eq && k in d && k.Reverse() in d;
            && status == (if over then Critical else if mutual then Warning else Healthy)
            && alerts == (if over then ["trust_limits"] else []) + (if mutual then ["debt_symmetry"] else [])
  {
    hide WellFormed, Limit;
    status, alerts := Healthy, [];
    var imbalance := Checker.ComputeImbalance(d, eq);
    if imbalance != 0 {
      status, alerts := Critical, alerts + ["zero_sum"];
    }
    var over := Checker.CheckTrustLimits(d, lines, Some(eq), []);
    if over != [] {
      status, alerts := Critical, alerts + ["trust_limits"];
    }
    var mutual := Checker.CheckDebtSymmetry(d, Some(eq), []);
    if mutual != [] {
      if status == Healthy { status := Warning; }
      alerts := alerts + ["debt_symmetry"];
    }
    SomeOver(d, lines, eq, over);
    SomeMutual(d, eq, mutual);
  }

  lemma SomeOver(d: Debts, lines: Lines, eq: string, over: seq<Checker.LimitViolation>)
    requires forall k, debt, limit ::
               Checker.LimitViolation(k, debt, limit) in over <==>
                 k in d && debt == d[k] && limit == (if k in lines then lines[k] else 0) && debt > limit && k.eq == eq
    ensures over != [] <==> exists k: DebtKey :: k.eq == eq && k in d && d[k] > (if k in lines then lines[k] else 0)
  {
    if over != [] {
      var v := over[0];
      assert Checker.LimitViolation(v.key, v.debt, v.limit) in over;
    }
    forall k: DebtKey | k.eq == eq && k in d && d[k] > (if k in lines then lines[k] else 0) ensures over != [] {
      assert Checker.LimitViolation(k, d[k], if k in lines then lines[k] else 0) in over;
    }
  }

  lemma SomeMutual(d: Debts, eq: string, mutual: seq<DebtKey>)
    requires WellFormed(d)
    requires forall e, a, b :: DebtKey(e, a, b) in mutual <==> DebtKey(e, a, b) in d && DebtKey(e, b, a) in d && Less(a, b) && e == eq
    ensures mutual != [] <==> exists k: DebtKey :: k.eq == eq && k in d && k.Reverse() in d
  {
    if mutual != [] {
      var k := mutual[0];
      assert DebtKey(k.eq, k.debtor, k.creditor) in mutual;
      assert k.Reverse() == DebtKey(k.eq, k.creditor, k.debtor);
    }
    forall k: DebtKey | k.eq == eq && k in d && k.Reverse() in d ensures mutual != [] {
      Trichotomy(k.debtor, k.creditor);
      assert k.Reverse() == DebtKey(k.eq, k.creditor, k.debtor);
      assert DebtKey(k.eq, k.debtor, k.creditor) in mutual || DebtKey(k.eq, k.creditor, k.debtor) in mutual;
    }
  }
}
