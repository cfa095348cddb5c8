/** Net amounts per participant and their twenty-bin histogram, as the mock administration
    API computes them for a participant's metrics. */
module Histogram {
  import opened Lists
  import opened Decimals

  // ----- net amounts: an insertion-ordered map -----

  datatype Entry = Entry(pid: string, atoms: int)

  datatype DebtRow = DebtRow(equivalent: string, debtor: string, creditor: string, amount: string)

  /** A missing participant counts as zero. */
  function Get(m: seq<Entry>, pid: string): int
  {
    if m == [] then 0 else if m[0].pid == pid then m[0].atoms else Get(m[1..], pid)
  }

  /** Replaces the value in place, or appends a new entry. */
  function Put(m: seq<Entry>, pid: string, v: int): seq<Entry>
  {
    if m == [] then [Entry(pid, v)]
    else if m[0].pid == pid then [Entry(pid, v)] + m[1..]
    else [m[0]] + Put(m[1..], pid, v)
  }

  function Values(m: seq<Entry>): seq<int>
  {
    if m == [] then [] else [m[0].atoms] + Values(m[1..])
  }

  function Total(vals: seq<int>): int
  {
    if vals == [] then 0 else vals[0] + Total(vals[1..])
  }

  function Pids(m: seq<Entry>): (s: seq<string>)
    ensures |s| == |m| && forall i :: 0 <= i < |m| ==> s[i] == m[i].pid
  {
    if m == [] then [] else [m[0].pid] + Pids(m[1..])
  }

  lemma {:induction false} PutGet(m: seq<Entry>, pid: string, v: int, q: string)
    ensures Get(Put(m, pid, v), q) == if q == pid then v else Get(m, q)
    decreases |m|
  {
    if m == [] {
      assert [Entry(pid, v)][1..] == m;
    } else if m[0].pid == pid {
      assert ([Entry(pid, v)] + m[1..])[1..] == m[1..];
    } else {
      PutGet(m[1..], pid, v, q);
      assert Put(m, pid, v)[1..] == Put(m[1..], pid, v);
    }
  }

  lemma {:induction false} PutTotal(m: seq<Entry>, pid: string, v: int)
    ensures Total(Values(Put(m, pid, v))) == Total(Values(m)) - Get(m, pid) + v
    decreases |m|
  {
    var r := Put(m, pid, v);
    assert Values(r)[1..] == Values(r[1..]);
    if m == [] {
      assert r[1..] == [];
    } else {
      assert Values(m)[1..] == Values(m[1..]);
      if m[0].pid == pid {
        assert r[1..] == m[1..];
      } else {
        PutTotal(m[1..], pid, v);
        assert r[1..] == Put(m[1..], pid, v);
      }
    }
  }

  /** The participants of the map after a write: one is added at the end if it is new. */
  lemma {:induction false} PutPids(m: seq<Entry>, pid: string, v: int)
    ensures Pids(Put(m, pid, v)) == if pid in Pids(m) then Pids(m) else Pids(m) + [pid]
    decreases |m|
  {
    var r := Put(m, pid, v);
    if m != [] {
      assert Pids(m) == [m[0].pid] + Pids(m[1..]);
      if m[0].pid == pid {
        assert Pids(m)[0] == pid;
      } else {
        PutPids(m[1..], pid, v);
        assert r[1..] == Put(m[1..], pid, v);
      }
    }
  }

  lemma {:induction false} ValuesLength(m: seq<Entry>)
    ensures |Values(m)| == |m|
    decreases |m|
  {
    if m != [] { ValuesLength(m[1..]); }
  }

  /** Whether a debt counts for the equivalent `eq`; `upper` is the upper-casing of the platform. */
  function Counts(upper: string -> string, d: DebtRow, eq: string): bool
  {
    upper(Trim(d.equivalent)) == eq
  }

  /** Credits minus debts of `pid`, read off the debts. */
  function NetOf(upper: string -> string, debts: seq<DebtRow>, eq: string, precision: nat, pid: string): int
  {
    if debts == [] then 0 else
      var d := debts[|debts| - 1];
      var a := DecimalToAtoms(d.amount, precision);
      NetOf(upper, debts[..|debts| - 1], eq, precision, pid)
      + if !Counts(upper, d, eq) then 0
        else (if d.creditor == pid then a else 0) - (if d.debtor == pid then a else 0)
  }

  lemma NetOfStep(upper: string -> string, debts: seq<DebtRow>, d: DebtRow, eq: string, precision: nat, pid: string)
    ensures var a := DecimalToAtoms(d.amount, precision);
            NetOf(upper, debts + [d], eq, precision, pid) == NetOf(upper, debts, eq, precision, pid)
              + if !Counts(upper, d, eq) then 0 else (if d.creditor == pid then a else 0) - (if d.debtor == pid then a else 0)
  {
    hide Counts, DecimalToAtoms;
    var s := debts + [d];
    assert s[..|s| - 1] == debts;
  }

  ghost predicate Party(upper: string -> string, debts: seq<DebtRow>, eq: string, pid: string)
  {
    exists i :: 0 <= i < |debts| && Counts(upper, debts[i], eq) && (debts[i].debtor == pid || debts[i].creditor == pid)
  }

  /** What the map holds after the debts `debts`. */
  ghost predicate Accumulated(upper: string -> string, participants: seq<string>, debts: seq<DebtRow>, eq: string, precision: nat, m: seq<Entry>)
  {
    && Distinct(Pids(m))
    && (forall p :: p in Pids(m) <==> p in participants || Party(upper, debts, eq, p))
    && (forall p :: Get(m, p) == NetOf(upper, debts, eq, precision, p))
    && Total(Values(m)) == 0
  }

  lemma NewParty(upper: string -> string, debts: seq<DebtRow>, d: DebtRow, eq: string)
    ensures forall p :: Party(upper, debts + [d], eq, p)
                        <==> Party(upper, debts, eq, p) || (Counts(upper, d, eq) && (d.debtor == p || d.creditor == p))
  {
    var s := debts + [d];
    forall p ensures Party(upper, s, eq, p) <==> Party(upper, debts, eq, p) || (Counts(upper, d, eq) && (d.debtor == p || d.creditor == p)) {
      assert s[|debts|] == d;
      assert forall i :: 0 <= i < |debts| ==> s[i] == debts[i];
    }
  }

  /** One debt: its amount leaves the debtor and arrives at the creditor. */
  function Record(m: seq<Entry>, d: DebtRow, a: int): seq<Entry>
  {
    var m1 := Put(m, d.debtor, Get(m, d.debtor) - a);
    Put(m1, d.creditor, Get(m1, d.creditor) + a)
  }

  lemma RecordEffect(m: seq<Entry>, d: DebtRow, a: int)
    ensures Total(Values(Record(m, d, a))) == Total(Values(m))
    ensures forall p :: Get(Record(m, d, a), p) == Get(m, p) + (if d.creditor == p then a else 0) - (if d.debtor == p then a else 0)
  {
    hide Put, Get, Total, Values;
    var v := Get(m, d.debtor) - a;
    var m1 := Put(m, d.debtor, v);
    var w := Get(m1, d.creditor) + a;
    PutTotal(m, d.debtor, v);
    PutTotal(m1, d.creditor, w);
    PutGet(m, d.debtor, v, d.creditor);
    forall p ensures Get(Put(m1, d.creditor, w), p) == Get(m, p) + (if d.creditor == p then a else 0) - (if d.debtor == p then a else 0) {
      PutGet(m, d.debtor, v, p);
      PutGet(m1, d.creditor, w, p);
    }
  }

  lemma PutKeepsDistinct(m: seq<Entry>, pid: string, v: int)
    requires Distinct(Pids(m))
    ensures Distinct(Pids(Put(m, pid, v)))
    ensures forall p :: p in Pids(Put(m, pid, v)) <==> p in Pids(m) || p == pid
  {
    hide Put, Pids;
    PutPids(m, pid, v);
  }

  lemma RecordKeeps(upper: string -> string, participants: seq<string>, debts: seq<DebtRow>, d: DebtRow, eq: string, precision: nat, m: seq<Entry>)
    requires Accumulated(upper, participants, debts, eq, precision, m) && Counts(upper, d, eq)
    ensures Accumulated(upper, participants, debts + [d], eq, precision, Record(m, d, DecimalToAtoms(d.amount, precision)))
  {
    hide Party, Counts, DecimalToAtoms, NetOf, Put, Get, Total, Values, Pids, Distinct;
    var a := DecimalToAtoms(d.amount, precision);
    RecordEffect(m, d, a);
    var m1 := Put(m, d.debtor, Get(m, d.debtor) - a);
    PutKeepsDistinct(m, d.debtor, Get(m, d.debtor) - a);
    PutKeepsDistinct(m1, d.creditor, Get(m1, d.creditor) + a);
    NewParty(upper, debts, d, eq);
    forall p { NetOfStep(upper, debts, d, eq, precision, p); }
  }

  lemma NothingYet(upper: string -> string, eq: string, precision: nat)
    ensures Accumulated(upper, [], [], eq, precision, [])
  {
  }

  lemma SkipKeeps(upper: string -> string, participants: seq<string>, debts: seq<DebtRow>, d: DebtRow, eq: string, precision: nat, m: seq<Entry>)
    requires Accumulated(upper, participants, debts, eq, precision, m) && !Counts(upper, d, eq)
    ensures Accumulated(upper, participants, debts + [d], eq, precision, m)
  {
    hide Party, Counts, DecimalToAtoms, NetOf, Get, Total, Values, Pids;
    NewParty(upper, debts, d, eq);
    forall p { NetOfStep(upper, debts, d, eq, precision, p); }
  }

  /** Every participant and every party of a counted debt appears once, with its credits minus
      its debts, and the amounts cancel out in total. */
  method NetByPid(upper: string -> string, participants: seq<string>, debts: seq<DebtRow>, eq: string, precision: nat) returns (m: seq<Entry>)
    ensures Accumulated(upper, participants, debts, eq, precision, m)
  {
    hide *;
    m := [];
    NothingYet(upper, eq, precision);
    assert participants[..0] == [];
    for i := 0 to |participants|
      invariant Accumulated(upper, participants[..i], [], eq, precision, m)
    {
      ZeroKeeps(upper, participants, i, eq, precision, m);
      m := Put(m, participants[i], 0);
    }
    assert participants[..|participants|] == participants && debts[..0] == [];
    for i := 0 to |debts|
      invariant Accumulated(upper, participants, debts[..i], eq, precision, m)
    {
      var d := debts[i];
      assert debts[..i + 1] == debts[..i] + [d];
      if Counts(upper, d, eq) {
        RecordKeeps(upper, participants, debts[..i], d, eq, precision, m);
        m := Record(m, d, DecimalToAtoms(d.amount, precision));
      } else {
        SkipKeeps(upper, participants, debts[..i], d, eq, precision, m);
      }
    }
    assert debts[..|debts|] == debts;
  }

  lemma ZeroKeeps(upper: string -> string, participants: seq<string>, i: nat, eq: string, precision: nat, m: seq<Entry>)
    requires i < |participants| && Accumulated(upper, participants[..i], [], eq, precision, m)
    ensures Accumulated(upper, participants[..i + 1], [], eq, precision, Put(m, participants[i], 0))
  {
    hide Put, Get, Total, Values, Pids;
    var p := participants[i];
    PutTotal(m, p, 0);
    PutPids(m, p, 0);
    assert Get(m, p) == NetOf(upper, [], eq, precision, p);
    assert participants[..i + 1] == participants[..i] + [p];
    forall q ensures Get(Put(m, p, 0), q) == NetOf(upper, [], eq, precision, q) {
      PutGet(m, p, 0, q);
    }
  }

  // ----- the histogram -----

  const BinsCount := 20

  datatype Bin = Bin(from: int, to: int, count: nat)

  function Step(lo: int, hi: int): (s: int)
    requires lo <= hi
    ensures s >= 1
  {
    var step := (hi - lo) / BinsCount;
    if step > 0 then step else 1
  }

  function From(lo: int, hi: int, i: nat): int
    requires lo <= hi
  {
    lo + i * Step(lo, hi)
  }

  /** The last bin ends at the greatest value, the others where the next one starts. */
  function To(lo: int, hi: int, i: nat): int
    requires lo <= hi
  {
    if i == BinsCount - 1 then hi else From(lo, hi, i) + Step(lo, hi)
  }

  /** Bins are closed below and open above, but for the last, which is closed. */
  predicate Belongs(lo: int, hi: int, i: nat, v: int)
    requires lo <= hi
  {
    From(lo, hi, i) <= v && (if i == BinsCount - 1 then v <= To(lo, hi, i) else v < To(lo, hi, i))
  }

  function HowMany(vals: seq<int>, lo: int, hi: int, i: nat): nat
    requires lo <= hi
  {
    if vals == [] then 0
    else HowMany(vals[..|vals| - 1], lo, hi, i) + if Belongs(lo, hi, i, vals[|vals| - 1]) then 1 else 0
  }

  function Clamp(lo: int, hi: int, v: int): (i: nat)
    requires lo <= v <= hi
    ensures i < BinsCount
  {
    var idx := (v - lo) / Step(lo, hi);
    if idx < BinsCount - 1 then idx else BinsCount - 1
  }

  /** Where a value stands relative to multiples of the step. */
  lemma QuotientIs(x: int, s: int, q: int, i: int)
    requires s >= 1 && q * s <= x < q * s + s
    ensures i * s <= x <==> i <= q
    ensures x < i * s + s <==> q <= i
  {
    if i <= q { Grows(i, q, s); } else { Grows(q + 1, i, s); }
    if q <= i { Grows(q, i, s); } else { Grows(i + 1, q, s); }
  }

  /** Every value lies within the bounds of the bin chosen for it and of no other. */
  lemma ExactlyOneBin(lo: int, hi: int, v: int, i: nat)
    requires lo <= v <= hi && i < BinsCount
    ensures Belongs(lo, hi, i, v) <==> i == Clamp(lo, hi, v)
  {
    var s := Step(lo, hi);
    DivisionBounds(v - lo, s);
    QuotientIs(v - lo, s, (v - lo) / s, i);
  }

  lemma DivisionBounds(x: nat, s: int)
    requires s >= 1
    ensures x / s * s <= x < x / s * s + s
  {
    assert x == x / s * s + x % s;
  }

  lemma Grows(a: int, b: int, s: int)
    requires a <= b && s >= 1
    ensures a * s <= b * s
  {
    assert (b - a) * s >= 0;
    assert b * s == a * s + (b - a) * s;
  }

  /** The bins' bounds follow on from one another; but the last pair of bounds is the wrong way
      round exactly when the values span fewer than nineteen atoms. */
  lemma BinsFollow(lo: int, hi: int, i: nat)
    requires lo < hi && i < BinsCount - 1
    ensures From(lo, hi, 0) == lo && To(lo, hi, BinsCount - 1) == hi
    ensures To(lo, hi, i) == From(lo, hi, i + 1) > From(lo, hi, i)
    ensures From(lo, hi, BinsCount - 1) <= To(lo, hi, BinsCount - 1) <==> hi - lo >= BinsCount - 1
  {
    assert (i + 1) * Step(lo, hi) == i * Step(lo, hi) + Step(lo, hi);
  }

  /** How many values lie in a range closed below, and closed above only if `closed`. */
  function CountIn(vals: seq<int>, a: int, b: int, closed: bool): nat
  {
    if vals == [] then 0 else
      var v := vals[|vals| - 1];
      CountIn(vals[..|vals| - 1], a, b, closed) + if a <= v && (v < b || (closed && v == b)) then 1 else 0
  }

  lemma {:induction false} HowManyCounts(vals: seq<int>, lo: int, hi: int, i: nat)
    requires lo <= hi
    ensures HowMany(vals, lo, hi, i) == CountIn(vals, From(lo, hi, i), To(lo, hi, i), i == 19)
    decreases |vals|
  {
    if vals != [] {
      hide From, To;
      HowManyCounts(vals[..|vals| - 1], lo, hi, i);
    }
  }

  /** The twenty bins in figures: the first nineteen are each a twentieth of the span wide, cut
      down to whole atoms, or one atom wide when the span is below twenty; the last one takes
      what is left up to the greatest value, which belongs to it. */
  ghost predicate TwentyBins(bins: seq<Bin>, vals: seq<int>, lo: int, hi: int)
  {
    var width := if hi - lo >= 20 then (hi - lo) / 20 else 1;
    && |bins| == 20
    && forall i :: 0 <= i < 20 ==>
         && bins[i].from == lo + i * width
         && bins[i].to == (if i == 19 then hi else lo + i * width + width)
         && bins[i].count == CountIn(vals, bins[i].from, bins[i].to, i == 19)
  }

  lemma FilledIsTwentyBins(bins: seq<Bin>, vals: seq<int>, lo: int, hi: int)
    requires lo <= hi && Filled(bins, vals, lo, hi)
    ensures TwentyBins(bins, vals, lo, hi)
  {
    assert Step(lo, hi) == if hi - lo >= 20 then (hi - lo) / 20 else 1;
    forall i | 0 <= i < 20 ensures bins[i].count == CountIn(vals, bins[i].from, bins[i].to, i == 19) {
      HowManyCounts(vals, lo, hi, i);
    }
  }

  function SumCounts(bins: seq<Bin>): nat
  {
    if bins == [] then 0 else SumCounts(bins[..|bins| - 1]) + bins[|bins| - 1].count
  }

  lemma {:induction false} CountOneMore(bins: seq<Bin>, k: nat)
    requires k < |bins|
    ensures SumCounts(bins[k := bins[k].(count := bins[k].count + 1)]) == SumCounts(bins) + 1
    decreases |bins|
  {
    var r := bins[k := bins[k].(count := bins[k].count + 1)];
    var n := |bins| - 1;
    if k == n {
      assert r[..n] == bins[..n];
    } else {
      CountOneMore(bins[..n], k);
      assert r[..n] == bins[..n][k := bins[k].(count := bins[k].count + 1)];
    }
  }

  /** The extremes, folded from zero as the source folds them. */
  method Extremes(vals: seq<int>) returns (lo: int, hi: int)
    ensures lo <= 0 <= hi && forall v :: v in vals ==> lo <= v <= hi
    ensures (lo == 0 || lo in vals) && (hi == 0 || hi in vals)
    ensures vals != [] && Total(vals) == 0 ==> lo in vals && hi in vals
  {
    lo, hi := 0, 0;
    for i := 0 to |vals|
      invariant lo <= 0 <= hi && forall k :: 0 <= k < i ==> lo <= vals[k] <= hi
      invariant (lo == 0 || lo in vals) && (hi == 0 || hi in vals)
    {
      if vals[i] < lo { lo := vals[i]; }
      if vals[i] > hi { hi := vals[i]; }
    }
    if vals != [] && Total(vals) == 0 {
      BalancedStraddlesZero(vals);
    }
  }

  lemma {:induction false} OneSided(vals: seq<int>)
    ensures (forall v :: v in vals ==> v > 0) && vals != [] ==> Total(vals) > 0
    ensures (forall v :: v in vals ==> v < 0) && vals != [] ==> Total(vals) < 0
    decreases |vals|
  {
    if vals != [] {
      assert vals[0] in vals;
      assert forall v :: v in vals[1..] ==> v in vals;
      OneSided(vals[1..]);
    }
  }

  /** Amounts that cancel out have zero between their extremes. */
  lemma BalancedStraddlesZero(vals: seq<int>)
    requires vals != [] && Total(vals) == 0
    ensures exists v :: v in vals && v <= 0
    ensures exists v :: v in vals && v >= 0
  {
    OneSided(vals);
  }

  /** Frames of the twenty bins while they fill up. */
  ghost predicate Filled(bins: seq<Bin>, vals: seq<int>, lo: int, hi: int)
    requires lo <= hi
  {
    && |bins| == BinsCount
    && (forall i :: 0 <= i < BinsCount ==> bins[i].from == From(lo, hi, i) && bins[i].to == To(lo, hi, i))
    && (forall i :: 0 <= i < BinsCount ==> bins[i].count == HowMany(vals, lo, hi, i))
    && SumCounts(bins) == |vals|
  }

  lemma FillOne(bins: seq<Bin>, vals: seq<int>, v: int, lo: int, hi: int)
    requires lo <= v <= hi && Filled(bins, vals, lo, hi)
    ensures var k := Clamp(lo, hi, v);
            Filled(bins[k := bins[k].(count := bins[k].count + 1)], vals + [v], lo, hi)
  {
    hide Belongs, Clamp, From, To, SumCounts;
    var k := Clamp(lo, hi, v);
    var s := vals + [v];
    assert s[..|s| - 1] == vals;
    CountOneMore(bins, k);
    forall i | 0 <= i < BinsCount ensures HowMany(s, lo, hi, i) == HowMany(vals, lo, hi, i) + if i == k then 1 else 0 {
      ExactlyOneBin(lo, hi, v, i);
    }
  }

  lemma {:induction false} EmptySum(bins: seq<Bin>)
    requires forall b :: b in bins ==> b.count == 0
    ensures SumCounts(bins) == 0
    decreases |bins|
  {
    if bins != [] {
      assert bins[|bins| - 1] in bins;
      assert forall b :: b in bins[..|bins| - 1] ==> b in bins;
      EmptySum(bins[..|bins| - 1]);
    }
  }

  /** The histogram: one bin when all values are equal; otherwise twenty, each holding the
      number of values within its bounds, and together every value once. */
  method Distribution(vals: seq<int>) returns (lo: int, hi: int, bins: seq<Bin>)
    ensures lo <= 0 <= hi && forall v :: v in vals ==> lo <= v <= hi
    ensures (lo == 0 || lo in vals) && (hi == 0 || hi in vals)
    ensures vals != [] && Total(vals) == 0 ==> lo in vals && hi in vals
    ensures lo == hi ==> bins == [Bin(lo, hi, |vals|)]
    ensures lo < hi ==> Filled(bins, vals, lo, hi) && TwentyBins(bins, vals, lo, hi)
  {
    lo, hi := Extremes(vals);
    bins := [];
    if hi - lo == 0 {
      bins := [Bin(lo, hi, |vals|)];
    } else {
      for i := 0 to BinsCount
        invariant |bins| == i
        invariant forall j :: 0 <= j < i ==> bins[j] == Bin(From(lo, hi, j), To(lo, hi, j), 0)
      {
        bins := bins + [Bin(From(lo, hi, i), To(lo, hi, i), 0)];
      }
      EmptySum(bins);
      assert vals[..0] == [];
      for i := 0 to |vals|
        invariant Filled(bins, vals[..i], lo, hi)
      {
        assert vals[i] in vals && vals[..i + 1] == vals[..i] + [vals[i]];
        FillOne(bins, vals[..i], vals[i], lo, hi);
        var k := Clamp(lo, hi, vals[i]);
        bins := bins[k := bins[k].(count := bins[k].count + 1)];
      }
      assert vals[..|vals|] == vals;
      FilledIsTwentyBins(bins, vals, lo, hi);
    }
  }

  /** The ends are the least and the greatest net amount anybody has; who has no debt has zero. */
  ghost predicate Spans(upper: string -> string, debts: seq<DebtRow>, eq: string, precision: nat, lo: int, hi: int)
  {
    && (forall p :: lo <= NetOf(upper, debts, eq, precision, p) <= hi)
    && (lo == 0 || exists p :: NetOf(upper, debts, eq, precision, p) == lo)
    && (hi == 0 || exists p :: NetOf(upper, debts, eq, precision, p) == hi)
  }

  lemma {:induction false} ValueOf(m: seq<Entry>, p: string)
    ensures Get(m, p) == 0 || Get(m, p) in Values(m)
    decreases |m|
  {
    if m != [] { ValueOf(m[1..], p); }
  }

  lemma {:induction false} OwnerOf(m: seq<Entry>, v: int) returns (p: string)
    requires Distinct(Pids(m)) && v in Values(m)
    ensures p in Pids(m) && Get(m, p) == v
    decreases |m|
  {
    var pids := Pids(m);
    if m[0].atoms == v {
      p := m[0].pid;
      assert pids[0] == p;
    } else {
      assert Pids(m[1..]) == pids[1..];
      p := OwnerOf(m[1..], v);
      assert p in pids[1..] && pids[0] !in pids[1..];
    }
  }

  lemma SpansNets(upper: string -> string, participants: seq<string>, debts: seq<DebtRow>, eq: string, precision: nat, m: seq<Entry>, lo: int, hi: int)
    requires Accumulated(upper, participants, debts, eq, precision, m)
    requires lo <= 0 <= hi && forall v :: v in Values(m) ==> lo <= v <= hi
    requires (lo == 0 || lo in Values(m)) && (hi == 0 || hi in Values(m))
    ensures Spans(upper, debts, eq, precision, lo, hi)
  {
    hide NetOf, Values, Get, Party;
    forall p ensures lo <= NetOf(upper, debts, eq, precision, p) <= hi {
      ValueOf(m, p);
    }
    if lo != 0 { var p := OwnerOf(m, lo); assert NetOf(upper, debts, eq, precision, p) == lo; }
    if hi != 0 { var p := OwnerOf(m, hi); assert NetOf(upper, debts, eq, precision, p) == hi; }
  }

  /** The whole computation: every participant is counted once, and since the net amounts
      cancel out, both ends of the histogram are amounts somebody really has. */
  method NetDistribution(upper: string -> string, participants: seq<string>, debts: seq<DebtRow>, eq: string, precision: nat)
    returns (m: seq<Entry>, lo: int, hi: int, bins: seq<Bin>)
    ensures Accumulated(upper, participants, debts, eq, precision, m)
    ensures SumCounts(bins) == |m|
    ensures m != [] ==> lo in Values(m) && hi in Values(m)
    ensures lo < hi ==> Filled(bins, Values(m), lo, hi) && TwentyBins(bins, Values(m), lo, hi)
    ensures lo >= hi ==> forall v :: v in Values(m) ==> v == 0
    ensures lo < hi ==> (bins[BinsCount - 1].from <= bins[BinsCount - 1].to <==> hi - lo >= BinsCount - 1)
    ensures Spans(upper, debts, eq, precision, lo, hi)
  {
    m := NetByPid(upper, participants, debts, eq, precision);
    ValuesLength(m);
    lo, hi, bins := Distribution(Values(m));
    SpansNets(upper, participants, debts, eq, precision, m, lo, hi);
    if lo == hi {
      assert bins[..0] == [];
    } else {
      BinsFollow(lo, hi, 0);
    }
  }

  /** The input behind the condition: A owes B two atoms. The amounts -2 and 2 span four, and
      the last bin comes out with its bounds in the wrong order. */
  method NarrowRangeInvertsLastBin(upper: string -> string) returns (bins: seq<Bin>)
    requires upper("UAH") == "UAH"
    ensures |bins| == BinsCount && bins[BinsCount - 1].from > bins[BinsCount - 1].to
  {
    hide NetOf, Accumulated, SumCounts, Values, Spans, From, To, HowMany;
    var debts := [DebtRow("UAH", "A", "B", "2")];
    var m, lo, hi;
    m, lo, hi, bins := NetDistribution(upper, [], debts, "UAH", 0);
    SpanOfOneDebt(upper, lo, hi);
    assert Filled(bins, Values(m), lo, hi);
  }

  lemma SpanOfOneDebt(upper: string -> string, lo: int, hi: int)
    requires upper("UAH") == "UAH" && Spans(upper, [DebtRow("UAH", "A", "B", "2")], "UAH", 0, lo, hi)
    ensures lo == -2 && hi == 2
  {
    OneDebt(upper);
    hide NetOf;
    var debts := [DebtRow("UAH", "A", "B", "2")];
    assert lo <= NetOf(upper, debts, "UAH", 0, "A") <= hi;
    assert lo <= NetOf(upper, debts, "UAH", 0, "B") <= hi;
  }

  lemma OneDebt(upper: string -> string)
    requires upper("UAH") == "UAH"
    ensures forall p :: NetOf(upper, [DebtRow("UAH", "A", "B", "2")], "UAH", 0, p) == if p == "A" then -2 else if p == "B" then 2 else 0
  {
    hide Trim, DecimalToAtoms;
    TwoAtoms();
    var d := DebtRow("UAH", "A", "B", "2");
    assert Trim("UAH") == "UAH";
    assert Counts(upper, d, "UAH");
    hide Counts;
    forall p ensures NetOf(upper, [d], "UAH", 0, p) == if p == "A" then -2 else if p == "B" then 2 else 0 {
      NetOfStep(upper, [], d, "UAH", 0, p);
      assert [] + [d] == [d];
    }
  }

  lemma TwoAtoms()
    ensures DecimalToAtoms("2", 0) == 2
  {
    var p := Parts(false, "2", "");
    assert Compose(p) == "2";
    MatchCompose(p);
    assert Trim("2") == "2";
    assert p.whole + Fit(p.frac, 0) == "2";
    assert "2"[..0] == [];
  }
}
