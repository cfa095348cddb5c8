/** Decimal strings and integer atoms: the pair of conversions the mock administration API
    uses for every amount. */
module Decimals {
  import opened Options

  // ----- digit strings and their values -----

  predicate IsDigit(c: char)
  {
    '0' <= c <= '9'
  }

  predicate Digits(s: string)
  {
    forall c :: c in s ==> IsDigit(c)
  }

  function DigitValue(c: char): (d: nat)
    requires IsDigit(c)
    ensures d <= 9
  {
    c as int - '0' as int
  }

  function DigitChar(d: nat): (c: char)
    requires d <= 9
    ensures IsDigit(c) && DigitValue(c) == d
  {
    (d + '0' as int) as char
  }

  function Pow10(n: nat): (r: nat)
    ensures r > 0
  {
    if n == 0 then 1 else 10 * Pow10(n - 1)
  }

  /** The number a digit string denotes. */
  function Val(s: string): nat
    requires Digits(s)
  {
    if s == [] then 0 else 10 * Val(s[..|s| - 1]) + DigitValue(s[|s| - 1])
  }

  function Zeros(n: nat): (s: string)
    ensures |s| == n && Digits(s) && forall c :: c in s ==> c == '0'
  {
    seq(n, i => '0')
  }

  lemma {:induction false} Pow10Add(m: nat, n: nat)
    ensures Pow10(m + n) == Pow10(m) * Pow10(n)
  {
    if m > 0 {
      Pow10Add(m - 1, n);
      assert Pow10(m + n) == 10 * Pow10(m - 1 + n);
      assert Pow10(m) * Pow10(n) == 10 * (Pow10(m - 1) * Pow10(n));
    }
  }

  lemma {:induction false} ValConcat(a: string, b: string)
    requires Digits(a) && Digits(b)
    ensures Digits(a + b) && Val(a + b) == Val(a) * Pow10(|b|) + Val(b)
    decreases |b|
  {
    if b == [] {
      assert a + b == a;
    } else {
      var init, last := b[..|b| - 1], b[|b| - 1];
      ValConcat(a, init);
      ValLast(a + b, a + init, last);
      ValLast(b, init, last);
      TenTimes(Val(a), Pow10(|init|));
    }
  }

  lemma ValLast(s: string, init: string, last: char)
    requires s != [] && Digits(s) && s == init + [last]
    ensures Digits(init) && IsDigit(last) && Val(s) == 10 * Val(init) + DigitValue(last)
  {
    assert s[..|s| - 1] == init && s[|s| - 1] == last;
  }

  lemma TenTimes(x: nat, y: nat)
    ensures x * (10 * y) == 10 * (x * y)
  {
  }

  lemma {:induction false} ValBound(s: string)
    requires Digits(s)
    ensures Val(s) < Pow10(|s|)
    decreases |s|
  {
    if s != [] {
      ValBound(s[..|s| - 1]);
    }
  }

  lemma {:induction false} ValZeros(n: nat)
    ensures Val(Zeros(n)) == 0
  {
    if n > 0 {
      ValZeros(n - 1);
      assert Zeros(n)[..n - 1] == Zeros(n - 1);
    }
  }

  lemma LeadingZero(s: string)
    requires Digits(s) && s != [] && s[0] == '0'
    ensures Digits(s[1..]) && Val(s[1..]) == Val(s)
  {
    assert s == [s[0]] + s[1..];
    assert Digits([s[0]]) && Val([s[0]]) == 0 by { assert [s[0]][..0] == []; }
    ValConcat([s[0]], s[1..]);
  }

  /** Leading zeros go, the last digit stays. */
  function Strip(s: string): (r: string)
    requires Digits(s)
    ensures Digits(r) && Val(r) == Val(s)
    ensures s != [] ==> Canonical(r)
    ensures s == r || (s != [] && s[0] == '0')
    decreases |s|
  {
    if |s| > 1 && s[0] == '0' then LeadingZero(s); Strip(s[1..]) else s
  }

  /** How an integer is written: digits, and no zero in front of another digit. */
  predicate Canonical(s: string)
  {
    s != [] && Digits(s) && (|s| == 1 || s[0] != '0')
  }

  /** The usual decimal writing of a natural number. */
  function Show(n: nat): (s: string)
    ensures Canonical(s) && Val(s) == n
    ensures n > 0 ==> s[0] != '0'
  {
    if n < 10 then
      var s := [DigitChar(n)];
      assert s[..0] == [];
      s
    else
      var s := Show(n / 10) + [DigitChar(n % 10)];
      assert s[..|s| - 1] == Show(n / 10);
      s
  }

  lemma {:induction false} ValPositive(s: string)
    requires Digits(s) && s != [] && s[0] != '0'
    ensures Val(s) >= Pow10(|s| - 1) >= 1
    decreases |s|
  {
    if |s| == 1 {
      assert s[..0] == [];
      assert s[0] in s;
      assert Val(s) == DigitValue(s[0]);
    } else {
      ValPositive(s[..|s| - 1]);
    }
  }

  /** A number has one canonical writing. */
  lemma {:induction false} ShowUnique(s: string)
    requires Canonical(s)
    ensures Show(Val(s)) == s
    decreases |s|
  {
    var init, last := s[..|s| - 1], s[|s| - 1];
    assert last in s;
    assert DigitChar(DigitValue(last)) == last;
    if |s| == 1 {
      assert init == [];
      assert s == [last];
    } else {
      ValPositive(init);
      ShowUnique(init);
      assert Val(s) / 10 == Val(init) && Val(s) % 10 == DigitValue(last);
      assert s == init + [last];
    }
  }

  // ----- the accepted texts -----

  /** White space as the language's `trim` defines it. */
  predicate Blank(c: char)
  {
    || '\t' <= c <= '\r' || c == ' ' || c == '\U{00A0}' || c == '\U{1680}' || '\U{2000}' <= c <= '\U{200A}'
    || c == '\U{2028}' || c == '\U{2029}' || c == '\U{202F}' || c == '\U{205F}' || c == '\U{3000}' || c == '\U{FEFF}'
  }

  function Trim(s: string): (r: string)
    ensures r == [] || (!Blank(r[0]) && !Blank(r[|r| - 1]))
    ensures (s == [] || (!Blank(s[0]) && !Blank(s[|s| - 1]))) ==> r == s
    decreases |s|
  {
    if s == [] then s
    else if Blank(s[0]) then Trim(s[1..])
    else if Blank(s[|s| - 1]) then Trim(s[..|s| - 1])
    else s
  }

  ghost predicate AllBlank(s: string)
  {
    forall c :: c in s ==> Blank(c)
  }

  lemma {:induction false} TrimDropsTail(s: string, c: char)
    requires Blank(c)
    ensures Trim(s + [c]) == Trim(s)
    decreases |s|
  {
    if s == [] {
      assert (s + [c])[1..] == [];
    } else if Blank(s[0]) {
      assert (s + [c])[1..] == s[1..] + [c];
      TrimDropsTail(s[1..], c);
    } else {
      assert (s + [c])[..|s|] == s;
    }
  }

  /** Blanks on either side make no difference. */
  lemma {:induction false} TrimIgnoresPadding(pre: string, s: string, post: string)
    requires AllBlank(pre) && AllBlank(post)
    ensures Trim(pre + s + post) == Trim(s)
    decreases |pre| + |post|
  {
    var t := pre + s + post;
    if pre != [] {
      assert t[0] == pre[0] && pre[0] in pre && t[1..] == pre[1..] + s + post;
      TrimIgnoresPadding(pre[1..], s, post);
    } else if post != [] {
      var n := |post| - 1;
      assert post[n] in post && t == (pre + s + post[..n]) + [post[n]];
      TrimDropsTail(pre + s + post[..n], post[n]);
      TrimIgnoresPadding(pre, s, post[..n]);
    } else {
      assert t == s;
    }
  }

  /** Exactly the blank prefix and the blank suffix are removed: the result is the one text that
      does not begin or end with a blank and gives the input back with blanks around it. */
  lemma TrimIff(s: string, r: string)
    ensures r == Trim(s) <==> (r == [] || (!Blank(r[0]) && !Blank(r[|r| - 1]))) && exists pre, post :: AllBlank(pre) && AllBlank(post) && s == pre + r + post
  {
    var before, behind := Padding(s);
    if pre, post :| AllBlank(pre) && AllBlank(post) && s == pre + r + post {
      TrimIgnoresPadding(pre, r, post);
    }
  }

  /** The blanks that are removed. */
  lemma {:induction false} Padding(s: string) returns (pre: string, post: string)
    ensures AllBlank(pre) && AllBlank(post) && s == pre + Trim(s) + post
    decreases |s|
  {
    hide Blank, Trim;
    TrimStep(s);
    pre, post := [], [];
    if s == [] {
    } else if Blank(s[0]) {
      pre, post := Padding(s[1..]);
      Surround(s, [s[0]], s[1..], [], pre, Trim(s), post);
      pre := [s[0]] + pre;
    } else if Blank(s[|s| - 1]) {
      var n := |s| - 1;
      pre, post := Padding(s[..n]);
      Surround(s, [], s[..n], [s[n]], pre, Trim(s), post);
      assert [] + pre == pre;
      post := post + [s[n]];
    }
  }

  lemma TrimStep(s: string)
    ensures Trim(s) == if s == [] then s else if Blank(s[0]) then Trim(s[1..]) else if Blank(s[|s| - 1]) then Trim(s[..|s| - 1]) else s
  {
  }

  lemma Surround(s: string, a: string, t: string, b: string, pre: string, r: string, post: string)
    requires AllBlank(a) && AllBlank(b) && AllBlank(pre) && AllBlank(post)
    requires s == a + t + b && t == pre + r + post
    ensures AllBlank(a + pre) && AllBlank(post + b) && s == a + pre + r + (post + b)
  {
    hide Blank;
  }

  /** Optional minus, integer digits, and either no fraction or a point and its digits. */
  datatype Parts = Parts(neg: bool, whole: string, frac: string)

  ghost predicate WellFormed(p: Parts)
  {
    p.whole != [] && Digits(p.whole) && Digits(p.frac)
  }

  function Compose(p: Parts): (s: string)
  {
    (if p.neg then "-" else "") + (p.whole + Tail(p.frac))
  }

  function DigitRun(s: string): (n: nat)
    ensures n <= |s| && Digits(s[..n]) && (n < |s| ==> !IsDigit(s[n]))
  {
    if s != [] && IsDigit(s[0]) then
      var n := DigitRun(s[1..]);
      assert s[..1 + n] == [s[0]] + s[1..][..n];
      1 + n
    else 0
  }

  function Tail(frac: string): string
  {
    if frac == [] then "" else "." + frac
  }

  /** The pattern after the optional minus: digits, then nothing or a point and digits. */
  function MatchBody(body: string): (r: Option<(string, string)>)
    ensures r.Some? ==> r.value.0 != [] && Digits(r.value.0) && Digits(r.value.1) && body == r.value.0 + Tail(r.value.1)
  {
    var n := DigitRun(body);
    if n == 0 then None
    else if n == |body| then
      assert body[..n] == body;
      Some((body, ""))
    else if body[n] == '.' && n + 1 < |body| && DigitRun(body[n + 1..]) == |body| - n - 1 then
      var frac := body[n + 1..];
      assert frac == frac[..|frac|];
      assert body == body[..n] + "." + frac;
      Some((body[..n], frac))
    else None
  }

  /** The anchored pattern. */
  function Match(t: string): (r: Option<Parts>)
    ensures r.Some? ==> WellFormed(r.value) && Compose(r.value) == t
  {
    var neg := t != [] && t[0] == '-';
    var body := if neg then t[1..] else t;
    var r := MatchBody(body);
    if r.None? then None
    else
      assert t == (if neg then "-" else "") + body;
      Some(Parts(neg, r.value.0, r.value.1))
  }

  lemma {:induction false} DigitRunOf(d: string, rest: string)
    requires Digits(d) && (rest == [] || !IsDigit(rest[0]))
    ensures DigitRun(d + rest) == |d|
    decreases |d|
  {
    if d == [] {
      assert d + rest == rest;
    } else {
      assert d[0] in d && (d + rest)[0] == d[0];
      assert (d + rest)[1..] == d[1..] + rest;
      DigitRunOf(d[1..], rest);
    }
  }

  lemma MatchBodyOf(whole: string, frac: string)
    requires whole != [] && Digits(whole) && Digits(frac)
    ensures MatchBody(whole + Tail(frac)) == Some((whole, frac))
  {
    var body := whole + Tail(frac);
    DigitRunOf(whole, Tail(frac));
    assert body[..|whole|] == whole;
    if frac == [] {
      assert body == whole;
    } else {
      assert body[|whole|] == '.' && body[|whole| + 1..] == frac;
      DigitRunOf(frac, []);
      assert frac + [] == frac;
    }
  }

  /** Every text of the shape is matched, and taken apart in the one possible way. */
  lemma MatchCompose(p: Parts)
    requires WellFormed(p)
    ensures Match(Compose(p)) == Some(p)
  {
    hide MatchBody, Tail;
    var t, body := Compose(p), p.whole + Tail(p.frac);
    MatchBodyOf(p.whole, p.frac);
    assert p.whole[0] in p.whole;
    assert t[0] == (if p.neg then '-' else p.whole[0]);
    assert if p.neg then t[1..] == body else t == body;
  }

  /** The pattern rejects exactly the texts that have no such shape. */
  lemma MatchIff(t: string)
    ensures Match(t).Some? <==> exists p :: WellFormed(p) && Compose(p) == t
  {
    if p :| WellFormed(p) && Compose(p) == t {
      MatchCompose(p);
    }
  }

  // ----- the two conversions -----

  /** The fraction padded with zeros, then cut, to the precision. */
  function Fit(frac: string, precision: nat): (f: string)
    requires Digits(frac)
    ensures |f| == precision && Digits(f)
  {
    (frac + Zeros(precision))[..precision]
  }

  function Sign(neg: bool, n: nat): int
  {
    if neg then -(n as int) else n as int
  }

  function DecimalToAtoms(amount: string, precision: nat): int
  {
    match Match(Trim(amount))
    case None => 0
    case Some(p) => Sign(p.neg, Val(Strip(p.whole + Fit(p.frac, precision))))
  }

  function AtomsToDecimal(atoms: int, precision: int): string
  {
    var neg := atoms < 0;
    var s := Show(if neg then -atoms else atoms);
    if precision <= 0 then (if neg then "-" else "") + s
    else
      var padded := if |s| >= precision + 1 then s else Zeros(precision + 1 - |s|) + s;
      (if neg then "-" else "") + (padded[..|padded| - precision] + ("." + padded[|padded| - precision..]))
  }

  /** What the printer writes, taken apart. */
  function Printed(atoms: int, precision: nat): (p: Parts)
    ensures WellFormed(p) && |p.frac| == precision && Canonical(p.whole)
    ensures p.neg <==> atoms < 0
    ensures Sign(p.neg, Val(p.whole + p.frac)) == atoms
  {
    var s := Show(if atoms < 0 then -atoms else atoms);
    var padded := if |s| >= precision + 1 then s else Zeros(precision + 1 - |s|) + s;
    var whole, frac := padded[..|padded| - precision], padded[|padded| - precision..];
    assert padded == whole + frac;
    assert Val(padded) == Val(s) by {
      if |s| < precision + 1 {
        ValZeros(precision + 1 - |s|);
        ValConcat(Zeros(precision + 1 - |s|), s);
      }
    }
    Parts(atoms < 0, whole, frac)
  }

  lemma PrinterWrites(atoms: int, precision: nat)
    ensures AtomsToDecimal(atoms, precision) == Compose(Printed(atoms, precision))
  {
    var p := Printed(atoms, precision);
    if precision == 0 {
      assert p.whole + Tail(p.frac) == Show(if atoms < 0 then -atoms else atoms);
    }
  }

  lemma ComposedIsTrimmed(p: Parts)
    requires WellFormed(p)
    ensures Trim(Compose(p)) == Compose(p)
  {
    var t := Compose(p);
    assert p.whole[0] in p.whole && p.whole[|p.whole| - 1] in p.whole;
    assert p.frac != [] ==> p.frac[|p.frac| - 1] in p.frac;
    assert t[0] == (if p.neg then '-' else p.whole[0]);
    assert t[|t| - 1] == if p.frac == [] then p.whole[|p.whole| - 1] else p.frac[|p.frac| - 1];
  }

  /** Blanks around an amount do not change what it reads as. */
  lemma PaddingIsIgnored(pre: string, amount: string, post: string, precision: nat)
    requires AllBlank(pre) && AllBlank(post)
    ensures DecimalToAtoms(pre + amount + post, precision) == DecimalToAtoms(amount, precision)
  {
    TrimIgnoresPadding(pre, amount, post);
  }

  /** One amount in figures: more fraction digits than the precision are cut off, towards zero. */
  lemma ReadsInFigures()
    ensures DecimalToAtoms(" -12.579 ", 2) == -1257
  {
    hide Blank, Val, MatchBody, Strip, Trim;
    var p := Parts(true, "12", "579");
    assert Compose(p) == "-12.579";
    ComposedIsTrimmed(p);
    MatchCompose(p);
    assert AllBlank(" ") && " -12.579 " == " " + "-12.579" + " " by { BlankSpace(); }
    PaddingIsIgnored(" ", "-12.579", " ", 2);
    assert p.whole + Fit(p.frac, 2) == "1257" by { assert ("579" + Zeros(2))[..2] == "57"; }
    ValInFigures();
  }

  lemma BlankSpace()
    ensures AllBlank(" ")
  {
  }

  lemma ValInFigures()
    ensures Val("1257") == 1257
  {
    assert "1257"[..3] == "125" && "125"[..2] == "12" && "12"[..1] == "1" && "1"[..0] == "";
  }

  /** Reading back a printed amount gives the same atoms, for every integer and precision. */
  lemma RoundTrip(atoms: int, precision: nat)
    ensures DecimalToAtoms(AtomsToDecimal(atoms, precision), precision) == atoms
  {
    var p := Printed(atoms, precision);
    PrinterWrites(atoms, precision);
    ComposedIsTrimmed(p);
    MatchCompose(p);
    assert (p.frac + Zeros(precision))[..precision] == p.frac;
  }

  /** The value of an accepted text is `Val(whole + frac)` over `10^|frac|`; the atoms are that
      value times `10^precision`, truncated towards zero by less than one atom. */
  ghost predicate Truncates(p: Parts, precision: nat, atoms: int)
    requires WellFormed(p)
  {
    exists m: nat :: atoms == Sign(p.neg, m) && Within(m, p, precision)
  }

  ghost predicate Within(m: nat, p: Parts, precision: nat)
    requires WellFormed(p)
  {
    m * Pow10(|p.frac|) <= Val(p.whole + p.frac) * Pow10(precision) < (m + 1) * Pow10(|p.frac|)
  }

  lemma FitLong(p: Parts, precision: nat)
    requires WellFormed(p) && |p.frac| > precision
    ensures Within(Val(p.whole + Fit(p.frac, precision)), p, precision)
  {
    var kept, lost := p.frac[..precision], p.frac[precision..];
    assert (p.frac + Zeros(precision))[..precision] == kept;
    assert p.whole + p.frac == p.whole + kept + lost;
    var m := Val(p.whole + kept);
    ValConcat(p.whole + kept, lost);
    ValBound(lost);
    Pow10Add(|lost|, precision);
    ScaleUp(m, Pow10(|lost|), Val(lost), Pow10(precision));
  }

  lemma ScaleUp(m: nat, k: nat, r: nat, q: nat)
    requires r < k && q > 0
    ensures m * (k * q) <= (m * k + r) * q < (m + 1) * (k * q)
  {
    assert (m * k + r) * q == m * (k * q) + r * q;
    assert (m + 1) * (k * q) == m * (k * q) + k * q;
    assert k * q == r * q + (k - r) * q;
    assert (k - r) * q > 0 && r * q >= 0;
  }

  lemma FitShort(p: Parts, precision: nat)
    requires WellFormed(p) && |p.frac| <= precision
    ensures Val(p.whole + Fit(p.frac, precision)) * Pow10(|p.frac|) == Val(p.whole + p.frac) * Pow10(precision)
  {
    var k := precision - |p.frac|;
    assert (p.frac + Zeros(precision))[..precision] == p.frac + Zeros(k);
    assert p.whole + Fit(p.frac, precision) == p.whole + p.frac + Zeros(k);
    ValConcat(p.whole + p.frac, Zeros(k));
    ValZeros(k);
    Pow10Add(k, |p.frac|);
    MulAssoc(Val(p.whole + p.frac), Pow10(k), Pow10(|p.frac|));
  }

  lemma MulAssoc(a: nat, b: nat, c: nat)
    ensures a * b * c == a * (b * c)
  {
  }

  lemma ParsedAtoms(amount: string, p: Parts, precision: nat)
    requires WellFormed(p) && Trim(amount) == Compose(p)
    ensures DecimalToAtoms(amount, precision) == Sign(p.neg, Val(p.whole + Fit(p.frac, precision)))
  {
    MatchCompose(p);
  }

  /** An accepted text reads as its value cut to whole atoms, and exactly as its value when it
      has no more fraction digits than the precision. */
  lemma ParsingTruncates(amount: string, p: Parts, precision: nat)
    requires WellFormed(p) && Trim(amount) == Compose(p)
    ensures Truncates(p, precision, DecimalToAtoms(amount, precision))
    ensures |p.frac| <= precision ==> DecimalToAtoms(amount, precision) * Pow10(|p.frac|) == Sign(p.neg, Val(p.whole + p.frac)) * Pow10(precision)
  {
    hide Fit, Val, Pow10, DecimalToAtoms, Trim, Compose;
    ParsedAtoms(amount, p, precision);
    var m, k := Val(p.whole + Fit(p.frac, precision)), Pow10(|p.frac|);
    if |p.frac| > precision {
      FitLong(p, precision);
    } else {
      FitShort(p, precision);
      AddOne(m, k);
      Negate(m, k, Val(p.whole + p.frac), Pow10(precision));
    }
    assert Within(m, p, precision);
  }

  lemma AddOne(m: nat, k: nat)
    ensures (m + 1) * k == m * k + k
  {
  }

  lemma Negate(m: int, k: int, v: int, q: int)
    requires m * k == v * q
    ensures (-m) * k == (-v) * q
  {
  }

  /** Any other text reads as zero. */
  lemma MalformedIsZero(amount: string, precision: nat)
    requires forall p :: WellFormed(p) ==> Compose(p) != Trim(amount)
    ensures DecimalToAtoms(amount, precision) == 0
  {
    MatchIff(Trim(amount));
  }

  /** The texts the printer can produce: exactly `precision` fraction digits, no superfluous
      zero in front, no minus sign on zero. */
  ghost predicate CanonicalDecimal(t: string, precision: nat)
  {
    exists p :: WellFormed(p) && t == Compose(p) && CanonicalParts(p, precision)
  }

  ghost predicate CanonicalParts(p: Parts, precision: nat)
    requires WellFormed(p)
  {
    && |p.frac| == precision
    && Canonical(p.whole)
    && (p.neg ==> Val(p.whole + p.frac) != 0)
  }

  /** Printing what was read gives the text back exactly for the canonical texts. */
  lemma PrintedIffCanonical(t: string, precision: nat)
    ensures AtomsToDecimal(DecimalToAtoms(t, precision), precision) == t <==> CanonicalDecimal(t, precision)
  {
    var a := DecimalToAtoms(t, precision);
    PrinterWrites(a, precision);
    var q := Printed(a, precision);
    assert CanonicalParts(q, precision);
    if CanonicalDecimal(t, precision) {
      var p :| WellFormed(p) && t == Compose(p) && CanonicalParts(p, precision);
      CanonicalIsPrinted(p, precision);
    }
  }

  lemma CanonicalIsPrinted(p: Parts, precision: nat)
    requires WellFormed(p) && CanonicalParts(p, precision)
    ensures AtomsToDecimal(DecimalToAtoms(Compose(p), precision), precision) == Compose(p)
  {
    ComposedIsTrimmed(p);
    MatchCompose(p);
    assert (p.frac + Zeros(precision))[..precision] == p.frac;
    var a := DecimalToAtoms(Compose(p), precision);
    assert a == Sign(p.neg, Val(p.whole + p.frac));
    PrinterWrites(a, precision);
    var q := Printed(a, precision);
    SameWriting(p.whole, q.whole, p.frac, q.frac);
    assert p == q;
  }

  /** Equal values with equally long fractions have equal fractions and equal integer parts. */
  lemma SameWriting(a: string, b: string, f: string, g: string)
    requires Canonical(a) && Canonical(b) && Digits(f) && Digits(g) && |f| == |g|
    requires Digits(a + f) && Digits(b + g) && Val(a + f) == Val(b + g)
    ensures a == b && f == g
  {
    ValConcat(a, f);
    ValConcat(b, g);
    ValBound(f);
    ValBound(g);
    DivisionUnique(Val(a), Val(b), Pow10(|f|), Val(f), Val(g));
    ShowUnique(a);
    ShowUnique(b);
    SameDigits(f, g);
  }

  lemma DivisionUnique(a: nat, b: nat, k: nat, r: nat, s: nat)
    requires a * k + r == b * k + s && r < k && s < k
    ensures a == b && r == s
  {
    assert a < b ==> b * k >= a * k + k by { if a < b { AtLeastOneMore(a, b, k); } }
    assert b < a ==> a * k >= b * k + k by { if b < a { AtLeastOneMore(b, a, k); } }
  }

  lemma AtLeastOneMore(a: nat, b: nat, k: nat)
    requires a < b
    ensures b * k >= a * k + k
  {
    var d := b - a - 1;
    assert b * k == (a + 1 + d) * k == a * k + k + d * k;
  }

  lemma {:induction false} SameDigits(f: string, g: string)
    requires Digits(f) && Digits(g) && |f| == |g| && Val(f) == Val(g)
    ensures f == g
    decreases |f|
  {
    if f != [] {
      var n := |f| - 1;
      assert f[n] in f && g[n] in g;
      assert Val(f) == 10 * Val(f[..n]) + DigitValue(f[n]);
      assert Val(g) == 10 * Val(g[..n]) + DigitValue(g[n]);
      SameDigits(f[..n], g[..n]);
      assert f == f[..n] + [f[n]] && g == g[..n] + [g[n]];
    }
  }
}
