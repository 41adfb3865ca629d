/** The number syntax of RFC 8259 section 6, its text and its exact value, and what `strtod` makes of it. */
module NumberSyntax {
  import opened Bytes
  import opened Doubles
  import opened Numbers

  /** number = [ minus ] int [ frac ] [ exp ] */
  datatype JsonNumber = JsonNumber(minus: bool, whole: bytes, frac: Option<bytes>, exp: Option<Exp>)

  /** exp = e [ minus / plus ] 1*DIGIT */
  datatype Exp = Exp(e: byte, sign: Option<byte>, digits: bytes)

  predicate ValidNumber(n: JsonNumber) {
    && n.whole != [] && AllDigits(n.whole) && (|n.whole| > 1 ==> n.whole[0] != ZERO)
    && (n.frac.Some? ==> n.frac.value != [] && AllDigits(n.frac.value))
    && (n.exp.Some? ==> ValidExp(n.exp.value))
  }

  /**
   What the parser takes for a number: the grammar with any leading zeros, and with digits on
   one side of the point only.
   */
  predicate LooseNumber(n: JsonNumber) {
    && AllDigits(n.whole) && (n.frac.Some? ==> AllDigits(n.frac.value))
    && (n.exp.Some? ==> ValidExp(n.exp.value))
    && (n.whole != [] || (n.minus && n.frac.Some? && n.frac.value != []))
  }

  predicate ValidExp(x: Exp) {
    && (x.e == LOWER_E || x.e == UPPER_E)
    && (x.sign.Some? ==> x.sign.value == PLUS || x.sign.value == MINUS)
    && x.digits != [] && AllDigits(x.digits)
  }

  function Syntax(n: JsonNumber): bytes {
    (if n.minus then [MINUS] else []) + (n.whole + (FracText(n.frac) + ExpText(n.exp)))
  }

  function FracText(frac: Option<bytes>): bytes {
    if frac.Some? then [DOT] + frac.value else []
  }

  function ExpText(exp: Option<Exp>): bytes {
    if exp.None? then []
    else [exp.value.e] + ((if exp.value.sign.Some? then [exp.value.sign.value] else []) + exp.value.digits)
  }

  /** The number of a text of the grammar, as the section reads it. */
  function Exact(n: JsonNumber): real
    requires LooseNumber(n)
  {
    var f := if n.frac.Some? then n.frac.value else [];
    var magnitude := (DigitsValue(n.whole) as real + DigitsValue(f) as real / Pow10(|f|)) * TenPower(ExpValue(n.exp));
    if n.minus then -magnitude else magnitude
  }

  function ExpValue(exp: Option<Exp>): int
    requires exp.Some? ==> ValidExp(exp.value)
  {
    if exp.None? then 0
    else
      var k: int := DigitsValue(exp.value.digits);
      if exp.value.sign == Some(MINUS) then -k else k
  }

  /** 10^e */
  function TenPower(e: int): real {
    if e >= 0 then Pow10(e) else 1.0 / Pow10(-e)
  }

  // ----- powers of ten -----

  function Shift(v: real, n: nat): real {
    v * Pow10(n)
  }

  lemma {:induction false} ShiftNext(v: real, n: nat)
    ensures Shift(v, 0) == v && Shift(v, n + 1) == 10.0 * Shift(v, n)
  {
    assert Pow10(n + 1) == 10.0 * Pow10(n);
  }

  lemma {:induction false} DigitsConcat(a: bytes, b: bytes)
    requires AllDigits(a) && AllDigits(b)
    ensures AllDigits(a + b)
    ensures DigitsValue(a + b) as real == Shift(DigitsValue(a) as real, |b|) + DigitsValue(b) as real
  {
    hide DigitsValue, Shift;
    if b == [] {
      assert a + b == a;
      NoDigits();
      ShiftNext(DigitsValue(a) as real, 0);
    } else {
      var b' := b[..|b| - 1];
      DigitsConcat(a, b');
      LastDigit(b);
      assert (a + b)[..|a + b| - 1] == a + b' && (a + b)[|a + b| - 1] == b[|b| - 1];
      LastDigit(a + b);
      ShiftNext(DigitsValue(a) as real, |b| - 1);
    }
  }

  lemma {:induction false} NoDigits()
    ensures DigitsValue([]) == 0
  {
  }

  lemma {:induction false} LastDigit(s: bytes)
    requires s != [] && AllDigits(s)
    ensures var init := s[..|s| - 1];
            AllDigits(init) && DigitsValue(s) as real == DigitsValue(init) as real * 10.0 + (s[|s| - 1] - 48) as real
  {
  }

  lemma {:induction false} Pow10Sum(a: nat, b: nat)
    ensures Pow10(a + b) == Pow10(a) * Pow10(b)
  {
    if a > 0 {
      Pow10Sum(a - 1, b);
    }
  }

  /** Dividing by 10^f first or last. */
  lemma {:induction false} ScaleIs(m: int, e: int, f: nat)
    ensures Scale(m, e - f) == m as real / Pow10(f) * TenPower(e)
  {
    hide Pow10;
    var p := Pow10(f);
    if e - f >= 0 {
      Pow10Sum(e - f, f);
      Cancels(m as real, Pow10(e - f), p);
    } else if e >= 0 {
      Pow10Sum(f - e, e);
      Shortens(m as real, Pow10(f - e), Pow10(e));
    } else {
      Pow10Sum(f, -e);
      Joins(m as real, p, Pow10(-e));
    }
  }

  lemma {:induction false} Cancels(m: real, a: real, p: real)
    requires p > 0.0
    ensures m * a == m / p * (a * p)
  {
    var q := m / p;
    assert q * p == m;
    assert q * (a * p) == q * p * a;
  }

  lemma {:induction false} Shortens(m: real, a: real, b: real)
    requires a > 0.0 && b > 0.0
    ensures a * b > 0.0 && m / a == m / (a * b) * b
  {
    assert a * b > 0.0;
    var q := m / (a * b);
    assert q * (a * b) == m;
    assert (q * b) * a == q * (a * b);
    Quotient(m, q * b, a);
  }

  lemma {:induction false} Joins(m: real, a: real, b: real)
    requires a > 0.0 && b > 0.0
    ensures a * b > 0.0 && m / (a * b) == m / a * (1.0 / b)
  {
    assert a * b > 0.0;
    var q, r := m / a, 1.0 / b;
    assert q * a == m && r * b == 1.0;
    assert (q * r) * (a * b) == (q * a) * (r * b);
    Quotient(m, q * r, a * b);
  }

  /** The digits before and after the point, as one integer and as a sum. */
  lemma {:induction false} MantissaIs(w: bytes, f: bytes)
    requires AllDigits(w) && AllDigits(f)
    ensures AllDigits(w + f)
    ensures DigitsValue(w + f) as real / Pow10(|f|) == DigitsValue(w) as real + DigitsValue(f) as real / Pow10(|f|)
  {
    hide Pow10, DigitsValue;
    DigitsConcat(w, f);
    var p := Pow10(|f|);
    var q := DigitsValue(f) as real / p;
    assert q * p == DigitsValue(f) as real;
    assert (DigitsValue(w) as real + q) * p == DigitsValue(w) as real * p + q * p;
    Quotient(DigitsValue(w + f) as real, DigitsValue(w) as real + q, p);
  }

  lemma {:induction false} ExactIs(n: JsonNumber)
    requires LooseNumber(n)
    ensures var f := if n.frac.Some? then n.frac.value else [];
            AllDigits(n.whole + f) &&
            var m: int := DigitsValue(n.whole + f);
            Exact(n) == Scale(if n.minus then -m else m, ExpValue(n.exp) - |f|)
  {
    hide Pow10, DigitsValue, Scale, TenPower, ExpValue;
    var f := if n.frac.Some? then n.frac.value else [];
    MantissaIs(n.whole, f);
    var m: int := DigitsValue(n.whole + f);
    ScaleIs(if n.minus then -m else m, ExpValue(n.exp), |f|);
    if n.minus {
      NegatedProduct(m, Pow10(|f|), TenPower(ExpValue(n.exp)));
    }
  }

  lemma {:induction false} NegatedProduct(m: int, p: real, t: real)
    requires p > 0.0
    ensures (-m) as real / p * t == -(m as real / p * t)
  {
    var q := m as real / p;
    assert q * p == m as real;
    assert (-q) * p == (-m) as real;
    Quotient((-m) as real, -q, p);
  }

  // ----- what `strtod` makes of the text -----

  /** Where the parts of a text lie: `before`, then `part`, then the rest. */
  lemma {:induction false} PartAt(before: bytes, part: bytes, rest: bytes)
    ensures var s := before + (part + rest);
            s[|before|..|before| + |part|] == part && s[|before| + |part|..] == rest
    ensures before + (part + rest) == (before + part) + rest
    ensures forall k | 0 <= k < |part| :: (before + (part + rest))[|before| + k] == part[k]
  {
  }

  lemma {:induction false} ExpScan(s: bytes, m: nat, exp: Option<Exp>)
    requires m <= |s| && s[m..] == ExpText(exp) && (exp.Some? ==> ValidExp(exp.value))
    ensures ExponentEnd(s, m) == |s| && ExponentValue(s, m) == ExpValue(exp)
    ensures m < |s| ==> !IsDigit(s[m]) && s[m] != DOT
  {
    hide DigitsValue;
    if exp.Some? {
      var x := exp.value;
      var sign: bytes := if x.sign.Some? then [x.sign.value] else [];
      var k := m + 1 + |sign|;
      assert s[m] == s[m..][0] && s[m + 1] == s[m..][1];
      assert s[k..] == s[m..][1 + |sign|..] == x.digits;
      assert forall q | k <= q < |s| :: s[q] == x.digits[q - k];
      DigitRunIs(s, k, |s|);
      assert s[k..|s|] == x.digits;
    }
  }

  lemma {:induction false} FracScan(s: bytes, w: nat, frac: Option<bytes>, exp: Option<Exp>)
    requires w <= |s| && s[w..] == FracText(frac) + ExpText(exp)
    requires (frac.Some? ==> AllDigits(frac.value)) && (exp.Some? ==> ValidExp(exp.value))
    ensures w < |s| ==> !IsDigit(s[w])
    ensures (w < |s| && s[w] == DOT) == frac.Some?
    ensures var m := w + |FracText(frac)|; m <= |s| && ExponentEnd(s, m) == |s| && ExponentValue(s, m) == ExpValue(exp)
    ensures frac.Some? ==> DigitRun(s, w + 1) == w + |FracText(frac)| && s[w + 1..w + |FracText(frac)|] == frac.value
  {
    hide DigitsValue, ExponentEnd, ExponentValue, ExpText, ExpValue, DigitRun;
    if frac.Some? {
      PointAt(s, w, frac.value, ExpText(exp));
      var m := w + 1 + |frac.value|;
      ExpScan(s, m, exp);
      DigitRunIs(s, w + 1, m);
    } else {
      assert s[w..] == ExpText(exp);
      ExpScan(s, w, exp);
    }
  }

  lemma {:induction false} PointAt(s: bytes, w: nat, f: bytes, rest: bytes)
    requires w <= |s| && s[w..] == [DOT] + f + rest
    ensures var m := w + 1 + |f|;
            m <= |s| && s[w] == DOT && s[w + 1..m] == f && s[m..] == rest &&
            forall q | w + 1 <= q < m :: s[q] == f[q - (w + 1)]
  {
    var t := s[w..];
    assert t[0] == s[w] && t[1..1 + |f|] == f && t[1 + |f|..] == rest;
    forall q | w + 1 <= q < w + 1 + |f| ensures s[q] == f[q - (w + 1)] {
      assert s[q] == t[q - w];
    }
  }

  /** The parts of `s`: a sign or none, digits up to `w`, a fraction up to `m`, an exponent. */
  predicate ScansAs(s: bytes, minus: bool, whole: bytes, frac: Option<bytes>, k: int) {
    var i := if minus then 1 else 0;
    var w := i + |whole|;
    var m := w + if frac.Some? then 1 + |frac.value| else 0;
    && m <= |s| && AllDigits(whole) && (whole != [] || (frac.Some? && frac.value != []))
    && IsSign(s, 0) == minus && (minus ==> s[0] == MINUS)
    && DigitRun(s, i) == w && s[i..w] == whole
    && (w < |s| && s[w] == DOT) == frac.Some?
    && (frac.Some? ==> AllDigits(frac.value) && DigitRun(s, w + 1) == m && s[w + 1..m] == frac.value)
    && ExponentEnd(s, m) == |s| && ExponentValue(s, m) == k
  }

  lemma {:induction false} ScanOf(s: bytes, minus: bool, whole: bytes, frac: Option<bytes>, k: int)
    requires ScansAs(s, minus, whole, frac, k)
    ensures var f := if frac.Some? then frac.value else [];
            && AllDigits(whole + f)
            && var v: int := DigitsValue(whole + f);
               Strtod(s) == Scan(Round(Scale(if minus then -v else v, k - |f|)), |s|)
  {
    hide DigitsValue, ExponentEnd, ExponentValue, Scale, Round, DigitRun;
    var w := (if minus then 1 else 0) + |whole|;
    assert s[w..w] == [];
  }

  /** The sign and the digits before the point. */
  lemma {:induction false} StartScan(s: bytes, minus: bool, whole: bytes, rest: bytes)
    requires s == (if minus then [MINUS] else []) + (whole + rest)
    requires (minus || whole != []) && AllDigits(whole) && (rest != [] ==> !IsDigit(rest[0]))
    ensures var i := if minus then 1 else 0;
            var w := i + |whole|;
            && w <= |s| && IsSign(s, 0) == minus && (minus ==> s[0] == MINUS)
            && DigitRun(s, i) == w && s[i..w] == whole && s[w..] == rest
  {
    hide DigitRun;
    var i := if minus then 1 else 0;
    var w := i + |whole|;
    Slices(s, if minus then [MINUS] else [], whole, rest);
    SliceDigits(s, i, w);
    assert w < |s| ==> s[w] == s[w..][0];
    DigitRunIs(s, i, w);
  }

  lemma {:induction false} Slices(s: bytes, before: bytes, part: bytes, rest: bytes)
    requires s == before + (part + rest)
    ensures var i, w := |before|, |before| + |part|;
            w <= |s| && s[..i] == before && s[i..w] == part && s[w..] == rest && (i > 0 ==> s[0] == before[0])
  {
  }

  lemma {:induction false} SliceDigits(s: bytes, i: nat, w: nat)
    requires i <= w <= |s| && AllDigits(s[i..w])
    ensures forall q | i <= q < w :: IsDigit(s[q])
  {
    forall q | i <= q < w ensures IsDigit(s[q]) {
      assert s[i..w][q - i] == s[q];
    }
  }

  /** What follows the digits does not begin with one. */
  lemma {:induction false} RestStarts(n: JsonNumber)
    requires LooseNumber(n)
    ensures var rest := FracText(n.frac) + ExpText(n.exp); rest != [] ==> !IsDigit(rest[0])
  {
  }

  lemma {:induction false} LooseParts(n: JsonNumber)
    requires LooseNumber(n)
    ensures AllDigits(n.whole) && (n.whole != [] || (n.minus && n.frac.Some? && n.frac.value != []))
    ensures (n.frac.Some? ==> AllDigits(n.frac.value)) && (n.exp.Some? ==> ValidExp(n.exp.value))
    ensures Syntax(n) == (if n.minus then [MINUS] else []) + (n.whole + (FracText(n.frac) + ExpText(n.exp)))
  {
  }

  lemma {:induction false} ValidIsLoose(n: JsonNumber)
    requires ValidNumber(n)
    ensures LooseNumber(n)
  {
  }

  /** `strtod` reads every text of the grammar to its end, for the double nearest to its exact value. */
  lemma {:induction false} SyntaxScans(n: JsonNumber)
    requires ValidNumber(n)
    ensures LooseNumber(n) && Strtod(Syntax(n)) == Scan(Round(Exact(n)), |Syntax(n)|)
  {
    hide *;
    ValidIsLoose(n);
    LooseScans(n);
  }

  /** And so it does the looser ones. */
  lemma {:induction false} LooseScans(n: JsonNumber)
    requires LooseNumber(n)
    ensures Strtod(Syntax(n)) == Scan(Round(Exact(n)), |Syntax(n)|)
  {
    hide *;
    LooseParts(n);
    SyntaxParts(n);
    ScanOf(Syntax(n), n.minus, n.whole, n.frac, ExpValue(n.exp));
    ExactIs(n);
  }

  /** What the scan finds in a text of the grammar, part by part. */
  lemma {:induction false} SyntaxParts(n: JsonNumber)
    requires LooseNumber(n)
    ensures ScansAs(Syntax(n), n.minus, n.whole, n.frac, ExpValue(n.exp))
  {
    hide Syntax, FracText, ExpText, ExpValue, LooseNumber, ValidExp, AllDigits, DigitRun, IsSign, ExponentEnd,
      ExponentValue, ScansAs;
    LooseParts(n);
    RestStarts(n);
    var w := (if n.minus then 1 else 0) + |n.whole|;
    StartScan(Syntax(n), n.minus, n.whole, FracText(n.frac) + ExpText(n.exp));
    FracScan(Syntax(n), w, n.frac, n.exp);
    FracLength(n.frac);
    ScansJoin(Syntax(n), n.minus, n.whole, n.frac, ExpValue(n.exp), w, w + |FracText(n.frac)|);
  }

  lemma {:induction false} ScansJoin(s: bytes, minus: bool, whole: bytes, frac: Option<bytes>, k: int, w: nat, m: nat)
    requires AllDigits(whole) && (whole != [] || (frac.Some? && frac.value != []))
    requires w == (if minus then 1 else 0) + |whole| && m == w + if frac.Some? then 1 + |frac.value| else 0
    requires w <= m <= |s| && IsSign(s, 0) == minus && (minus ==> s[0] == MINUS)
    requires DigitRun(s, w - |whole|) == w && s[w - |whole|..w] == whole && (w < |s| && s[w] == DOT) == frac.Some?
    requires frac.Some? ==> AllDigits(frac.value) && DigitRun(s, w + 1) == m && s[w + 1..m] == frac.value
    requires ExponentEnd(s, m) == |s| && ExponentValue(s, m) == k
    ensures ScansAs(s, minus, whole, frac, k)
  {
    hide AllDigits, DigitRun, IsSign, ExponentEnd, ExponentValue;
  }

  lemma {:induction false} FracLength(frac: Option<bytes>)
    ensures |FracText(frac)| == if frac.Some? then 1 + |frac.value| else 0
  {
  }

  lemma {:induction false} SyntaxChars(n: JsonNumber)
    requires LooseNumber(n)
    ensures Syntax(n) != [] && StartsNumber(Syntax(n)[0])
    ensures forall k | 0 <= k < |Syntax(n)| :: InNumber(Syntax(n)[k])
  {
    hide ExpText, FracText;
    assert n.whole != [] ==> IsDigit(n.whole[0]);
    TailChars(n);
  }

  lemma {:induction false} TailChars(n: JsonNumber)
    requires LooseNumber(n)
    ensures forall k | 0 <= k < |FracText(n.frac)| :: InNumber(FracText(n.frac)[k])
    ensures forall k | 0 <= k < |ExpText(n.exp)| :: InNumber(ExpText(n.exp)[k])
  {
  }

  /** Every text of the grammar that fits the buffer of `parse_number`, and no longer one, is taken whole. */
  lemma {:induction false} TokenIffFits(n: JsonNumber)
    requires ValidNumber(n)
    ensures LooseNumber(n)
    ensures NumberToken(Syntax(n)) <==> |Syntax(n)| <= 63
    ensures Strtod(Syntax(n)).value == Round(Exact(n))
  {
    hide Strtod, Exact, Round, Syntax;
    SyntaxScans(n);
    SyntaxChars(n);
  }

  // ----- everything the parser takes for a number -----

  /** The exponent that starts at `m`, where there is one. */
  lemma {:induction false} ReadExp(s: bytes, m: nat) returns (exp: Option<Exp>)
    requires m <= |s|
    ensures (exp.Some? ==> ValidExp(exp.value)) && s[m..ExponentEnd(s, m)] == ExpText(exp)
  {
    hide DigitRun;
    var e := ExponentEnd(s, m);
    if e == m {
      exp := None;
    } else {
      var signed := IsSign(s, m + 1);
      var k := if signed then m + 2 else m + 1;
      exp := Some(Exp(s[m], if signed then Some(s[m + 1]) else None, s[k..e]));
      assert s[m..e] == [s[m]] + ((if signed then [s[m + 1]] else []) + s[k..e]);
    }
  }

  /** What `strtod` takes of a text that begins like a JSON number is a loose number. */
  lemma {:induction false} ReadPrefix(s: bytes) returns (n: JsonNumber)
    requires s != [] && StartsNumber(s[0]) && Strtod(s).used > 0
    ensures LooseNumber(n) && Syntax(n) == s[..Strtod(s).used]
  {
    hide ExponentEnd, DigitsValue, Scale, Round, ExponentValue, ExpText, ValidExp, DigitRun, Syntax, LooseNumber;
    var i := if IsSign(s, 0) then 1 else 0;
    var w := DigitRun(s, i);
    var dot := w < |s| && s[w] == DOT;
    var m := if dot then DigitRun(s, w + 1) else w;
    var exp := ReadExp(s, m);
    n := JsonNumber(i == 1, s[i..w], if dot then Some(s[w + 1..m]) else None, exp);
    TokenText(s, i, w, m, ExponentEnd(s, m), dot, exp);
    PrefixIsLoose(s, i, w, m, dot, exp);
  }

  /** The parts of a token. */
  lemma {:induction false} ReadToken(t: bytes) returns (n: JsonNumber)
    requires NumberToken(t)
    ensures LooseNumber(n) && Syntax(n) == t
  {
    hide Strtod;
    n := ReadPrefix(t);
    assert t[..|t|] == t;
  }

  /** A run of digits in a text, which may go on. */
  lemma {:induction false} RunCovers(s: bytes, i: nat, w: nat)
    requires i <= w <= |s| && forall k | i <= k < w :: IsDigit(s[k])
    ensures DigitRun(s, i) >= w && (w < |s| && !IsDigit(s[w]) ==> DigitRun(s, i) == w)
  {
  }

  lemma {:induction false} ExpCovers(s: bytes, m: nat, exp: Option<Exp>)
    requires (exp.Some? ==> ValidExp(exp.value)) && At(s, m, ExpText(exp))
    ensures ExponentEnd(s, m) >= m + |ExpText(exp)|
  {
    hide DigitRun, AllDigits, At;
    if exp.Some? {
      var x := exp.value;
      var sign: bytes := if x.sign.Some? then [x.sign.value] else [];
      var k := m + 1 + |sign|;
      AtSplit(s, m, [x.e], sign + x.digits);
      AtSplit(s, m + 1, sign, x.digits);
      AtByte(s, m, [x.e], 0);
      SignAt(s, m + 1, x.sign, x.digits);
      DigitsAt(s, k, x.digits);
      RunCovers(s, k, k + |x.digits|);
    }
  }

  lemma {:induction false} SignAt(s: bytes, i: nat, sign: Option<byte>, digits: bytes)
    requires sign.Some? ==> sign.value == PLUS || sign.value == MINUS
    requires digits != [] && AllDigits(digits)
    requires var t: bytes := if sign.Some? then [sign.value] else []; At(s, i, t) && At(s, i + |t|, digits)
    ensures IsSign(s, i) == sign.Some?
  {
    if sign.Some? {
      AtByte(s, i, [sign.value], 0);
    } else {
      AtByte(s, i, digits, 0);
    }
  }

  lemma {:induction false} DigitsAt(s: bytes, i: nat, ds: bytes)
    requires At(s, i, ds) && AllDigits(ds)
    ensures forall k | i <= k < i + |ds| :: IsDigit(s[k])
  {
    forall k | i <= k < i + |ds| ensures IsDigit(s[k]) {
      AtByte(s, i, ds, k - i);
    }
  }

  /** The fraction and the exponent after the digits that end at `w`. */
  lemma {:induction false} TailCovers(s: bytes, w: nat, frac: Option<bytes>, exp: Option<Exp>)
    requires (frac.Some? ==> AllDigits(frac.value)) && (exp.Some? ==> ValidExp(exp.value))
    requires At(s, w, FracText(frac) + ExpText(exp)) && (frac.Some? || exp.Some?)
    ensures w < |s| && !IsDigit(s[w]) && (s[w] == DOT <==> frac.Some?)
    ensures var m := if frac.Some? then DigitRun(s, w + 1) else w;
            && ExponentEnd(s, m) >= w + |FracText(frac)| + |ExpText(exp)|
            && (frac.Some? ==> m >= w + 1 + |frac.value|)
  {
    hide DigitRun, ExponentEnd, ValidExp;
    AtSplit(s, w, FracText(frac), ExpText(exp));
    if exp.Some? {
      ExpStarts(s, w + |FracText(frac)|, exp);
    }
    if frac.Some? {
      AtSplit(s, w, [DOT], frac.value);
      AtByte(s, w, [DOT], 0);
      DigitsAt(s, w + 1, frac.value);
      RunCovers(s, w + 1, w + 1 + |frac.value|);
    }
    if exp.Some? {
      ExpCovers(s, w + |FracText(frac)|, exp);
    }
  }

  lemma {:induction false} ExpStarts(s: bytes, m: nat, exp: Option<Exp>)
    requires exp.Some? && ValidExp(exp.value) && At(s, m, ExpText(exp))
    ensures m < |s| && !IsDigit(s[m]) && s[m] != DOT
  {
    AtByte(s, m, ExpText(exp), 0);
  }

  /** The sign and the digits before the point, which may go on. */
  lemma {:induction false} StartCovers(s: bytes, minus: bool, whole: bytes, tail: bytes)
    requires At(s, 0, (if minus then [MINUS] else []) + (whole + tail)) && AllDigits(whole) && (minus || whole != [])
    ensures var i := if minus then 1 else 0;
            var w := i + |whole|;
            && IsSign(s, 0) == minus && At(s, w, tail) && w <= |s| && DigitRun(s, i) >= w
            && (w < |s| && !IsDigit(s[w]) ==> DigitRun(s, i) == w)
  {
    hide DigitRun;
    var sign: bytes := if minus then [MINUS] else [];
    AtSplit(s, 0, sign, whole + tail);
    AtSplit(s, |sign|, whole, tail);
    if minus {
      AtByte(s, 0, sign, 0);
    } else {
      AtByte(s, 0, whole, 0);
    }
    DigitsAt(s, |sign|, whole);
    RunCovers(s, |sign|, |sign| + |whole|);
  }

  /** And it is the longest one the text begins with. */
  lemma {:induction false} LongestPrefix(s: bytes, n: JsonNumber)
    requires LooseNumber(n) && At(s, 0, Syntax(n))
    ensures Strtod(s).used >= |Syntax(n)|
  {
    hide Strtod, DigitRun, ExponentEnd, FracText, ExpText, ValidExp, At, AllDigits, IsSign, IsDigit, LooseNumber;
    UsedIs(s);
    LooseParts(n);
    StartCovers(s, n.minus, n.whole, FracText(n.frac) + ExpText(n.exp));
    if n.frac.Some? || n.exp.Some? {
      TailCovers(s, (if n.minus then 1 else 0) + |n.whole|, n.frac, n.exp);
    } else {
      NoTail();
    }
  }

  lemma {:induction false} UsedIs(s: bytes)
    ensures var i := if IsSign(s, 0) then 1 else 0;
            var w := DigitRun(s, i);
            var dot := w < |s| && s[w] == DOT;
            var m := if dot then DigitRun(s, w + 1) else w;
            Strtod(s).used == if w == i && (!dot || m == w + 1) then 0 else ExponentEnd(s, m)
  {
    hide DigitRun, ExponentEnd, DigitsValue, Scale, Round, ExponentValue;
  }

  lemma {:induction false} NoTail()
    ensures FracText(None) == [] && ExpText(None) == []
  {
  }

  lemma {:induction false} PrefixIsLoose(s: bytes, i: nat, w: nat, m: nat, dot: bool, exp: Option<Exp>)
    requires i <= w <= |s| && i <= 1 && (exp.Some? ==> ValidExp(exp.value))
    requires forall k | i <= k < w :: IsDigit(s[k])
    requires dot ==> w < m <= |s| && forall k | w + 1 <= k < m :: IsDigit(s[k])
    requires w > i || (i == 1 && dot && m > w + 1)
    ensures LooseNumber(JsonNumber(i == 1, s[i..w], if dot then Some(s[w + 1..m]) else None, exp))
  {
    hide ValidExp;
  }

  lemma {:induction false} TokenText(t: bytes, i: nat, w: nat, m: nat, e: nat, dot: bool, exp: Option<Exp>)
    requires i <= w <= m <= e <= |t| && i <= 1 && (i == 1 ==> t[0] == MINUS) && t[m..e] == ExpText(exp)
    requires if dot then w < m && t[w] == DOT else m == w
    ensures Syntax(JsonNumber(i == 1, t[i..w], if dot then Some(t[w + 1..m]) else None, exp)) == t[..e]
  {
    hide ExpText;
    FourParts(t, i, w, m, e);
    PointText(t, w, m, dot);
    assert i == 1 ==> t[..1] == [MINUS];
    assert t[..0] == [];
  }

  lemma {:induction false} PointText(t: bytes, w: nat, m: nat, dot: bool)
    requires w <= m <= |t| && if dot then w < m && t[w] == DOT else m == w
    ensures t[w..m] == FracText(if dot then Some(t[w + 1..m]) else None)
  {
  }

  lemma {:induction false} FourParts(t: bytes, i: nat, w: nat, m: nat, e: nat)
    requires i <= w <= m <= e <= |t|
    ensures t[..e] == t[..i] + (t[i..w] + (t[w..m] + t[m..e]))
  {
  }

  /** The tokens are exactly the loose numbers of at most 63 bytes. */
  lemma {:induction false} TokenIffLoose(t: bytes)
    ensures NumberToken(t) <==> |t| <= 63 && exists n: JsonNumber :: LooseNumber(n) && Syntax(n) == t
  {
    hide Strtod, Exact, Round, Syntax, LooseNumber;
    if NumberToken(t) {
      var n := ReadToken(t);
      assert LooseNumber(n) && Syntax(n) == t;
    }
    if |t| <= 63 && exists n: JsonNumber :: LooseNumber(n) && Syntax(n) == t {
      var n: JsonNumber :| LooseNumber(n) && Syntax(n) == t;
      LooseScans(n);
      SyntaxChars(n);
    }
  }

  /** And each denotes the double nearest to its exact value. */
  lemma {:induction false} TokenValue(n: JsonNumber)
    requires LooseNumber(n) && NumberToken(Syntax(n))
    ensures Strtod(Syntax(n)).value == Round(Exact(n))
  {
    hide Strtod, Exact, Round, Syntax, LooseNumber;
    LooseScans(n);
  }
}
