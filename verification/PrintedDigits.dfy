/**
 Why `print_number` falls back on 17 digits: a text that is right to 17 significant digits
 denotes the double it was printed from.
 */
module PrintedDigits {
  import opened Bytes
  import opened Doubles
  import opened Numbers
  import opened NumberSyntax

  /** The text is a number of the grammar within half a unit, 10^k, of the last of `digits` digits of `d`. */
  predicate WritesAs(t: bytes, d: real, digits: nat, n: JsonNumber, k: int) {
    && ValidNumber(n) && Syntax(n) == t && TenPower(k + digits - 1) <= Abs(d)
    && Distance(Exact(n), d) <= TenPower(k) / 2.0
  }

  /** What `sprintf` does for a format like "%1.17g" and a value other than 0. */
  ghost predicate Writes(t: bytes, d: real, digits: nat) {
    exists n: JsonNumber, k: int :: WritesAs(t, d, digits, n, k)
  }

  lemma {:induction false} TenNext(k: int)
    ensures TenPower(k) > 0.0 && TenPower(k + 1) == 10.0 * TenPower(k)
  {
    if k < 0 {
      assert Pow10(-k) == 10.0 * Pow10(-k - 1);
      var p := Pow10(-k - 1);
      assert p * (1.0 / p) == 1.0;
      Quotient(1.0, 1.0 / p / 10.0, 10.0 * p);
    }
  }

  lemma {:induction false} TenFour(k: int)
    ensures TenPower(k) > 0.0 && TenPower(k + 4) == 10000.0 * TenPower(k)
  {
    hide TenPower;
    TenNext(k);
    TenNext(k + 1);
    TenNext(k + 2);
    TenNext(k + 3);
  }

  lemma {:induction false} TenSixteen(k: int)
    ensures TenPower(k) > 0.0 && TenPower(k + 16) == 10000000000000000.0 * TenPower(k)
  {
    hide TenPower;
    TenFour(k);
    TenFour(k + 4);
    TenFour(k + 8);
    TenFour(k + 12);
  }

  /** A double has more room beside it than a unit of its 17th digit. */
  lemma {:induction false} Room(d: real, k: int)
    requires d > 0.0 && TenPower(k + 16) <= d
    ensures TenPower(k) < Pow2(Last(d)) && TenPower(k) < d
    ensures d == Pow2(Exponent(d)) ==> TenPower(k) < Pow2(Last(d)) / 2.0
  {
    hide TenPower, Pow2, Last, Exponent;
    TenSixteen(k);
    LastInRange(d);
    LastBelow(d, Last(d));
    Pow53(Last(d));
    if d == Pow2(Exponent(d)) {
      LastNear(d);
      Pow2Grows(Exponent(d), Last(d) + 52);
      Pow2Next(Last(d) + 52);
    }
  }

  lemma {:induction false} LastNear(d: real)
    requires d > 0.0
    ensures Exponent(d) <= Last(d) + 52
  {
    hide Exponent;
  }

  lemma {:induction false} SeventeenDenote(y: real, d: real, k: int)
    requires d > 0.0 && IsDouble(d) && TenPower(k + 16) <= d && Distance(y, d) <= TenPower(k) / 2.0
    ensures Round(y) == d
  {
    hide TenPower, Pow2, Last, Exponent, Round, IsDouble;
    Room(d, k);
    RoundsTo(y, d);
  }

  /** A double whose 17 digit text is right to half a unit of the last digit is denoted by that text. */
  lemma {:induction false} SeventeenDigits(f: Sprintf, d: real)
    requires IsDouble(d) && d != 0.0 && Writes(CString(f.g17(d)), d, 17)
    ensures Reads17(f, d)
  {
    hide TenPower, Round, IsDouble, Strtod, Exact, Syntax;
    var t := CString(f.g17(d));
    var n: JsonNumber, k: int :| WritesAs(t, d, 17, n, k);
    SyntaxScans(n);
    SyntaxChars(n);
    var y := Exact(n);
    if d > 0.0 {
      SeventeenDenote(y, d, k);
    } else {
      Negated(d);
      SeventeenDenote(-y, -d, k);
      Opposite(-y);
    }
  }

  // ----- numbers of at most 15 digits -----

  const LIMIT: int := LIMIT_15

  /** Below 2^1024, where the doubles end. */
  predicate Finite(d: real) {
    Abs(d) < Pow2(1024)
  }

  /** A decimal number of at most 15 digits, in the range of the doubles with full precision. */
  predicate IsDecimal15(x: real, m: int, k: int) {
    && x == m as real * TenPower(k) && -LIMIT < m < LIMIT
    && x != 0.0 && Pow2(-1022) <= Abs(x)
  }

  /** What `sprintf` does for "%1.15g": the nearest multiple of 10^k, when `d` has its first digit at 10^(k + 14). */
  predicate WritesAs15(t: bytes, d: real, n: JsonNumber, q: int, k: int) {
    && ValidNumber(n) && Syntax(n) == t && TenPower(k + 14) <= Abs(d) < TenPower(k + 15)
    && Exact(n) == q as real * TenPower(k) && Distance(Exact(n), d) <= TenPower(k) / 2.0
  }

  ghost predicate Writes15(t: bytes, d: real) {
    exists n: JsonNumber, q: int, k: int :: WritesAs15(t, d, n, q, k)
  }

  lemma {:induction false} TenFifteen(k: int)
    ensures TenPower(k) > 0.0 && TenPower(k + 15) == 1000000000000000.0 * TenPower(k)
    ensures TenPower(k + 14) == 100000000000000.0 * TenPower(k)
  {
    hide TenPower;
    TenFour(k);
    TenFour(k + 4);
    TenFour(k + 8);
    TenNext(k + 12);
    TenNext(k + 13);
    TenNext(k + 14);
  }

  lemma {:induction false} TenGrows(a: int, b: int)
    requires a <= b
    ensures TenPower(a) <= TenPower(b)
    decreases b - a
  {
    hide TenPower;
    if a < b {
      TenGrows(a + 1, b);
      TenNext(a);
    }
  }

  /** A multiple of 10^e is a multiple of any smaller power. */
  lemma {:induction false} TenFiner(x: real, m: int, e: int, k: int) returns (n: int)
    requires k <= e && x == m as real * TenPower(e)
    ensures x == n as real * TenPower(k)
    decreases e - k
  {
    hide TenPower;
    if k == e {
      n := m;
    } else {
      TenNext(e - 1);
      TenTimes(m, TenPower(e - 1));
      n := TenFiner(x, 10 * m, e - 1, k);
    }
  }

  lemma {:induction false} TenTimes(m: int, p: real)
    ensures m as real * (10.0 * p) == (10 * m) as real * p
  {
    assert (10 * m) as real == 10.0 * m as real;
  }

  /** How far a number is from the double nearest to it, in the range with full precision. */
  lemma {:induction false} RoundClose(x: real)
    requires x >= Pow2(-1022)
    ensures Distance(x, Round(x)) <= x / 9007199254740992.0
  {
    hide Pow2, Exponent;
    var u := Pow2(Last(x));
    var y := Times(x, u);
    var n := NearestEven(y);
    HalfUnit(x, y, n, u, RoundPositive(x));
    ExponentBelow(x, -1022);
    Pow2Grows(Last(x) + 52, Exponent(x));
    Pow53(Last(x));
    Pow2Next(Last(x) + 52);
    RoundIs(x);
  }

  lemma {:induction false} RoundIs(x: real)
    requires x > 0.0
    ensures Round(x) == RoundPositive(x)
  {
  }

  lemma {:induction false} HalfUnit(x: real, y: real, n: int, u: real, z: real)
    requires u > 0.0 && y * u == x && n == NearestEven(y) && z == n as real * u
    ensures Distance(x, z) <= u / 2.0
  {
    hide NearestEven, Distance;
    NearestHalf(y);
    ScaledDistance(x, y, n as real, u, z);
    Monotone(Distance(y, n as real), 0.5, u);
  }

  lemma {:induction false} NearestHalf(y: real)
    ensures Distance(y, NearestEven(y) as real) <= 0.5
  {
  }


  /** The double is less than half a unit of its 15th digit away from the decimal. */
  lemma {:induction false} Inside(x: real, d: real, k: int)
    requires x > 0.0 && Distance(x, d) <= x / 9007199254740992.0 && d < TenPower(k + 15)
    ensures Distance(x, d) < TenPower(k) / 2.0 && d > 0.0
  {
    hide TenPower;
    TenFifteen(k);
  }

  /** The unit of the printed digits is no larger than the one the decimal is written in. */
  lemma {:induction false} UnitFits(x: real, m: int, e: int, d: real, k: int)
    requires x > 0.0 && x == m as real * TenPower(e) && m < LIMIT && TenPower(k + 14) <= d
    requires Distance(x, d) <= x / 9007199254740992.0
    ensures k <= e
  {
    hide TenPower;
    if k > e {
      TenFifteen(e);
      TenGrows(e + 15, k + 14);
      BelowLimit(x, m, TenPower(e));
    }
  }

  lemma {:induction false} BelowLimit(x: real, m: int, p: real)
    requires m < LIMIT && p > 0.0 && x == m as real * p
    ensures x <= 1000000000000000.0 * p - p
  {
    assert (m + 1) as real <= 1000000000000000.0;
    assert x == (m + 1) as real * p - p;
    Monotone((m + 1) as real, 1000000000000000.0, p);
  }

  /** Two multiples of a number that are nearer to each other than that are the same. */
  lemma {:induction false} SameMultiple(x: real, a: int, y: real, b: int, d: real, u: real)
    requires u > 0.0 && x == a as real * u && y == b as real * u
    requires Distance(x, d) < u / 2.0 && Distance(y, d) <= u / 2.0
    ensures x == y
  {
    if x != y {
      Multiples(a, b, u, x, y);
    }
  }

  /** Printed to 15 digits, the double nearest to a decimal of at most 15 digits is that decimal again. */
  lemma {:induction false} FifteenDenote(x: real, m: int, e: int, d: real, y: real, q: int, k: int)
    requires IsDecimal15(x, m, e) && x > 0.0 && d == Round(x)
    requires TenPower(k + 14) <= d < TenPower(k + 15)
    requires y == q as real * TenPower(k) && Distance(y, d) <= TenPower(k) / 2.0
    ensures y == x
  {
    hide TenPower, Pow2, Round, Distance;
    RoundClose(x);
    Inside(x, d, k);
    UnitFits(x, m, e, d, k);
    var a := TenFiner(x, m, e, k);
    TenNext(k);
    SameMultiple(x, a, y, q, d, TenPower(k));
  }

  /**
   Every number written with at most 15 significant digits comes back from printing as the
   double it was read as.
   */
  lemma {:induction false} FifteenDigits(f: Sprintf, x: real, m: int, e: int)
    requires IsDecimal15(x, m, e) && Writes15(CString(f.g15(Round(x))), Round(x))
    ensures Reads15(f, Round(x)) && RereadNumber(f, Round(x)) == Round(x)
  {
    hide TenPower, Pow2, Round, Strtod, Exact, Syntax;
    var d := Round(x);
    var t := CString(f.g15(d));
    var n: JsonNumber, q: int, k: int :| WritesAs15(t, d, n, q, k);
    SyntaxScans(n);
    SyntaxChars(n);
    var y := Exact(n);
    if x > 0.0 {
      RoundClose(x);
      FifteenDenote(x, m, e, d, y, q, k);
    } else {
      Opposite(-x);
      RoundClose(-x);
      OppositeDecimal(x, m, e);
      OppositeMultiple(y, q, TenPower(k));
      FifteenDenote(-x, -m, e, -d, -y, -q, k);
    }
    CompareSelf(d);
    NumberSurvives(f, d);
  }

  lemma {:induction false} OppositeDecimal(x: real, m: int, e: int)
    requires IsDecimal15(x, m, e)
    ensures IsDecimal15(-x, -m, e)
  {
    hide TenPower, Pow2;
    OppositeMultiple(x, m, TenPower(e));
  }

  lemma {:induction false} OppositeMultiple(x: real, m: int, p: real)
    requires x == m as real * p
    ensures -x == (-m) as real * p
  {
  }

  /** Integers of at most 15 digits are such decimals, and doubles. */
  lemma {:induction false} IntegerDecimal(n: int)
    requires -LIMIT < n < LIMIT && n != 0
    ensures IsDecimal15(n as real, n, 0) && Round(n as real) == n as real && Finite(n as real)
  {
    hide Pow2, Round, IsDouble, TenPower;
    IntegersAreDoubles(n);
    FixedByRound(n as real);
    assert TenPower(0) == 1.0 by { TenZero(); }
    assert Pow2(0) == 1.0 by { PowZero(); }
    Pow2Grows(-1022, 0);
    Pow53(0);
    Pow2Grows(53, 1024);
  }

  lemma {:induction false} TenZero()
    ensures TenPower(0) == 1.0
  {
  }

  lemma {:induction false} FixedByRound(x: real)
    requires IsDouble(x)
    ensures Round(x) == x
  {
  }

  // ----- a correct library -----

  /** What the C standard says of the texts, and that the one `print_number` picks fits its 26 byte buffer. */
  ghost predicate CorrectFor(f: Sprintf, d: real) {
    && Writes15(CString(f.g15(d)), d) && Writes(CString(f.g17(d)), d, 17)
    && |NumberText(f, d)| <= 25
  }

  ghost predicate Correct(f: Sprintf) {
    f.g15(0.0) == [ZERO] && forall d: real | IsDouble(d) && Finite(d) && d != 0.0 :: CorrectFor(f, d)
  }

  lemma {:induction false} ZeroPrints(f: Sprintf)
    requires Correct(f)
    ensures NumberText(f, 0.0) == [ZERO] && NumberToken([ZERO])
    ensures Reads15(f, 0.0) && RereadNumber(f, 0.0) == 0.0
  {
    hide CorrectFor;
    CStringOfText([ZERO], []);
    assert [ZERO] + [] == [ZERO];
    DecimalReadsBack(0);
    assert Decimal(0) == [ZERO];
  }

  /** The text `print_number` picks is a number of the grammar. */
  lemma {:induction false} TextIsNumber(f: Sprintf, d: real) returns (n: JsonNumber)
    requires CorrectFor(f, d)
    ensures ValidNumber(n) && Syntax(n) == NumberText(f, d)
  {
    hide TenPower, Strtod, Exact, Syntax, ValidNumber, CompareDouble;
    var a: JsonNumber, q: int, k: int :| WritesAs15(CString(f.g15(d)), d, a, q, k);
    var b: JsonNumber, e: int :| WritesAs(CString(f.g17(d)), d, 17, b, e);
    n := if NumberText(f, d) == CString(f.g15(d)) then a else b;
  }

  /** With such a library every double prints, as a token, and one of its texts denotes it. */
  lemma {:induction false} CorrectPrints(f: Sprintf, d: real)
    requires Correct(f) && IsDouble(d) && Finite(d)
    ensures NumberToken(NumberText(f, d)) && PrintableNumber(f, d)
    ensures Reads15(f, d) || Reads17(f, d)
  {
    hide TenPower, Strtod, Exact, Syntax, ValidNumber, NumberText, NumberToken, Reads15, Reads17, IsDouble, Finite;
    if d == 0.0 {
      ZeroPrints(f);
    } else {
      assert CorrectFor(f, d);
      var n := TextIsNumber(f, d);
      TokenIffFits(n);
      SeventeenDigits(f, d);
    }
  }
}
