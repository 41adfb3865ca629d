/**
 The finite C doubles among the reals, and the rounding of a real to one of them: binary64 of
 IEEE 754, to the nearest and in a tie to the even one, without an upper limit.
 */
module Doubles {

  /** 2^e */
  function Pow2(e: int): (r: real)
    ensures r > 0.0
    decreases if e < 0 then -e else e
  {
    if e == 0 then 1.0 else if e > 0 then 2.0 * Pow2(e - 1) else Pow2(e + 1) / 2.0
  }

  /** The bits of a significand, and the exponent of the smallest double. */
  const DIGITS: nat := 53
  const MIN_EXPONENT: int := -1074

  /** The exponent of the leading bit. */
  function Exponent(x: real): (e: int)
    requires x > 0.0
    ensures Pow2(e) <= x < Pow2(e + 1)
    decreases if x >= 2.0 then x.Floor else if x < 1.0 then (1.0 / x).Floor else 0
  {
    if x >= 2.0 then
      1 + Exponent(x / 2.0)
    else if x < 1.0 then
      Doubling(x);
      Exponent(2.0 * x) - 1
    else 0
  }

  lemma {:induction false} Doubling(x: real)
    requires 0.0 < x < 1.0
    ensures 1.0 / x > 1.0 && 1.0 / (2.0 * x) == 1.0 / x / 2.0
  {
    var y := 1.0 / x;
    assert y * x == 1.0;
    assert (y / 2.0) * (2.0 * x) == 1.0;
    Quotient(1.0, y / 2.0, 2.0 * x);
    Shrinks(x, y);
  }

  lemma {:induction false} Shrinks(x: real, y: real)
    requires x > 0.0
    ensures y <= 1.0 ==> y * x <= x
  {
  }

  lemma {:induction false} Quotient(a: real, q: real, b: real)
    requires b > 0.0 && q * b == a
    ensures a / b == q
  {
  }

  /** The exponent of the last bit a double of this size has. */
  function Last(x: real): int
    requires x > 0.0
  {
    var e := Exponent(x) - (DIGITS - 1);
    if e < MIN_EXPONENT then MIN_EXPONENT else e
  }

  /** The nearest integer, the even one in a tie. */
  function NearestEven(x: real): int {
    var n := x.Floor;
    var rest := x - n as real;
    if rest < 0.5 || (rest == 0.5 && n % 2 == 0) then n else n + 1
  }

  function RoundPositive(x: real): real
    requires x > 0.0
  {
    var ulp := Pow2(Last(x));
    NearestEven(x / ulp) as real * ulp
  }

  /** The double nearest to a real. */
  function Round(x: real): real {
    if x == 0.0 then 0.0 else if x < 0.0 then -RoundPositive(-x) else RoundPositive(x)
  }

  predicate IsDouble(x: real) {
    Round(x) == x
  }

  // ----- powers of two -----

  lemma {:induction false} Pow2Next(e: int)
    ensures Pow2(e + 1) == 2.0 * Pow2(e)
  {
  }

  lemma {:induction false} Pow2Grows(a: int, b: int)
    requires a <= b
    ensures Pow2(a) <= Pow2(b)
    decreases b - a
  {
    if a < b {
      Pow2Grows(a + 1, b);
      Pow2Next(a);
    }
  }

  /** An integer times a power of two is an integer times any smaller one. */
  lemma {:induction false} Finer(x: real, m: int, e: int, k: int) returns (n: int)
    requires k <= e && x == m as real * Pow2(e)
    ensures x == n as real * Pow2(k)
    decreases e - k
  {
    hide Pow2;
    if k == e {
      n := m;
    } else {
      Pow2Next(e - 1);
      Double(m, Pow2(e - 1));
      n := Finer(x, 2 * m, e - 1, k);
    }
  }

  lemma {:induction false} Double(m: int, p: real)
    ensures m as real * (2.0 * p) == (2 * m) as real * p
  {
    assert (2 * m) as real == 2.0 * m as real;
  }

  lemma {:induction false} ExponentBelow(x: real, e: int)
    requires x > 0.0
    ensures x < Pow2(e) <==> Exponent(x) < e
  {
    if Exponent(x) < e {
      Pow2Grows(Exponent(x) + 1, e);
    } else {
      Pow2Grows(e, Exponent(x));
    }
  }

  // ----- what is a double -----

  lemma {:induction false} NearestInteger(n: int)
    ensures NearestEven(n as real) == n
  {
  }

  /** A multiple of its last place is a double. */
  lemma {:induction false} OnGrid(x: real, n: int)
    requires x > 0.0 && x == n as real * Pow2(Last(x))
    ensures IsDouble(x)
  {
    hide NearestEven, Pow2, Last;
    Quotient(x, n as real, Pow2(Last(x)));
    NearestInteger(n);
  }

  lemma {:induction false} ProductBelow(x: real, m: int, p: real)
    requires 0 < m < LIMIT_53 && p > 0.0 && x == m as real * p
    ensures 0.0 < x < LIMIT_53 as real * p
  {
  }

  const LIMIT_53: int := 0x20_0000_0000_0000

  lemma {:induction false} Pow53(e: int)
    ensures Pow2(e + 53) == LIMIT_53 as real * Pow2(e)
  {
    hide Pow2;
    Eight(e);
    Eight(e + 8);
    Eight(e + 16);
    Eight(e + 24);
    Eight(e + 32);
    Eight(e + 40);
    Pow2Next(e + 48);
    Pow2Next(e + 49);
    Pow2Next(e + 50);
    Pow2Next(e + 51);
    Pow2Next(e + 52);
  }

  lemma {:induction false} Eight(e: int)
    ensures Pow2(e + 8) == 256.0 * Pow2(e)
  {
    hide Pow2;
    Pow2Next(e);
    Pow2Next(e + 1);
    Pow2Next(e + 2);
    Pow2Next(e + 3);
    Pow2Next(e + 4);
    Pow2Next(e + 5);
    Pow2Next(e + 6);
    Pow2Next(e + 7);
  }

  lemma {:induction false} LastBelow(x: real, e: int)
    requires x > 0.0 && e >= MIN_EXPONENT
    ensures x < Pow2(e + DIGITS) <==> Last(x) <= e
  {
    ExponentBelow(x, e + DIGITS);
  }

  /** Every significand of at most 53 bits with an exponent in range is a double. */
  lemma {:induction false} Representable(x: real, m: nat, e: int)
    requires 0 < m < 0x20_0000_0000_0000 && e >= -1074 && x == m as real * Pow2(e)
    ensures x > 0.0 && IsDouble(x)
  {
    hide Pow2, Last, IsDouble;
    ProductBelow(x, m, Pow2(e));
    Pow53(e);
    assert Pow2(e + 53) == Pow2(e + DIGITS);
    LastBelow(x, e);
    var n := Finer(x, m, e, Last(x));
    OnGrid(x, n);
  }

  function Distance(x: real, y: real): real {
    if x < y then y - x else x - y
  }

  /** No integer is nearer. */
  lemma {:induction false} NearestIs(x: real, n: int)
    ensures Distance(x, NearestEven(x) as real) <= Distance(x, n as real)
  {
    var f := x.Floor;
    assert NearestEven(x) == f || NearestEven(x) == f + 1;
    if n <= f {
      assert n as real <= f as real;
    } else {
      assert n as real >= (f + 1) as real == f as real + 1.0;
    }
  }

  lemma {:induction false} SameSign(d: real, u: real)
    requires u > 0.0
    ensures d < 0.0 <==> d * u < 0.0
    ensures (-d) * u == -(d * u)
  {
  }

  /** Scaling keeps what is nearer. */
  lemma {:induction false} Scaled(x: real, y: real, q: real, n: real, u: real, a: real, b: real)
    requires u > 0.0 && y * u == x && Distance(y, q) <= Distance(y, n) && a == q * u && b == n * u
    ensures Distance(x, a) <= Distance(x, b)
  {
    hide Distance;
    ScaledDistance(x, y, q, u, a);
    ScaledDistance(x, y, n, u, b);
    Monotone(Distance(y, q), Distance(y, n), u);
  }

  lemma {:induction false} Monotone(a: real, b: real, u: real)
    requires a <= b && u > 0.0
    ensures a * u <= b * u
  {
  }

  lemma {:induction false} ScaledDistance(x: real, y: real, n: real, u: real, a: real)
    requires u > 0.0 && y * u == x && a == n * u
    ensures Distance(x, a) == Distance(y, n) * u
  {
    assert (y - n) * u == y * u - n * u;
    assert (n - y) * u == n * u - y * u;
    SameSign(y - n, u);
  }

  lemma {:induction false} Times(x: real, u: real) returns (y: real)
    requires u > 0.0
    ensures y == x / u && y * u == x
  {
    y := x / u;
  }

  /** Among the multiples of its last place none is nearer to a number than what it is rounded to. */
  lemma {:induction false} NearestMultiple(x: real, n: int, z: real)
    requires x > 0.0 && z == n as real * Pow2(Last(x))
    ensures Distance(x, RoundPositive(x)) <= Distance(x, z)
  {
    hide Pow2, Last, NearestEven, Distance;
    var u := Pow2(Last(x));
    var y := Times(x, u);
    var q := NearestEven(y);
    NearestIs(y, n);
    Scaled(x, y, q as real, n as real, u, RoundPositive(x), z);
  }

  /** What is rounded lies on the grid of its last place, and at most at the next power of two. */
  lemma {:induction false} RoundedSize(x: real) returns (m: nat)
    requires x > 0.0
    ensures m <= LIMIT_53 && RoundPositive(x) == m as real * Pow2(Last(x))
  {
    hide Pow2, Last, NearestEven;
    var u := Pow2(Last(x));
    var y := Times(x, u);
    LastInRange(x);
    LastBelow(x, Last(x));
    Pow53(Last(x));
    m := Rounded(x, y, u);
  }

  lemma {:induction false} LastInRange(x: real)
    requires x > 0.0
    ensures Last(x) >= MIN_EXPONENT
  {
    hide Exponent;
  }

  lemma {:induction false} Rounded(x: real, y: real, u: real) returns (m: nat)
    requires u > 0.0 && y * u == x && 0.0 < x < LIMIT_53 as real * u
    ensures m <= LIMIT_53 && m == NearestEven(y)
  {
    SameSign(y, u);
    var d := y - LIMIT_53 as real;
    SameSign(d, u);
    assert d * u == y * u - LIMIT_53 as real * u;
    assert 0.0 <= y < LIMIT_53 as real;
    m := NearestEven(y);
  }

  /** Rounding gives a double, which is left alone. */
  lemma {:induction false} RoundIsDouble(x: real)
    ensures IsDouble(Round(x))
  {
    hide Pow2, Last, RoundPositive;
    if x > 0.0 {
      PositiveRounds(x);
    } else if x < 0.0 {
      PositiveRounds(-x);
      Opposite(RoundPositive(-x));
    }
  }

  /** And every positive double is such a significand times a power of two, and there are no others. */
  lemma {:induction false} Significand(x: real) returns (m: nat, e: int)
    requires x > 0.0 && IsDouble(x)
    ensures 0 < m < 0x20_0000_0000_0000 && e >= -1074 && x == m as real * Pow2(e)
  {
    hide Pow2, Last, RoundPositive;
    LastInRange(x);
    e := Last(x);
    m := RoundedSize(x);
    if m == LIMIT_53 {
      Pow2Next(e);
      Double(LIMIT_53 / 2, Pow2(e));
      m, e := LIMIT_53 / 2, e + 1;
    }
  }

  /** Half-way between two neighbours of the same last place the even one is taken. */
  lemma {:induction false} TieToEven(x: real, m: nat, e: int)
    requires m < 0x20_0000_0000_0000 && e >= -1074 && (m >= 0x10_0000_0000_0000 || e == -1074)
    requires x == (m as real + 0.5) * Pow2(e)
    ensures Round(x) == (if m % 2 == 0 then m else m + 1) as real * Pow2(e)
  {
    hide Pow2, Last, NearestEven;
    TieLast(x, m, e);
    SameSign(m as real + 0.5, Pow2(e));
    Quotient(x, m as real + 0.5, Pow2(e));
    HalfInteger(m);
  }

  lemma {:induction false} HalfInteger(m: nat)
    ensures NearestEven(m as real + 0.5) == if m % 2 == 0 then m else m + 1
  {
    assert (m as real + 0.5).Floor == m;
  }

  lemma {:induction false} TieLast(x: real, m: nat, e: int)
    requires m < 0x20_0000_0000_0000 && e >= -1074 && (m >= 0x10_0000_0000_0000 || e == -1074)
    requires x == (m as real + 0.5) * Pow2(e)
    ensures x > 0.0 && Last(x) == e
  {
    hide Pow2, Last;
    TieBounds(x, m, Pow2(e));
    Pow53(e);
    LastBelow(x, e);
    LastInRange(x);
    if e > -1074 {
      Pow53(e - 1);
      Pow2Next(e - 1);
      Halved(Pow2(e), Pow2(e - 1));
      LastBelow(x, e - 1);
    }
  }

  lemma {:induction false} TieBounds(x: real, m: nat, p: real)
    requires p > 0.0 && x == (m as real + 0.5) * p && m < LIMIT_53
    ensures 0.0 < x < LIMIT_53 as real * p
    ensures m >= 0x10_0000_0000_0000 ==> x >= 0x10_0000_0000_0000 as real * p
  {
    var h := m as real + 0.5;
    SameSign(h, p);
    Less(x, h, LIMIT_53 as real, p);
    if m >= 0x10_0000_0000_0000 {
      Monotone(0x10_0000_0000_0000 as real, h, p);
    }
  }

  lemma {:induction false} Less(x: real, h: real, l: real, p: real)
    requires p > 0.0 && h < l && x == h * p
    ensures x < l * p
  {
    var d := l - h;
    SameSign(d, p);
    assert d * p == l * p - h * p;
    assert d * p != 0.0;
  }

  lemma {:induction false} Halved(p: real, q: real)
    requires p == 2.0 * q
    ensures LIMIT_53 as real * q == 0x10_0000_0000_0000 as real * p
  {
  }

  lemma {:induction false} Opposite(x: real)
    ensures Round(-x) == -Round(x)
  {
    hide RoundPositive;
    assert -(-x) == x;
  }

  lemma {:induction false} PositiveRounds(x: real)
    requires x > 0.0
    ensures RoundPositive(x) >= 0.0 && IsDouble(RoundPositive(x))
  {
    hide Pow2, RoundPositive, IsDouble;
    var m := RoundedSize(x);
    var e := Last(x);
    if m == 0 {
      ZeroIsDouble();
    } else if m < LIMIT_53 {
      Representable(RoundPositive(x), m, e);
    } else {
      Pow2Next(e);
      Double(LIMIT_53 / 2, Pow2(e));
      Representable(RoundPositive(x), LIMIT_53 / 2, e + 1);
    }
  }

  lemma {:induction false} ZeroIsDouble()
    ensures IsDouble(0.0)
  {
  }

  /** Integers of at most 53 bits are doubles. */
  lemma {:induction false} IntegersAreDoubles(n: int)
    requires -LIMIT_53 < n < LIMIT_53
    ensures IsDouble(n as real)
  {
    hide IsDouble, Round;
    assert Pow2(0) == 1.0;
    if n > 0 {
      Representable(n as real, n, 0);
    } else if n < 0 {
      Representable((-n) as real, -n, 0);
      Negated((-n) as real);
      assert n as real == -((-n) as real);
    } else {
      ZeroIsDouble();
    }
  }

  lemma {:induction false} Negated(x: real)
    requires IsDouble(x)
    ensures IsDouble(-x)
  {
    Opposite(x);
  }

  /** No double is nearer to a number than what it is rounded to. */
  lemma {:induction false} Nearest(x: real, y: real)
    requires x > 0.0 && y > 0.0 && IsDouble(y)
    ensures Distance(x, Round(x)) <= Distance(x, y)
  {
    hide Pow2, RoundPositive, Exponent, Distance, NearestEven;
    var k := Last(x);
    var m := RoundedSize(y);
    if Last(y) >= k {
      var n := Finer(y, m, Last(y), k);
      NearestMultiple(x, n, y);
    } else {
      var e := Exponent(x);
      var n := Finer(Pow2(e), 1, e, k);
      ExponentBelow(y, e);
      NearestMultiple(x, n, Pow2(e));
      Further(x, Pow2(e), y);
    }
  }

  lemma {:induction false} Further(x: real, z: real, y: real)
    requires y < z <= x
    ensures Distance(x, z) <= Distance(x, y)
  {
  }

  // ----- how far doubles are apart -----

  /** A positive double is a multiple of its last place. */
  lemma {:induction false} DoubleOnGrid(d: real) returns (m: nat)
    requires d > 0.0 && IsDouble(d)
    ensures d == m as real * Pow2(Last(d))
  {
    hide Pow2, RoundPositive, Last;
    m := RoundedSize(d);
  }

  lemma {:induction false} Multiples(a: int, b: int, u: real, x: real, y: real)
    requires u > 0.0 && x == a as real * u && y == b as real * u && x != y
    ensures Distance(x, y) >= u
  {
    var n := if a > b then a - b else b - a;
    assert a != b;
    assert (n - 1) as real * u >= 0.0;
    assert n as real * u == (n - 1) as real * u + u;
    assert (a - b) as real * u == x - y;
    assert (b - a) as real * u == y - x;
  }

  lemma {:induction false} LastOrdered(r: real, d: real)
    requires r > 0.0 && d > 0.0 && Last(r) < Last(d)
    ensures Last(d) == Exponent(d) - 52 && Exponent(r) < Exponent(d)
    ensures Last(r) < Last(d) - 1 ==> Exponent(r) < Exponent(d) - 1
  {
    hide Exponent;
  }

  /** Another double is a last place away, or half of one just below a power of two. */
  lemma {:induction false} Gap(d: real, r: real)
    requires d > 0.0 && r > 0.0 && IsDouble(d) && IsDouble(r) && r != d
    ensures Distance(r, d) >= Pow2(Last(d)) / 2.0
    ensures d != Pow2(Exponent(d)) ==> Distance(r, d) >= Pow2(Last(d))
  {
    hide Pow2, RoundPositive, Last, Exponent, IsDouble, Distance;
    var u := Pow2(Last(d));
    var a := DoubleOnGrid(d);
    var b := DoubleOnGrid(r);
    if Last(r) >= Last(d) {
      var n := Finer(r, b, Last(r), Last(d));
      Multiples(n, a, u, r, d);
    } else {
      LastOrdered(r, d);
      GapBelow(d, r, a, b);
    }
  }

  /** m * 2^e */
  predicate IsMultiple(x: real, m: int, e: int) {
    x == m as real * Pow2(e)
  }

  lemma {:induction false} GapBelow(d: real, r: real, a: nat, b: nat)
    requires d > 0.0 && r > 0.0 && Last(r) < Last(d) && Exponent(r) < Exponent(d) && Last(d) == Exponent(d) - 52
    requires Last(r) < Last(d) - 1 ==> Exponent(r) < Exponent(d) - 1
    requires IsMultiple(d, a, Last(d)) && IsMultiple(r, b, Last(r))
    ensures Distance(r, d) >= Pow2(Last(d)) / 2.0
    ensures d != Pow2(Exponent(d)) ==> Distance(r, d) >= Pow2(Last(d))
  {
    hide Pow2, RoundPositive, Last, IsMultiple;
    var e, k := Exponent(d), Last(d);
    ExponentBelow(r, e);
    SmallerExponent(r, d);
    if d != Pow2(e) {
      AbovePower(d, a, e, k);
    } else if Last(r) == k - 1 {
      HalfGrid(d, r, a, b, k);
    } else {
      ExponentBelow(r, e - 1);
      HalfBelow(e, k);
    }
  }

  lemma {:induction false} AbovePower(d: real, a: nat, e: int, k: int)
    requires IsMultiple(d, a, k) && k <= e && Pow2(e) < d
    ensures d - Pow2(e) >= Pow2(k)
  {
    hide Pow2;
    var p := Finer(Pow2(e), 1, e, k);
    Multiples(a, p, Pow2(k), d, Pow2(e));
  }

  lemma {:induction false} HalfGrid(d: real, r: real, a: nat, b: nat, k: int)
    requires IsMultiple(d, a, k) && IsMultiple(r, b, k - 1) && r < d
    ensures Distance(r, d) >= Pow2(k) / 2.0
  {
    hide Pow2;
    Pow2Next(k - 1);
    Double(a, Pow2(k - 1));
    Multiples(b, 2 * a, Pow2(k - 1), r, d);
  }

  lemma {:induction false} HalfBelow(e: int, k: int)
    requires k <= e
    ensures Pow2(e) - Pow2(e - 1) >= Pow2(k) / 2.0
  {
    hide Pow2;
    Pow2Next(e - 1);
    Pow2Grows(k, e);
  }

  lemma {:induction false} SmallerExponent(r: real, d: real)
    requires r > 0.0 && d > 0.0 && Exponent(r) < Exponent(d)
    ensures r < d
  {
    ExponentBelow(r, Exponent(d));
  }

  /** What is nearer to a double than half the gap beside it is rounded to it. */
  lemma {:induction false} RoundsTo(y: real, d: real)
    requires d > 0.0 && y > 0.0 && IsDouble(d) && Distance(y, d) < d / 2.0
    requires var gap := Distance(y, d) + Distance(y, d);
             gap < Pow2(Last(d)) / 2.0 || (gap < Pow2(Last(d)) && d != Pow2(Exponent(d)))
    ensures Round(y) == d
  {
    hide Pow2, Last, Exponent, Round, IsDouble;
    Nearest(y, d);
    RoundIsDouble(y);
    var r := Round(y);
    assert r > 0.0;
    if r != d {
      Gap(d, r);
    }
  }
}
