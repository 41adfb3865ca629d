/**
 Number text.  `strtod` is the decimal grammar with its value rounded to the nearest double;
 what `sprintf` writes for "%1.15g" and "%1.17g" is a parameter.
 */
module Numbers {
  import opened Bytes
  import opened Doubles

  const INT_MAX: int := 2147483647
  const INT_MIN: int := -2147483648

  /** The texts `sprintf` produces for the two formats `print_number` uses. */
  datatype Sprintf = Sprintf(g15: real -> bytes, g17: real -> bytes)

  /** The value `strtod` returns and how many bytes it consumed (0 when there is no number). */
  datatype Scan = Scan(value: real, used: nat)

  predicate IsDigit(b: byte) {
    48 <= b <= 57
  }

  /** The bytes `parse_number` copies into its temporary buffer. */
  predicate InNumber(b: byte) {
    IsDigit(b) || b == PLUS || b == MINUS || b == LOWER_E || b == UPPER_E || b == DOT
  }

  predicate StartsNumber(b: byte) {
    IsDigit(b) || b == MINUS
  }

  function DigitRun(s: bytes, i: nat): (r: nat)
    requires i <= |s|
    ensures i <= r <= |s|
    ensures forall k | i <= k < r :: IsDigit(s[k])
    ensures r < |s| ==> !IsDigit(s[r])
    decreases |s| - i
  {
    if i < |s| && IsDigit(s[i]) then DigitRun(s, i + 1) else i
  }

  predicate AllDigits(s: bytes) {
    forall k | 0 <= k < |s| :: IsDigit(s[k])
  }

  function DigitsValue(s: bytes): nat
    requires AllDigits(s)
  {
    if s == [] then 0 else DigitsValue(s[..|s| - 1]) * 10 + (s[|s| - 1] - 48)
  }

  function Pow10(n: nat): (r: real)
    ensures r > 0.0
  {
    if n == 0 then 1.0 else 10.0 * Pow10(n - 1)
  }

  /** m * 10^e */
  function Scale(m: int, e: int): real {
    if e >= 0 then m as real * Pow10(e) else m as real / Pow10(-e)
  }

  predicate IsSign(s: bytes, i: nat) {
    i < |s| && (s[i] == PLUS || s[i] == MINUS)
  }

  /** Where an exponent part that starts at `i` ends; `i` itself when there is none. */
  function ExponentEnd(s: bytes, i: nat): (r: nat)
    requires i <= |s|
    ensures i <= r <= |s|
  {
    if i < |s| && (s[i] == LOWER_E || s[i] == UPPER_E) then
      var k := if IsSign(s, i + 1) then i + 2 else i + 1;
      var e := DigitRun(s, k);
      if e > k then e else i
    else i
  }

  function ExponentValue(s: bytes, i: nat): int
    requires i <= |s|
  {
    if ExponentEnd(s, i) == i then 0 else
      var k := if IsSign(s, i + 1) then i + 2 else i + 1;
      var n: int := DigitsValue(s[k..ExponentEnd(s, i)]);
      if s[i + 1] == MINUS then -n else n
  }

  function Strtod(s: bytes): (r: Scan)
    ensures r.used <= |s|
  {
    var i := if IsSign(s, 0) then 1 else 0;
    var w := DigitRun(s, i);
    var f := if w < |s| && s[w] == DOT then w + 1 else w;
    var m := if w < |s| && s[w] == DOT then DigitRun(s, f) else w;
    if w == i && m == f then Scan(0.0, 0)
    else
      var mantissa: int := DigitsValue(s[i..w] + s[f..m]);
      var signed := if i == 1 && s[0] == MINUS then -mantissa else mantissa;
      Scan(Round(Scale(signed, ExponentValue(s, m) - (m - f))), ExponentEnd(s, m))
  }

  /** The C conversion to `int`, which drops the fraction. */
  function Truncate(d: real): int {
    if d >= 0.0 then d.Floor else -((-d).Floor)
  }

  /** `valueint`: the number truncated toward zero and saturated at the limits of `int`. */
  function Saturate(d: real): (r: int)
    ensures INT_MIN <= r <= INT_MAX
  {
    if d >= INT_MAX as real then INT_MAX
    else if d <= INT_MIN as real then INT_MIN
    else Truncate(d)
  }

  function Abs(d: real): real {
    if d < 0.0 then -d else d
  }

  /** DBL_EPSILON, 2^-52 */
  const EPSILON: real := 1.0 / 4503599627370496.0

  predicate CompareDouble(a: real, b: real) {
    Abs(a - b) <= (if Abs(a) > Abs(b) then Abs(a) else Abs(b)) * EPSILON
  }

  /** The text `print_number` leaves in its temporary buffer. */
  function NumberText(f: Sprintf, d: real): (r: bytes)
    ensures NoNul(r)
  {
    var short := CString(f.g15(d));
    var test := Strtod(short);
    if test.used == 0 || !CompareDouble(test.value, d) then CString(f.g17(d)) else short
  }

  /** A text the parser takes whole for one number. */
  predicate NumberToken(t: bytes) {
    && 0 < |t| <= 63
    && (forall k | 0 <= k < |t| :: InNumber(t[k]))
    && StartsNumber(t[0])
    && Strtod(t).used == |t|
  }

  /** `print_number` accepts the text: it fits the 26 byte buffer. */
  predicate PrintableNumber(f: Sprintf, d: real) {
    |NumberText(f, d)| <= 25
  }

  /** What a number becomes when its printed text is read again. */
  function RereadNumber(f: Sprintf, d: real): real {
    Strtod(NumberText(f, d)).value
  }

  /** The 15 digit text reads back as the double. */
  predicate Reads15(f: Sprintf, d: real) {
    var test := Strtod(CString(f.g15(d)));
    test.used > 0 && test.value == d
  }

  // ----- plain decimal integers -----

  function NatText(n: nat): (r: bytes)
    ensures |r| > 0
  {
    if n < 10 then [48 + n] else NatText(n / 10) + [48 + n % 10]
  }

  function Decimal(n: int): (r: bytes)
    ensures |r| > 0
  {
    if n < 0 then [MINUS] + NatText(-n) else NatText(n)
  }

  const LIMIT_15: int := 1_000_000_000_000_000

  function TenTo(k: nat): nat {
    if k == 0 then 1 else 10 * TenTo(k - 1)
  }

  lemma {:induction false} NatTextDigits(n: nat)
    ensures AllDigits(NatText(n))
    ensures DigitsValue(NatText(n)) == n
  {
    if n >= 10 {
      NatTextDigits(n / 10);
      assert NatText(n)[..|NatText(n)| - 1] == NatText(n / 10);
    } else {
      assert NatText(n)[..0] == [];
    }
  }

  lemma {:induction false} NatTextLength(n: nat, k: nat)
    requires n < TenTo(k) && k > 0
    ensures |NatText(n)| <= k
  {
    if n >= 10 {
      assert TenTo(k) == 10 * TenTo(k - 1);
      NatTextLength(n / 10, k - 1);
    }
  }

  lemma {:induction false} DigitRunIs(s: bytes, i: nat, w: nat)
    requires i <= w <= |s| && (w < |s| ==> !IsDigit(s[w]))
    requires forall k | i <= k < w :: IsDigit(s[k])
    ensures DigitRun(s, i) == w
  {
  }

  /** A run of digits, with a minus sign before it or not, is one number. */
  lemma {:induction false} DigitsScan(t: bytes, negative: bool)
    requires t != [] && AllDigits(t)
    ensures var s := (if negative then [MINUS] else []) + t;
            var v: int := DigitsValue(t);
            Strtod(s) == Scan(Round((if negative then -v else v) as real), |s|)
  {
    hide DigitsValue, Round;
    var s := (if negative then [MINUS] else []) + t;
    var i := if negative then 1 else 0;
    assert forall k | i <= k < |s| :: s[k] == t[k - i] && IsDigit(s[k]);
    DigitRunIs(s, i, |s|);
    assert s[i..|s|] + s[|s|..|s|] == t;
    assert Pow10(0) == 1.0;
  }

  /** `strtod` reads every plain decimal integer to its end, as the nearest double. */
  lemma {:induction false} DecimalReadsBack(n: int)
    ensures Strtod(Decimal(n)) == Scan(Round(n as real), |Decimal(n)|)
    ensures forall k | 0 <= k < |Decimal(n)| :: InNumber(Decimal(n)[k]) && Decimal(n)[k] != NUL
    ensures StartsNumber(Decimal(n)[0])
  {
    hide Strtod, NatText, DigitsValue, Round;
    var a := if n < 0 then -n else n;
    NatTextDigits(a);
    DigitsScan(NatText(a), n < 0);
    assert Decimal(n) == (if n < 0 then [MINUS] else []) + NatText(a);
  }

  lemma {:induction false} DecimalLength(n: int)
    requires -LIMIT_15 < n < LIMIT_15
    ensures |Decimal(n)| <= 16
  {
    assert TenTo(15) == LIMIT_15 by {
      assert TenTo(3) == 1000;
      assert TenTo(6) == 1000000;
      assert TenTo(9) == 1000000000;
      assert TenTo(12) == 1000000000000;
    }
    NatTextLength(if n < 0 then -n else n, 15);
  }

  /** "%1.15g" writes an integer of at most 15 digits as plain decimal. */
  ghost predicate PlainIntegers(f: Sprintf) {
    forall n: int {:trigger Decimal(n)} | -LIMIT_15 < n < LIMIT_15 :: f.g15(n as real) == Decimal(n)
  }

  /** Such an integer prints as its decimal digits, in at most 16 bytes, and reads back unchanged. */
  lemma {:induction false} IntegerPrints(f: Sprintf, n: int)
    requires PlainIntegers(f)
    requires -LIMIT_15 < n < LIMIT_15
    ensures NumberText(f, n as real) == Decimal(n)
    ensures NumberToken(Decimal(n)) && PrintableNumber(f, n as real)
    ensures RereadNumber(f, n as real) == n as real && Reads15(f, n as real)
  {
    hide Strtod, Decimal, Round;
    DecimalReadsBack(n);
    DecimalLength(n);
    IntegersAreDoubles(n);
    CompareSelf(n as real);
    CStringOfText(Decimal(n), []);
    assert Decimal(n) + [] == Decimal(n);
  }

  /**
   What the C standard says of `n` where a number is converted to `int`, here with the limits at
   which the code saturates: `n` has no greater magnitude, is less than 1 away, and not of the
   other sign.
   */
  predicate AsInt(n: int, d: real) {
    if d >= 2147483647.0 then n == 2147483647
    else if d <= -2147483648.0 then n == -2147483648
    else if d >= 0.0 then 0.0 <= n as real <= d < n as real + 1.0
    else n as real - 1.0 < d <= n as real <= 0.0
  }

  /** For every number there is exactly one such integer, and it is `valueint`. */
  lemma {:induction false} ValueInt(d: real, n: int)
    ensures Saturate(d) == n <==> AsInt(n, d)
  {
  }

  lemma {:induction false} SaturateInteger(n: int)
    ensures Saturate(n as real) == if n > INT_MAX then INT_MAX else if n < INT_MIN then INT_MIN else n
  {
  }

  /** Two numbers compare equal if they differ by at most 2^-52 of one of them, the larger one that is. */
  lemma {:induction false} CompareIff(a: real, b: real)
    ensures CompareDouble(a, b) <==>
              var gap := (if a < b then b - a else a - b) * 4503599627370496.0;
              gap <= a || gap <= -a || gap <= b || gap <= -b
  {
  }

  lemma {:induction false} CompareSelf(d: real)
    ensures CompareDouble(d, d)
  {
  }

  // ----- which numbers survive -----

  predicate Reads17(f: Sprintf, d: real) {
    var test := Strtod(CString(f.g17(d)));
    test.used > 0 && test.value == d
  }

  /** The 15 digit text is a number within DBL_EPSILON of the double, so that `print_number` keeps it. */
  predicate Near15(f: Sprintf, d: real) {
    var test := Strtod(CString(f.g15(d)));
    test.used > 0 && CompareDouble(test.value, d)
  }

  /**
   `print_number` keeps the 15 digit text as soon as that compares equal.  So a double that one
   of its texts denotes survives if and only if the 15 digit text denotes it or is not kept.
   */
  lemma {:induction false} NumberSurvives(f: Sprintf, d: real)
    requires Reads15(f, d) || Reads17(f, d)
    ensures RereadNumber(f, d) == d <==> Reads15(f, d) || !Near15(f, d)
  {
    hide Strtod;
    CompareSelf(d);
  }

  /** Either way what comes back is within DBL_EPSILON of the double. */
  lemma {:induction false} RereadIsNear(f: Sprintf, d: real)
    requires Reads15(f, d) || Reads17(f, d)
    ensures CompareDouble(RereadNumber(f, d), d)
  {
    hide Strtod;
    CompareSelf(d);
  }

  // ----- a double that drifts -----

  /** The double after the one nearest to 0.3. */
  const DRIFTING: real := 5404319552844596.0 / 18014398509481984.0

  lemma {:induction false} PowersOfTwo()
    ensures Pow2(-1) == 0.5 && Pow2(-2) == 0.25 && Pow2(-52) == EPSILON && Pow2(-54) == 1.0 / 18014398509481984.0
  {
    hide Pow2;
    assert Pow2(0) == 1.0 by { PowZero(); }
    Eight(-8);
    Eight(-16);
    Eight(-24);
    Eight(-32);
    Eight(-40);
    Eight(-48);
    Pow2Next(-1);
    Pow2Next(-2);
    Pow2Next(-49);
    Pow2Next(-50);
    Pow2Next(-51);
    Pow2Next(-52);
    Pow2Next(-53);
    Pow2Next(-54);
  }

  lemma {:induction false} PowZero()
    ensures Pow2(0) == 1.0
  {
  }

  /** 0.3 lies between two powers of two, a fifth of a last place above a double. */
  lemma {:induction false} RoundThreeTenths()
    ensures Round(0.3) == 5404319552844595.0 / 18014398509481984.0
  {
    hide Pow2, NearestEven;
    PowersOfTwo();
    ExponentBelow(0.3, -1);
    ExponentBelow(0.3, -2);
    var u := Pow2(-54);
    var y := 0.3 * 18014398509481984.0;
    Quotient(0.3, y, u);
    NearestThreeTenths(y);
  }

  lemma {:induction false} NearestThreeTenths(y: real)
    requires y == 0.3 * 18014398509481984.0
    ensures NearestEven(y) == 5404319552844595
  {
    assert y == 5404319552844595.2;
    assert y.Floor == 5404319552844595;
  }

  /** "0.3" */
  const THREE_TENTHS: bytes := [48, 46, 51]

  lemma {:induction false} ScanThreeTenths()
    ensures Strtod(THREE_TENTHS) == Scan(Round(0.3), 3)
  {
    hide Round;
    var t := THREE_TENTHS;
    DigitRunIs(t, 0, 1);
    DigitRunIs(t, 2, 3);
    assert t[0..1] + t[2..3] == [48, 51];
    var ds: bytes := [48, 51];
    assert ds[..1] == [48];
    var d0: bytes := [48];
    assert d0[..0] == [];
    assert DigitsValue(ds) == 3;
    assert Pow10(1) == 10.0 * Pow10(0);
  }

  /** Its 15 digit text is that of 0.3, and it comes back as another double. */
  lemma {:induction false} NumberDrifts(f: Sprintf)
    requires f.g15(DRIFTING) == THREE_TENTHS
    ensures IsDouble(DRIFTING) && !Reads15(f, DRIFTING) && Near15(f, DRIFTING)
    ensures RereadNumber(f, DRIFTING) != DRIFTING
  {
    hide Strtod, Round, IsDouble, Pow2;
    CStringOfText(THREE_TENTHS, []);
    assert THREE_TENTHS + [] == THREE_TENTHS;
    ScanThreeTenths();
    RoundThreeTenths();
    PowersOfTwo();
    Representable(DRIFTING, 5404319552844596, -54);
    assert CompareDouble(Round(0.3), DRIFTING);
  }
}
