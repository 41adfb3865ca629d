/** Hexadecimal digits, UTF-16 surrogates and UTF-8 (RFC 3629 section 3, RFC 2781 section 2.2). */
module Unicode {
  import opened Bytes

  /** The value of a hexadecimal digit in either case, or -1. */
  function HexDigit(b: byte): (r: int)
    ensures -1 <= r < 16
  {
    if 48 <= b <= 57 then b - 48
    else if 65 <= b <= 70 then b - 55
    else if 97 <= b <= 102 then b - 87
    else -1
  }

  /** The digits are these, and no other byte is one. */
  lemma {:induction false} HexDigitIs(b: byte, n: nat)
    requires n < 16
    ensures HexDigit(b) == n <==> b == Ascii("0123456789abcdef")[n] || b == Ascii("0123456789ABCDEF")[n]
  {
  }

  predicate HexDigits(h: bytes) {
    forall k | 0 <= k < |h| :: HexDigit(h[k]) >= 0
  }

  /** Four hexadecimal digits as a number; 0 as soon as one of them is not a digit. */
  function Hex4(h: bytes): (r: nat)
    requires |h| == 4
    ensures r <= 0xFFFF
  {
    if HexDigits(h) then
      ((HexDigit(h[0]) * 16 + HexDigit(h[1])) * 16 + HexDigit(h[2])) * 16 + HexDigit(h[3])
    else 0
  }

  predicate IsHighSurrogate(c: nat) {
    0xD800 <= c <= 0xDBFF
  }

  predicate IsLowSurrogate(c: nat) {
    0xDC00 <= c <= 0xDFFF
  }

  predicate IsScalar(c: nat) {
    c <= 0x10FFFF && !(0xD800 <= c <= 0xDFFF)
  }

  type scalar = c: nat | c <= 0x10FFFF && !(0xD800 <= c <= 0xDFFF)

  function FromSurrogates(high: nat, low: nat): nat {
    0x10000 + high % 0x400 * 0x400 + low % 0x400
  }

  /** The code point of a pair of UTF-16 code units is the one RFC 2781 section 2.2 assigns. */
  lemma {:induction false} SurrogatesDecode(high: nat, low: nat)
    requires IsHighSurrogate(high) && IsLowSurrogate(low)
    ensures FromSurrogates(high, low) == 0x10000 + (high - 0xD800) * 0x400 + (low - 0xDC00)
    ensures 0x10000 <= FromSurrogates(high, low) <= 0x10FFFF
  {
    assert high % 0x400 == high - 0xD800;
    assert low % 0x400 == low - 0xDC00;
  }

  /** Every scalar value above the basic plane is spelled by exactly one pair. */
  lemma {:induction false} SurrogatesEncode(c: nat)
    requires 0x10000 <= c <= 0x10FFFF
    ensures var high, low := 0xD800 + (c - 0x10000) / 0x400, 0xDC00 + (c - 0x10000) % 0x400;
            IsHighSurrogate(high) && IsLowSurrogate(low) && FromSurrogates(high, low) == c
    ensures forall h: nat, l: nat {:trigger FromSurrogates(h, l)} |
              IsHighSurrogate(h) && IsLowSurrogate(l) && FromSurrogates(h, l) == c ::
              h == 0xD800 + (c - 0x10000) / 0x400 && l == 0xDC00 + (c - 0x10000) % 0x400
  {
    var high, low := 0xD800 + (c - 0x10000) / 0x400, 0xDC00 + (c - 0x10000) % 0x400;
    SurrogatesDecode(high, low);
    forall h: nat, l: nat | IsHighSurrogate(h) && IsLowSurrogate(l) && FromSurrogates(h, l) == c
      ensures h == high && l == low
    {
      SurrogatesDecode(h, l);
    }
  }

  function Utf8(c: nat): (r: bytes)
    requires c <= 0x10FFFF
    ensures 1 <= |r| <= 4
    ensures |r| == 4 <==> c >= 0x10000
  {
    if c < 0x80 then [c]
    else if c < 0x800 then [0xC0 + c / 0x40, 0x80 + c % 0x40]
    else if c < 0x10000 then [0xE0 + c / 0x1000, 0x80 + c / 0x40 % 0x40, 0x80 + c % 0x40]
    else [0xF0 + c / 0x40000, 0x80 + c / 0x1000 % 0x40, 0x80 + c / 0x40 % 0x40, 0x80 + c % 0x40]
  }

  /** `c` shifted right by six bits, `k` times. */
  function Shifted(c: nat, k: nat): nat {
    if k == 0 then c else Shifted(c, k - 1) / 0x40
  }

  /** The mark of a lead byte. */
  function Mark(length: nat): nat {
    if length == 2 then 0xC0 else if length == 3 then 0xE0 else if length == 4 then 0xF0 else 0
  }

  /** Every tail byte carries six bits, the lead byte its mark and what remains. */
  lemma {:induction false} Utf8Bytes(c: nat)
    requires c <= 0x10FFFF
    ensures var r := Utf8(c);
            && r[0] == Mark(|r|) + Shifted(c, |r| - 1)
            && (forall q | 1 <= q < |r| :: r[q] == 0x80 + Shifted(c, |r| - 1 - q) % 0x40)
  {
    assert Shifted(c, 1) == c / 0x40;
    assert Shifted(c, 2) == c / 0x40 / 0x40 == c / 0x1000;
    assert Shifted(c, 3) == c / 0x1000 / 0x40 == c / 0x40000;
  }

  function Utf8All(cs: seq<scalar>): bytes
  {
    if cs == [] then [] else Utf8(cs[0]) + Utf8All(cs[1..])
  }

  predicate IsTail(b: byte) {
    0x80 <= b < 0xC0
  }

  /** The number of bytes a lead byte announces, or 0. */
  function Announced(b: byte): nat {
    if b < 0x80 then 1 else if 0xC0 <= b < 0xE0 then 2
    else if 0xE0 <= b < 0xF0 then 3 else if 0xF0 <= b < 0xF8 then 4 else 0
  }

  /** The bits of an `n` byte sequence put together. */
  function Assemble(s: bytes, n: nat): int
    requires 1 <= n <= 4 && n <= |s|
  {
    var b0: int := s[0];
    if n == 1 then b0
    else
      var b1: int := s[1];
      if n == 2 then (b0 - 0xC0) * 0x40 + (b1 - 0x80)
      else
        var b2: int := s[2];
        if n == 3 then (b0 - 0xE0) * 0x1000 + (b1 - 0x80) * 0x40 + (b2 - 0x80)
        else
          var b3: int := s[3];
          (b0 - 0xF0) * 0x40000 + (b1 - 0x80) * 0x1000 + (b2 - 0x80) * 0x40 + (b3 - 0x80)
  }

  /** The sequence at the front is a lead byte and its tail, in the shortest form of a scalar value. */
  predicate FrontIsScalar(s: bytes)
    requires s != []
  {
    var n := Announced(s[0]);
    && 0 < n <= |s|
    && (forall k | 1 <= k < n :: IsTail(s[k]))
    && Assemble(s, n) >= 0
    && IsScalar(Assemble(s, n))
    && |Utf8(Assemble(s, n))| == n
  }

  /** A strict UTF-8 decoder: no overlong forms, no surrogates, nothing above U+10FFFF. */
  function Utf8Decode(s: bytes): Option<seq<scalar>> {
    if s == [] then Some([])
    else if !FrontIsScalar(s) then None
    else
      var n := Announced(s[0]);
      match Utf8Decode(s[n..])
      case None => None
      case Some(cs) => 
        var c: scalar := Assemble(s, n);
        Some([c] + cs)
  }

  lemma {:induction false} Utf8Assembles(c: nat, s: bytes)
    requires IsScalar(c)
    requires At(s, 0, Utf8(c))
    ensures Announced(s[0]) == |Utf8(c)|
    ensures forall k | 1 <= k < |Utf8(c)| :: IsTail(s[k])
    ensures Assemble(s, |Utf8(c)|) == c
  {
    var e := Utf8(c);
    assert forall k | 0 <= k < |e| :: s[k] == e[k] by {
      forall k | 0 <= k < |e| ensures s[k] == e[k] { AtByte(s, 0, e, k); }
    }
    var a := c / 0x40;
    var b := a / 0x40;
    assert b == c / 0x1000 && b / 0x40 == c / 0x40000;
    assert a == b * 0x40 + a % 0x40 && b == b / 0x40 * 0x40 + b % 0x40;
  }

  lemma {:induction false} Utf8DecodeFirst(c: scalar, rest: bytes)
    ensures Utf8Decode(Utf8(c) + rest) ==
            match Utf8Decode(rest) case None => None case Some(cs) => Some([c] + cs)
  {
    var s := Utf8(c) + rest;
    Utf8Assembles(c, s);
    assert s[|Utf8(c)|..] == rest;
  }

  /** Decoding the encodings of scalar values gives the values back. */
  lemma {:induction false} Utf8RoundTrip(cs: seq<scalar>)
    ensures Utf8Decode(Utf8All(cs)) == Some(cs)
  {
    if cs != [] {
      Utf8RoundTrip(cs[1..]);
      Utf8DecodeFirst(cs[0], Utf8All(cs[1..]));
      assert [cs[0]] + cs[1..] == cs;
    }
  }

  /**
   The bit operations of the source and the arithmetic used here agree: a continuation byte
   is 0x80 plus the low six bits, a lead byte adds its mark, and a surrogate pair combines
   as a sum.
   */
  lemma {:induction false} BitForms(c: bv32)
    requires c <= 0x10FFFF
    ensures (c | 0x80) & 0xBF == 0x80 + c % 0x40
    ensures c >> 6 == c / 0x40
    ensures c < 0x20 ==> (c | 0xC0) & 0xFF == 0xC0 + c
    ensures c < 0x10 ==> (c | 0xE0) & 0xFF == 0xE0 + c
    ensures c < 0x08 ==> (c | 0xF0) & 0xFF == 0xF0 + c
  {
  }

  lemma {:induction false} SurrogateBits(high: bv32, low: bv32)
    requires high <= 0xFFFF && low <= 0xFFFF
    ensures 0x10000 + (((high & 0x3FF) << 10) | (low & 0x3FF)) == 0x10000 + high % 0x400 * 0x400 + low % 0x400
  {
  }
}
