/**
 JSON string literals: the two passes of `parse_string`, the escaping of
 `print_string_ptr`, and the string grammar of RFC 8259 section 7.
 */
module JsonStrings {
  import opened Bytes
  import opened Unicode

  // ----- the parser's two passes -----

  /** The first pass: the offset of the closing quote, looking from `j` and jumping over escapes. */
  function StringEnd(s: bytes, j: nat): (r: Option<nat>)
    ensures r.Some? ==> j <= r.value < |s| && s[r.value] == QUOTE
    decreases |s| - j
  {
    if j >= |s| then None
    else if s[j] == QUOTE then Some(j)
    else if s[j] == BACKSLASH then
      if j + 1 >= |s| then None else StringEnd(s, j + 2)
    else StringEnd(s, j + 1)
  }

  /** `skipped_bytes`: how many escapes the first pass sees from `j` that start before `p`. */
  function Skips(s: bytes, j: nat, p: nat): (r: nat)
    requires p <= |s|
    ensures j <= p ==> r <= p - j
    decreases p - j
  {
    if j >= p then 0
    else if s[j] == BACKSLASH then 1 + Skips(s, j + 2, p)
    else Skips(s, j + 1, p)
  }

  /** What one turn of the second pass writes and how far it moves. */
  datatype Chunk = Chunk(out: bytes, used: nat)

  /** `utf16_literal_to_utf8`: one or two `\uXXXX` sequences at `p`, or a failure. */
  function Utf16Literal(s: bytes, p: nat, end: nat): Option<Chunk>
    requires p < end < |s|
  {
    if end - p < 6 then None
    else
      var first := Hex4(s[p + 2..p + 6]);
      if IsLowSurrogate(first) then None
      else if IsHighSurrogate(first) then
        if end - (p + 6) < 6 || s[p + 6] != BACKSLASH || s[p + 7] != LOWER_U then None
        else
          var second := Hex4(s[p + 8..p + 12]);
          if !IsLowSurrogate(second) then None
          else
            SurrogatesDecode(first, second);
            Some(Chunk(Utf8(FromSurrogates(first, second)), 12))
      else Some(Chunk(Utf8(first), 6))
  }

  /** One turn of the second pass at `p`; the byte after a backslash may be the closing quote itself. */
  function Step(s: bytes, p: nat, end: nat): (r: Option<Chunk>)
    requires p < end < |s|
    ensures r.Some? ==> 0 < r.value.used && p + r.value.used <= end + 1
  {
    if s[p] != BACKSLASH then Some(Chunk([s[p]], 1))
    else
      var c := s[p + 1];
      if c == LOWER_B then Some(Chunk([BACKSPACE], 2))
      else if c == LOWER_F then Some(Chunk([FF], 2))
      else if c == LOWER_N then Some(Chunk([LF], 2))
      else if c == LOWER_R then Some(Chunk([CR], 2))
      else if c == LOWER_T then Some(Chunk([TAB], 2))
      else if c == QUOTE || c == BACKSLASH || c == SLASH then Some(Chunk([c], 2))
      else if c == LOWER_U then Utf16Literal(s, p, end)
      else None
  }

  /** The second pass from `p` to the closing quote at `end`. */
  function Decode(s: bytes, p: nat, end: nat): Option<bytes>
    requires end < |s|
    decreases end - p
  {
    if p >= end then Some([])
    else match Step(s, p, end)
      case None => None
      case Some(c) =>
        match Decode(s, p + c.used, end)
        case None => None
        case Some(rest) => Some(c.out + rest)
  }

  /** A parsed item and the offset after it. */
  datatype Parsed<+T> = Fail | Ok(value: T, next: nat)

  /** `parse_string` at `i`: the decoded bytes, which as a C string end at their first NUL. */
  function ParseString(s: bytes, i: nat): (r: Parsed<bytes>)
    requires i < |s|
    ensures r.Ok? ==> i + 1 < r.next <= |s| && s[r.next - 1] == QUOTE
  {
    if s[i] != QUOTE then Fail
    else match StringEnd(s, i + 1)
      case None => Fail
      case Some(end) =>
        match Decode(s, i + 1, end)
        case None => Fail
        case Some(out) => Ok(CString(out), end + 1)
  }

  /** The second pass reads nothing past the closing quote. */
  lemma {:induction false} DecodeStops(s: bytes, p: nat, end: nat)
    requires end < |s|
    ensures Decode(s[..end + 1], p, end) == Decode(s, p, end)
    decreases end - p
  {
    hide Step;
    if p < end {
      StepStops(s, p, end);
      if Step(s, p, end).Some? {
        DecodeStops(s, p + Step(s, p, end).value.used, end);
      }
    }
  }

  lemma {:induction false} StepStops(s: bytes, p: nat, end: nat)
    requires p < end < |s|
    ensures Step(s[..end + 1], p, end) == Step(s, p, end)
  {
    var t := s[..end + 1];
    if end - p >= 6 {
      assert t[p + 2..p + 6] == s[p + 2..p + 6];
    }
    if end - (p + 6) >= 6 {
      assert t[p + 8..p + 12] == s[p + 8..p + 12];
    }
  }

  // ----- the output never outgrows its allocation -----

  lemma {:induction false} SkipsStep(s: bytes, j: nat, p: nat)
    requires p < |s|
    ensures Skips(s, j, p) <= Skips(s, j, p + 1) <= Skips(s, j, p) + 1
    ensures s[p] != BACKSLASH ==> Skips(s, j, p + 1) == Skips(s, j, p)
    ensures p + 2 <= |s| ==> Skips(s, j, p + 2) <= Skips(s, j, p) + 1
    decreases p - j
  {
    if j < p {
      SkipsStep(s, if s[j] == BACKSLASH then j + 2 else j + 1, p);
    }
  }

  /** `allocation_length + 1` of `parse_string` for the literal whose first byte is at `j`. */
  function Allocated(s: bytes, j: nat, end: nat): int
    requires j <= end < |s|
  {
    end - (j - 1) - Skips(s, j, end) + 1
  }

  lemma {:induction false} StepSize(s: bytes, p: nat, end: nat)
    requires p < end < |s|
    requires Step(s, p, end).Some?
    ensures var c := Step(s, p, end).value;
            || (c.used == 1 && |c.out| == 1 && s[p] != BACKSLASH)
            || (c.used == 2 && |c.out| == 1)
            || (c.used == 6 && |c.out| <= 3)
            || (c.used == 12 && |c.out| == 4)
  {
  }

  /**
   One turn writes at most as many bytes as it reads, less one for each escape the first
   pass counted there: even where the two passes disagree about where escapes begin.
   */
  lemma {:induction false} StepFits(s: bytes, j: nat, p: nat, end: nat)
    requires j <= p < end < |s|
    requires Step(s, p, end).Some?
    ensures var c := Step(s, p, end).value;
            p + c.used <= |s| && |c.out| + Skips(s, j, p + c.used) <= c.used + Skips(s, j, p)
  {
    hide Step, Skips;
    var c := Step(s, p, end).value;
    StepSize(s, p, end);
    SkipsStep(s, j, p);
    if c.used >= 6 {
      SkipsSix(s, j, p);
    }
    if c.used == 12 {
      SkipsSix(s, j, p + 6);
    }
  }

  lemma {:induction false} SkipsSix(s: bytes, j: nat, p: nat)
    requires p + 6 <= |s|
    ensures Skips(s, j, p + 6) <= Skips(s, j, p) + 3
  {
    hide Skips;
    SkipsStep(s, j, p);
    SkipsStep(s, j, p + 2);
    SkipsStep(s, j, p + 4);
  }

  /** What is written up to `p`, plus a NUL, fits the allocation. */
  lemma {:induction false} WrittenFits(s: bytes, j: nat, p: nat, end: nat, written: nat)
    requires j <= p <= end + 1 <= |s|
    requires j <= end && s[end] == QUOTE
    requires written + Skips(s, j, p) <= p - j
    ensures written + 1 <= Allocated(s, j, end)
  {
    SkipsStep(s, j, end);
    SkipsRemaining(s, j, p, end);
  }

  /** From `p` on, the first pass counts at most one escape for each remaining byte. */
  lemma {:induction false} SkipsRemaining(s: bytes, j: nat, p: nat, end: nat)
    requires end < |s| && p <= end + 1 && s[end] == QUOTE
    ensures Skips(s, j, end) <= Skips(s, j, p) + (if p <= end then end - p else 0)
    decreases end - p
  {
    if p < end {
      SkipsStep(s, j, p);
      SkipsRemaining(s, j, p + 1, end);
    } else {
      SkipsStep(s, j, end);
    }
  }

  /** The whole decoded literal and its NUL fit the allocation, for every input. */
  lemma {:induction false} DecodeFits(s: bytes, j: nat, end: nat)
    requires j <= end < |s| && s[end] == QUOTE
    requires Decode(s, j, end).Some?
    ensures |Decode(s, j, end).value| + 1 <= Allocated(s, j, end)
  {
    DecodeFitsFrom(s, j, j, end, 0);
  }

  lemma {:induction false} DecodeFitsFrom(s: bytes, j: nat, p: nat, end: nat, written: nat)
    requires j <= p <= end + 1 <= |s| && j <= end && s[end] == QUOTE
    requires written + Skips(s, j, p) <= p - j
    requires Decode(s, p, end).Some?
    ensures written + |Decode(s, p, end).value| + 1 <= Allocated(s, j, end)
    decreases end - p
  {
    if p < end {
      StepFits(s, j, p, end);
      var c := Step(s, p, end).value;
      DecodeFitsFrom(s, j, p + c.used, end, written + |c.out|);
    } else {
      WrittenFits(s, j, p, end, written);
    }
  }

  // ----- the string grammar -----

  /**
   One character of a literal: itself, a two byte escape, `\uXXXX`, a surrogate pair, or an
   escaped surrogate that is not part of a pair, which the grammar has as well.
   */
  datatype Piece = Lit(b: byte) | Short(c: byte) | Bmp(h: bytes) | Pair(high: bytes, low: bytes) | Lone(h: bytes)

  predicate IsShort(c: byte) {
    c == QUOTE || c == BACKSLASH || c == SLASH || c == LOWER_B || c == LOWER_F || c == LOWER_N ||
    c == LOWER_R || c == LOWER_T
  }

  predicate IsHex4(h: bytes) {
    |h| == 4 && HexDigits(h)
  }

  predicate ValidPiece(p: Piece) {
    match p
    case Lit(b) => b != QUOTE && b != BACKSLASH && b != NUL
    case Short(c) => IsShort(c)
    case Bmp(h) => IsHex4(h) && IsScalar(Hex4(h))
    case Pair(h, l) => IsHex4(h) && IsHex4(l) && IsHighSurrogate(Hex4(h)) && IsLowSurrogate(Hex4(l))
    case Lone(h) => IsHex4(h) && !IsScalar(Hex4(h))
  }

  /** A high surrogate and then a low one are a pair. */
  predicate MakePair(p: Piece, q: Piece)
    requires ValidPiece(p) && ValidPiece(q)
  {
    p.Lone? && q.Lone? && IsHighSurrogate(Hex4(p.h)) && IsLowSurrogate(Hex4(q.h))
  }

  /** The characters of a literal of the grammar, with surrogates paired where they can be. */
  predicate ValidPieces(ps: seq<Piece>) {
    && (forall k | 0 <= k < |ps| :: ValidPiece(ps[k]))
    && (forall k | 0 < k < |ps| :: !MakePair(ps[k - 1], ps[k]))
  }

  /** Every escaped surrogate is in a pair. */
  predicate Paired(ps: seq<Piece>) {
    forall k | 0 <= k < |ps| :: !ps[k].Lone?
  }

  function PieceText(p: Piece): (r: bytes)
    ensures |r| > 0
  {
    match p
    case Lit(b) => [b]
    case Short(c) => [BACKSLASH, c]
    case Bmp(h) => [BACKSLASH, LOWER_U] + h
    case Pair(h, l) => [BACKSLASH, LOWER_U] + h + [BACKSLASH, LOWER_U] + l
    case Lone(h) => [BACKSLASH, LOWER_U] + h
  }

  function ShortValue(c: byte): byte {
    if c == LOWER_B then BACKSPACE else if c == LOWER_F then FF else if c == LOWER_N then LF
    else if c == LOWER_R then CR else if c == LOWER_T then TAB else c
  }

  /** The bytes of a character; an unpaired surrogate has none. */
  function PieceValue(p: Piece): bytes
    requires ValidPiece(p)
  {
    match p
    case Lit(b) => [b]
    case Short(c) => [ShortValue(c)]
    case Bmp(h) => Utf8(Hex4(h))
    case Pair(h, l) => SurrogatesDecode(Hex4(h), Hex4(l)); Utf8(FromSurrogates(Hex4(h), Hex4(l)))
    case Lone(h) => []
  }

  function PiecesText(ps: seq<Piece>): bytes {
    if ps == [] then [] else PieceText(ps[0]) + PiecesText(ps[1..])
  }

  function PiecesValue(ps: seq<Piece>): bytes
    requires ValidPieces(ps)
  {
    if ps == [] then [] else RestOfPieces(ps); PieceValue(ps[0]) + PiecesValue(ps[1..])
  }

  function PairOf(p: Piece, q: Piece): (r: Piece)
    requires ValidPiece(p) && ValidPiece(q) && MakePair(p, q)
    ensures r.Pair? && ValidPiece(r) && PieceText(r) == PieceText(p) + PieceText(q)
  {
    Pair(p.h, q.h)
  }

  /** Characters with their surrogates paired. */
  function Grouped(ps: seq<Piece>): (r: seq<Piece>)
    requires forall k | 0 <= k < |ps| :: ValidPiece(ps[k])
    ensures ps != [] ==> r != [] && (r[0] == ps[0] || r[0].Pair?)
    ensures ps == [] ==> r == []
    ensures r != [] ==> ValidPiece(r[0])
  {
    if ps == [] then []
    else if |ps| > 1 && MakePair(ps[0], ps[1]) then [PairOf(ps[0], ps[1])] + Grouped(ps[2..])
    else [ps[0]] + Grouped(ps[1..])
  }

  /** So every literal of the grammar, however its surrogates stand, is spelled by valid pieces. */
  lemma {:induction false} GroupedSpells(ps: seq<Piece>)
    requires forall k | 0 <= k < |ps| :: ValidPiece(ps[k])
    ensures ValidPieces(Grouped(ps)) && PiecesText(Grouped(ps)) == PiecesText(ps)
  {
    hide ValidPiece, MakePair, PairOf, ValidPieces, PieceText;
    if |ps| > 1 && MakePair(ps[0], ps[1]) {
      GroupedSpells(ps[2..]);
      PairEnds(PairOf(ps[0], ps[1]), Grouped(ps[2..]));
      ConsPieces(PairOf(ps[0], ps[1]), Grouped(ps[2..]));
      TwoTexts(ps);
    } else if ps != [] {
      GroupedSpells(ps[1..]);
      PairEnds(ps[0], Grouped(ps[1..]));
      ConsPieces(ps[0], Grouped(ps[1..]));
    } else {
      NoPieces();
    }
  }

  lemma {:induction false} NoPieces()
    ensures ValidPieces([])
  {
  }

  /** A pair makes no pair with a neighbour. */
  lemma {:induction false} PairEnds(p: Piece, rest: seq<Piece>)
    requires ValidPiece(p) && (rest != [] ==> ValidPiece(rest[0]))
    ensures rest != [] && (p.Pair? || rest[0].Pair?) ==> !MakePair(p, rest[0])
  {
  }

  lemma {:induction false} TwoTexts(ps: seq<Piece>)
    requires |ps| > 1
    ensures PiecesText(ps) == PieceText(ps[0]) + PieceText(ps[1]) + PiecesText(ps[2..])
  {
    hide PieceText;
    assert ps[1..][0] == ps[1] && ps[1..][1..] == ps[2..];
  }

  lemma {:induction false} ConsPieces(p: Piece, ps: seq<Piece>)
    requires ValidPiece(p) && ValidPieces(ps) && (ps != [] ==> !MakePair(p, ps[0]))
    ensures ValidPieces([p] + ps) && PiecesText([p] + ps) == PieceText(p) + PiecesText(ps)
  {
    assert ([p] + ps)[1..] == ps;
  }

  lemma {:induction false} PairAt(s: bytes, i: nat, h: bytes, l: bytes)
    requires |h| == 4 && |l| == 4
    requires At(s, i, PieceText(Pair(h, l)))
    ensures At(s, i, PieceText(Bmp(h))) && At(s, i + 6, PieceText(Bmp(l)))
    ensures s[i + 2..i + 6] == h && s[i + 8..i + 12] == l
  {
    assert PieceText(Pair(h, l)) == PieceText(Bmp(h)) + PieceText(Bmp(l));
    AtSplit(s, i, PieceText(Bmp(h)), PieceText(Bmp(l)));
    BmpAt(s, i, h);
    BmpAt(s, i + 6, l);
  }

  lemma {:induction false} BmpAt(s: bytes, i: nat, h: bytes)
    requires |h| == 4
    requires At(s, i, PieceText(Bmp(h)))
    ensures s[i] == BACKSLASH && s[i + 1] == LOWER_U && s[i + 2..i + 6] == h
  {
    AtSplit(s, i, [BACKSLASH, LOWER_U], h);
    AtByte(s, i, [BACKSLASH, LOWER_U], 0);
    AtByte(s, i, [BACKSLASH, LOWER_U], 1);
  }

  lemma {:induction false} EndPastHex(s: bytes, i: nat, h: bytes)
    requires IsHex4(h) && At(s, i, PieceText(Bmp(h)))
    ensures StringEnd(s, i) == StringEnd(s, i + 6)
  {
    BmpAt(s, i, h);
    assert s[i + 2] == h[0] && s[i + 3] == h[1] && s[i + 4] == h[2] && s[i + 5] == h[3];
    assert StringEnd(s, i) == StringEnd(s, i + 2);
    assert StringEnd(s, i + 2) == StringEnd(s, i + 3);
    assert StringEnd(s, i + 3) == StringEnd(s, i + 4);
    assert StringEnd(s, i + 4) == StringEnd(s, i + 5);
  }

  lemma {:induction false} EndPastPiece(s: bytes, i: nat, p: Piece)
    requires ValidPiece(p) && At(s, i, PieceText(p))
    ensures StringEnd(s, i) == StringEnd(s, i + |PieceText(p)|)
  {
    hide StringEnd, At, MakePair;
    match p {
      case Lit(b) => EndPastPlain(s, i, p);
      case Short(c) => EndPastPlain(s, i, p);
      case Bmp(h) => EndPastHex(s, i, h);
      case Pair(h, l) => PairAt(s, i, h, l);
        EndPastHex(s, i, h);
        EndPastHex(s, i + 6, l);
      case Lone(h) => EndPastHex(s, i, h);
    }
  }

  /** The pieces that are one byte or a short escape. */
  lemma {:induction false} PlainAt(s: bytes, i: nat, p: Piece)
    requires (p.Lit? || p.Short?) && At(s, i, PieceText(p))
    ensures if p.Lit? then i < |s| && s[i] == p.b
            else i + 1 < |s| && s[i] == BACKSLASH && s[i + 1] == p.c
  {
    hide StringEnd;
    AtByte(s, i, PieceText(p), 0);
    if p.Short? {
      AtByte(s, i, PieceText(p), 1);
    }
  }

  lemma {:induction false} EndPastPlain(s: bytes, i: nat, p: Piece)
    requires (p.Lit? || p.Short?) && ValidPiece(p) && At(s, i, PieceText(p))
    ensures StringEnd(s, i) == StringEnd(s, i + |PieceText(p)|)
  {
    hide At;
    PlainAt(s, i, p);
  }

  lemma {:induction false} StepOfPiece(s: bytes, i: nat, p: Piece, end: nat)
    requires ValidPiece(p) && !p.Lone? && At(s, i, PieceText(p))
    requires i + |PieceText(p)| <= end < |s|
    ensures Step(s, i, end) == Some(Chunk(PieceValue(p), |PieceText(p)|))
  {
    hide Utf8, Hex4, At;
    match p {
      case Lit(b) => PlainAt(s, i, p);
      case Short(c) => PlainAt(s, i, p);
      case Bmp(h) => BmpAt(s, i, h);
      case Pair(h, l) => StepOfPair(s, i, h, l, end);
    }
  }

  lemma {:induction false} StepOfPair(s: bytes, i: nat, h: bytes, l: bytes, end: nat)
    requires ValidPiece(Pair(h, l)) && At(s, i, PieceText(Pair(h, l)))
    requires i + 12 <= end < |s|
    ensures Step(s, i, end) == Some(Chunk(PieceValue(Pair(h, l)), 12))
  {
    hide Utf8, Hex4, At, PieceText;
    PairAt(s, i, h, l);
    BmpAt(s, i, h);
    BmpAt(s, i + 6, l);
  }

  lemma {:induction false} EndOfPieces(s: bytes, i: nat, ps: seq<Piece>)
    requires ValidPieces(ps) && At(s, i, PiecesText(ps))
    ensures StringEnd(s, i) == StringEnd(s, i + |PiecesText(ps)|)
    decreases |ps|
  {
    hide At, StringEnd, PieceText, ValidPiece, MakePair;
    if ps != [] {
      RestOfPieces(ps);
      AtSplit(s, i, PieceText(ps[0]), PiecesText(ps[1..]));
      EndPastPiece(s, i, ps[0]);
      EndOfPieces(s, i + |PieceText(ps[0])|, ps[1..]);
    }
  }

  /** The second pass turns spelled characters into their bytes, whatever follows them. */
  lemma {:induction false} DecodePieces(s: bytes, i: nat, ps: seq<Piece>, end: nat)
    requires ValidPieces(ps) && Paired(ps) && At(s, i, PiecesText(ps))
    requires i + |PiecesText(ps)| <= end < |s|
    ensures Decode(s, i, end) == Before(PiecesValue(ps), Decode(s, i + |PiecesText(ps)|, end))
    decreases |ps|
  {
    hide At, Step, Decode, Before, PieceText, ValidPiece, PieceValue, MakePair;
    if ps != [] {
      RestOfPieces(ps);
      AtSplit(s, i, PieceText(ps[0]), PiecesText(ps[1..]));
      StepOfPiece(s, i, ps[0], end);
      DecodeTurn(s, i, end);
      DecodePieces(s, i + |PieceText(ps[0])|, ps[1..], end);
      BeforeBoth(PieceValue(ps[0]), PiecesValue(ps[1..]), Decode(s, i + |PiecesText(ps)|, end));
    } else {
      BeforeNothing(Decode(s, i, end));
    }
  }

  function Before(v: bytes, rest: Option<bytes>): Option<bytes> {
    match rest
    case None => None
    case Some(r) => Some(v + r)
  }

  lemma {:induction false} BeforeBoth(a: bytes, b: bytes, rest: Option<bytes>)
    ensures Before(a, Before(b, rest)) == Before(a + b, rest)
  {
    if rest.Some? {
      assert a + (b + rest.value) == (a + b) + rest.value;
    }
  }

  lemma {:induction false} BeforeNothing(rest: Option<bytes>)
    ensures Before([], rest) == rest
  {
    if rest.Some? {
      assert [] + rest.value == rest.value;
    }
  }

  lemma {:induction false} DecodeTurn(s: bytes, p: nat, end: nat)
    requires p < end < |s| && Step(s, p, end).Some?
    ensures var c := Step(s, p, end).value; Decode(s, p, end) == Before(c.out, Decode(s, p + c.used, end))
  {
    hide Step;
  }

  function Quoted(text: bytes): (r: bytes)
    ensures |r| == |text| + 2
    ensures r[0] == QUOTE
  {
    [QUOTE] + text + [QUOTE]
  }

  /** Every literal of the grammar is accepted if and only if its surrogates are paired, and denotes its characters. */
  lemma {:induction false} ParsesPieces(s: bytes, i: nat, ps: seq<Piece>)
    requires ValidPieces(ps) && At(s, i, Quoted(PiecesText(ps)))
    ensures ParseString(s, i) == if Paired(ps) then Ok(CString(PiecesValue(ps)), i + |PiecesText(ps)| + 2) else Fail
  {
    var t := PiecesText(ps);
    hide At, Decode, StringEnd, PiecesText, PiecesValue, ValidPieces, Paired;
    assert Quoted(t) == [QUOTE] + (t + [QUOTE]);
    AtSplit(s, i, [QUOTE], t + [QUOTE]);
    AtSplit(s, i + 1, t, [QUOTE]);
    AtByte(s, i, [QUOTE], 0);
    AtByte(s, i + 1 + |t|, [QUOTE], 0);
    EndOfPieces(s, i + 1, ps);
    ClosedHere(s, i + 1 + |t|);
    if Paired(ps) {
      DecodePieces(s, i + 1, ps, i + 1 + |t|);
      assert PiecesValue(ps) + [] == PiecesValue(ps);
    } else {
      DecodeUnpaired(s, i + 1, ps, i + 1 + |t|);
    }
  }

  lemma {:induction false} ClosedHere(s: bytes, end: nat)
    requires end < |s| && s[end] == QUOTE
    ensures StringEnd(s, end) == Some(end) && Decode(s, end, end) == Some([])
  {
  }

  /** The second pass fails on spelled characters with an unpaired surrogate. */
  lemma {:induction false} DecodeUnpaired(s: bytes, i: nat, ps: seq<Piece>, end: nat)
    requires ValidPieces(ps) && !Paired(ps) && At(s, i, PiecesText(ps))
    requires i + |PiecesText(ps)| == end < |s|
    ensures Decode(s, i, end) == None
    decreases |ps|
  {
    hide At, Step, PieceText, ValidPiece, PieceValue, MakePair;
    var rest := ps[1..];
    AtSplit(s, i, PieceText(ps[0]), PiecesText(rest));
    if ps[0].Lone? {
      FirstPiece(ps);
      LoneText(ps[0]);
      LoneFails(s, i, ps, end);
    } else {
      assert ValidPieces(rest) && !Paired(rest) by { RestOfPieces(ps); }
      StepOfPiece(s, i, ps[0], end);
      DecodeUnpaired(s, i + |PieceText(ps[0])|, rest, end);
    }
  }

  lemma {:induction false} FirstPiece(ps: seq<Piece>)
    requires ps != [] && ValidPieces(ps)
    ensures ValidPiece(ps[0])
  {
  }

  lemma {:induction false} RestOfPieces(ps: seq<Piece>)
    requires ps != [] && ValidPieces(ps)
    ensures ValidPieces(ps[1..])
    ensures Paired(ps) <==> !ps[0].Lone? && Paired(ps[1..])
  {
    hide ValidPiece, MakePair;
    var rest := ps[1..];
    assert forall k | 0 <= k < |rest| :: rest[k] == ps[k + 1];
    assert forall k | 0 < k < |ps| :: ps[k] == rest[k - 1];
  }

  lemma {:induction false} LoneFails(s: bytes, i: nat, ps: seq<Piece>, end: nat)
    requires ps != [] && ValidPieces(ps) && ps[0].Lone?
    requires At(s, i, PieceText(ps[0])) && At(s, i + 6, PiecesText(ps[1..])) && i + |PiecesText(ps)| == end < |s|
    ensures Step(s, i, end) == None
  {
    hide At, Hex4, Step, PieceText, ValidPiece, MakePair;
    LoneText(ps[0]);
    BmpAt(s, i, ps[0].h);
    if |ps| == 1 {
      SurrogateFails(s, i, end);
    } else {
      assert !MakePair(ps[0], ps[1]);
      AtSplit(s, i + 6, PieceText(ps[1]), PiecesText(ps[2..]));
      assert ps[1..][1..] == ps[2..];
      LoneThen(s, i, ps[0], ps[1], end);
    }
  }

  lemma {:induction false} LoneText(p: Piece)
    requires ValidPiece(p) && p.Lone?
    ensures |p.h| == 4 && PieceText(p) == PieceText(Bmp(p.h)) && |PieceText(p)| == 6
    ensures IsHighSurrogate(Hex4(p.h)) || IsLowSurrogate(Hex4(p.h))
  {
    hide Hex4;
  }

  /** No low surrogate is escaped at `k`. */
  predicate NoLowAt(s: bytes, k: nat, end: nat)
    requires end < |s|
  {
    end - k < 6 || s[k] != BACKSLASH || s[k + 1] != LOWER_U || !IsLowSurrogate(Hex4(s[k + 2..k + 6]))
  }

  lemma {:induction false} SurrogateFails(s: bytes, i: nat, end: nat)
    requires i + 6 <= end < |s| && s[i] == BACKSLASH && s[i + 1] == LOWER_U && NoLowAt(s, i + 6, end)
    requires IsHighSurrogate(Hex4(s[i + 2..i + 6])) || IsLowSurrogate(Hex4(s[i + 2..i + 6]))
    ensures Step(s, i, end) == None
  {
    hide Hex4;
  }

  /** What follows an unpaired surrogate is no low one. */
  lemma {:induction false} LoneThen(s: bytes, i: nat, p: Piece, q: Piece, end: nat)
    requires ValidPiece(p) && ValidPiece(q) && p.Lone? && !MakePair(p, q)
    requires At(s, i, PieceText(p)) && At(s, i + 6, PieceText(q)) && i + 6 + |PieceText(q)| <= end < |s|
    ensures Step(s, i, end) == None
  {
    hide Hex4, At, PieceText, ValidPiece, NoLowAt;
    LoneText(p);
    BmpAt(s, i, p.h);
    if IsHighSurrogate(Hex4(p.h)) {
      NotLow(s, i + 6, q, end);
      SurrogateFails(s, i, end);
    } else {
      LowFails(s, i, end);
    }
  }

  lemma {:induction false} LowFails(s: bytes, i: nat, end: nat)
    requires i + 6 <= end < |s| && s[i] == BACKSLASH && s[i + 1] == LOWER_U && IsLowSurrogate(Hex4(s[i + 2..i + 6]))
    ensures Step(s, i, end) == None
  {
    hide Hex4;
  }

  lemma {:induction false} NotLow(s: bytes, k: nat, q: Piece, end: nat)
    requires ValidPiece(q) && At(s, k, PieceText(q)) && k + |PieceText(q)| <= end < |s|
    requires q.Lone? ==> !IsLowSurrogate(Hex4(q.h))
    ensures NoLowAt(s, k, end)
  {
    hide Hex4;
    match q {
      case Lit(b) => AtByte(s, k, [b], 0);
      case Short(c) => AtByte(s, k, [BACKSLASH, c], 1);
      case Bmp(h) => BmpAt(s, k, h);
      case Pair(h, l) => PairAt(s, k, h, l);
        BmpAt(s, k, h);
      case Lone(h) => BmpAt(s, k, h);
    }
  }

  /** A `\u` escape of a surrogate that is not the first half of a pair. */
  predicate Unpaired(s: bytes, p: nat, end: nat)
    requires end < |s|
  {
    && p + 6 <= end && s[p] == BACKSLASH && s[p + 1] == LOWER_U && HexDigits(s[p + 2..p + 6])
    && var first := Hex4(s[p + 2..p + 6]);
       || IsLowSurrogate(first)
       || (IsHighSurrogate(first) &&
           !(p + 12 <= end && s[p + 6] == BACKSLASH && s[p + 7] == LOWER_U &&
             IsLowSurrogate(Hex4(s[p + 8..p + 12]))))
  }

  /** The second pass from `p` comes to `q`. */
  predicate Reaches(s: bytes, p: nat, end: nat, q: nat)
    requires end < |s|
    decreases end - p
  {
    p == q || (p < end && Step(s, p, end).Some? && Reaches(s, p + Step(s, p, end).value.used, end, q))
  }

  /** A literal is refused if the second pass comes to an unpaired surrogate, whatever is before or after it. */
  lemma {:induction false} UnpairedSurrogateFails(s: bytes, i: nat, q: nat)
    requires i < |s| && StringEnd(s, i + 1).Some?
    requires Reaches(s, i + 1, StringEnd(s, i + 1).value, q) && Unpaired(s, q, StringEnd(s, i + 1).value)
    ensures ParseString(s, i) == Fail
  {
    hide StringEnd, Decode, Unpaired, CString, Step, Reaches;
    var end := StringEnd(s, i + 1).value;
    StepUnpaired(s, q, end);
    DecodeReaches(s, i + 1, end, q);
  }

  lemma {:induction false} StepUnpaired(s: bytes, p: nat, end: nat)
    requires end < |s| && Unpaired(s, p, end)
    ensures p < end && Step(s, p, end) == None && Decode(s, p, end) == None
  {
  }

  lemma {:induction false} DecodeReaches(s: bytes, p: nat, end: nat, q: nat)
    requires end < |s| && Reaches(s, p, end, q) && Decode(s, q, end) == None
    ensures Decode(s, p, end) == None
    decreases end - p
  {
    hide Step;
    if p != q {
      DecodeReaches(s, p + Step(s, p, end).value.used, end, q);
    }
  }

  // ----- spelling scalar values -----

  /** `p` is one of the ways to spell the scalar value `c` with `\u` escapes. */
  predicate Spells(p: Piece, c: scalar) {
    && ValidPiece(p)
    && match p
       case Bmp(h) => Hex4(h) == c
       case Pair(h, l) => FromSurrogates(Hex4(h), Hex4(l)) == c
       case _ => false
  }

  lemma {:induction false} SpelledValue(ps: seq<Piece>, cs: seq<scalar>)
    requires |ps| == |cs| && ValidPieces(ps)
    requires forall k | 0 <= k < |ps| :: Spells(ps[k], cs[k])
    ensures PiecesValue(ps) == Utf8All(cs) && Paired(ps)
  {
    hide MakePair;
    if ps != [] {
      RestOfPieces(ps);
      assert Spells(ps[0], cs[0]);
      SpelledValue(ps[1..], cs[1..]);
    }
  }

  lemma {:induction false} DecodeNothing(s: bytes, end: nat)
    requires end < |s|
    ensures Decode(s, end, end) == Some([])
  {
  }

  /**
   Any scalar values, each spelled `\uXXXX` or as a surrogate pair in any hexadecimal case,
   decode to the concatenation of their UTF-8 forms, and those bytes decode back to them.
   */
  lemma {:induction false} UnicodeEscapes(s: bytes, i: nat, ps: seq<Piece>, cs: seq<scalar>)
    requires |ps| == |cs| && ValidPieces(ps)
    requires forall k | 0 <= k < |ps| :: Spells(ps[k], cs[k])
    requires At(s, i, PiecesText(ps)) && i + |PiecesText(ps)| < |s|
    ensures Decode(s, i, i + |PiecesText(ps)|) == Some(Utf8All(cs))
    ensures Utf8Decode(Utf8All(cs)) == Some(cs)
  {
    hide At, PiecesText, PiecesValue, Spells, Utf8All, ValidPieces, Utf8Decode, Paired;
    SpelledValue(ps, cs);
    DecodePieces(s, i, ps, i + |PiecesText(ps)|);
    DecodeNothing(s, i + |PiecesText(ps)|);
    Utf8RoundTrip(cs);
    assert Utf8All(cs) + [] == Utf8All(cs);
  }

  // ----- printing -----

  /** The lower case hexadecimal digit `sprintf` writes. */
  function HexChar(n: nat): byte
    requires n < 16
  {
    if n < 10 then 48 + n else 87 + n
  }

  /** How `print_string_ptr` spells one byte. */
  function EscapeByte(b: byte): (r: bytes)
    ensures |r| > 0
  {
    if b > 31 && b != QUOTE && b != BACKSLASH then [b]
    else if b == BACKSLASH || b == QUOTE then [BACKSLASH, b]
    else if b == BACKSPACE then [BACKSLASH, LOWER_B]
    else if b == FF then [BACKSLASH, LOWER_F]
    else if b == LF then [BACKSLASH, LOWER_N]
    else if b == CR then [BACKSLASH, LOWER_R]
    else if b == TAB then [BACKSLASH, LOWER_T]
    else [BACKSLASH, LOWER_U, ZERO, ZERO, HexChar(b / 16), HexChar(b % 16)]
  }

  /** Which spelling is chosen: a short escape where there is one, lower case hexadecimal digits where there is none. */
  lemma {:induction false} EscapeIs(b: byte)
    ensures EscapeByte(b) ==
            if b == '"' as int then Ascii("\\\"") else if b == '\\' as int then Ascii("\\\\")
            else if b == 8 then Ascii("\\b") else if b == 9 then Ascii("\\t") else if b == 10 then Ascii("\\n")
            else if b == 12 then Ascii("\\f") else if b == 13 then Ascii("\\r")
            else if b < 32 then Ascii("\\u00") + [Ascii("01")[b / 16], Ascii("0123456789abcdef")[b % 16]]
            else [b]
  {
  }

  function EscapeText(s: bytes): bytes {
    if s == [] then [] else EscapeByte(s[0]) + EscapeText(s[1..])
  }

  /** The printed bytes as characters of the grammar. */
  function EscapePiece(b: byte): Piece {
    if b > 31 && b != QUOTE && b != BACKSLASH then Lit(b)
    else if |EscapeByte(b)| == 2 then Short(EscapeByte(b)[1])
    else Bmp(EscapeByte(b)[2..])
  }

  function EscapePieces(s: bytes): (r: seq<Piece>)
    ensures |r| == |s|
    ensures forall k | 0 <= k < |s| :: r[k] == EscapePiece(s[k])
  {
    if s == [] then [] else [EscapePiece(s[0])] + EscapePieces(s[1..])
  }

  lemma {:induction false} EscapePieceSpells(b: byte)
    requires b != NUL
    ensures ValidPiece(EscapePiece(b)) && !EscapePiece(b).Lone?
    ensures PieceText(EscapePiece(b)) == EscapeByte(b)
    ensures PieceValue(EscapePiece(b)) == [b]
  {
    if EscapePiece(b).Bmp? {
      var h := EscapeByte(b)[2..];
      assert h == [ZERO, ZERO, HexChar(b / 16), HexChar(b % 16)];
      assert HexDigits(h);
      assert Hex4(h) == b / 16 * 16 + b % 16 == b;
    }
  }

  /** What the printer writes for a C string is a literal that denotes exactly that string. */
  lemma {:induction false} EscapeSpells(s: bytes)
    requires NoNul(s)
    ensures ValidPieces(EscapePieces(s)) && Paired(EscapePieces(s))
    ensures PiecesText(EscapePieces(s)) == EscapeText(s)
    ensures PiecesValue(EscapePieces(s)) == s
  {
    hide PieceText, PieceValue, ValidPiece, EscapeByte, EscapePiece, MakePair, ValidPieces;
    if s != [] {
      EscapePieceSpells(s[0]);
      EscapeSpells(s[1..]);
      var ps := EscapePieces(s[1..]);
      assert EscapePieces(s) == [EscapePiece(s[0])] + ps && EscapePieces(s)[1..] == ps;
      assert [s[0]] + s[1..] == s;
      if ps != [] {
        NotLone(EscapePiece(s[0]), ps);
      }
      ConsPieces(EscapePiece(s[0]), ps);
    } else {
      NoPieces();
    }
  }

  lemma {:induction false} NotLone(p: Piece, ps: seq<Piece>)
    requires ValidPiece(p) && !p.Lone? && ValidPieces(ps) && ps != []
    ensures ValidPiece(ps[0]) && !MakePair(p, ps[0])
  {
  }

  lemma {:induction false} EscapeConcat(a: bytes, b: bytes)
    ensures EscapeText(a + b) == EscapeText(a) + EscapeText(b)
  {
    if a == [] {
      assert a + b == b;
    } else {
      assert (a + b)[1..] == a[1..] + b;
      EscapeConcat(a[1..], b);
    }
  }

  lemma {:induction false} EscapeNoNul(s: bytes)
    requires NoNul(s)
    ensures NoNul(EscapeText(s))
  {
    if s != [] {
      EscapeNoNul(s[1..]);
    }
  }
}
