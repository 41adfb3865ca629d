/** Whatever the parser accepts is a document: with the converse, exactly which texts are accepted. */
module Soundness {
  import opened Bytes
  import opened Doubles
  import opened Numbers
  import opened Unicode
  import opened JsonStrings
  import opened Json
  import opened JsonGrammar
  import opened JsonDocument
  import opened Reparse

  /** How many backslashes stand right before `p`. */
  function Backslashes(s: bytes, p: nat): nat
    requires p <= |s|
  {
    if p > 0 && s[p - 1] == BACKSLASH then 1 + Backslashes(s, p - 1) else 0
  }

  /** A backslash that begins an escape, with a `u` after it. */
  predicate UnicodeEscape(s: bytes, p: nat)
    requires p + 1 < |s|
  {
    s[p] == BACKSLASH && s[p + 1] == LOWER_U && Backslashes(s, p) % 2 == 0
  }

  /** Every `\u` escape has four hexadecimal digits. */
  predicate HexEscapes(s: bytes) {
    forall p {:trigger UnicodeEscape(s, p)} | 0 <= p && p + 6 < |s| && UnicodeEscape(s, p) :: HexDigits(s[p + 2..p + 6])
  }

  /** A C string with its NUL, and hexadecimal escapes. */
  predicate Clean(s: bytes) {
    Terminated(s) && NoNul(s[..|s| - 1]) && HexEscapes(s)
  }

  // ----- strings -----

  lemma {:induction false} NotNul(s: bytes, p: nat)
    requires Clean(s) && p < |s| - 1
    ensures s[p] != NUL
  {
    assert s[..|s| - 1][p] == s[p];
  }

  /** The characters from `p` to the closing quote. */
  lemma {:induction false} SoundPieces(s: bytes, p: nat, end: nat) returns (ps: seq<Piece>)
    requires Clean(s) && end < |s| && StringEnd(s, p) == Some(end) && Decode(s, p, end).Some?
    requires p <= end && Backslashes(s, p) % 2 == 0
    ensures ValidPieces(ps) && Paired(ps) && At(s, p, PiecesText(ps)) && p + |PiecesText(ps)| == end
    ensures Decode(s, p, end) == Some(PiecesValue(ps))
    decreases end - p
  {
    hide Decode, Step, StringEnd, ValidPiece, PieceText, PieceValue, MakePair, Backslashes, At, Clean, PiecesText,
      PiecesValue, Paired, ValidPieces;
    if p == end {
      ps := [];
      NothingLeft(s, p, end);
    } else {
      var piece := SoundPiece(s, p, end);
      var next := p + |PieceText(piece)|;
      DecodeStep(s, p, end, piece);
      var rest := SoundPieces(s, next, end);
      ps := [piece] + rest;
      ConsSound(s, p, piece, rest);
    }
  }

  lemma {:induction false} NothingLeft(s: bytes, p: nat, end: nat)
    requires p == end < |s|
    ensures ValidPieces([]) && Paired([]) && At(s, p, PiecesText([])) && PiecesText([]) == []
    ensures Decode(s, p, end) == Some(PiecesValue([]))
  {
  }

  lemma {:induction false} DecodeStep(s: bytes, p: nat, end: nat, piece: Piece)
    requires p < end < |s| && ValidPiece(piece) && Decode(s, p, end).Some?
    requires Step(s, p, end) == Some(Chunk(PieceValue(piece), |PieceText(piece)|))
    ensures var rest := Decode(s, p + |PieceText(piece)|, end);
            rest.Some? && Decode(s, p, end) == Some(PieceValue(piece) + rest.value)
  {
    hide Step, PieceText, PieceValue, ValidPiece;
  }

  lemma {:induction false} ConsSound(s: bytes, p: nat, piece: Piece, rest: seq<Piece>)
    requires ValidPiece(piece) && !piece.Lone? && ValidPieces(rest) && Paired(rest)
    requires At(s, p, PieceText(piece)) && At(s, p + |PieceText(piece)|, PiecesText(rest))
    ensures var ps := [piece] + rest;
            && ValidPieces(ps) && Paired(ps) && At(s, p, PiecesText(ps))
            && PiecesText(ps) == PieceText(piece) + PiecesText(rest)
            && PiecesValue(ps) == PieceValue(piece) + PiecesValue(rest)
  {
    hide At, PieceText, PieceValue, ValidPiece;
    NoPairHere(piece, rest);
    ConsPieces(piece, rest);
    assert ([piece] + rest)[1..] == rest;
    AtSplit(s, p, PieceText(piece), PiecesText(rest));
  }

  lemma {:induction false} NoPairHere(piece: Piece, rest: seq<Piece>)
    requires ValidPiece(piece) && !piece.Lone? && ValidPieces(rest)
    ensures rest != [] ==> ValidPiece(rest[0]) && !MakePair(piece, rest[0])
  {
  }

  /** The character at `p`, before which an even number of backslashes stands. */
  lemma {:induction false} SoundPiece(s: bytes, p: nat, end: nat) returns (piece: Piece)
    requires Clean(s) && p < end < |s| && StringEnd(s, p) == Some(end) && Decode(s, p, end).Some?
    requires Backslashes(s, p) % 2 == 0
    ensures ValidPiece(piece) && !piece.Lone? && At(s, p, PieceText(piece))
    ensures Step(s, p, end) == Some(Chunk(PieceValue(piece), |PieceText(piece)|))
    ensures var next := p + |PieceText(piece)|;
            next <= end && StringEnd(s, next) == Some(end) && Backslashes(s, next) % 2 == 0
  {
    hide HexDigits, Hex4, Utf8, HexEscapes, NoNul, Clean, At;
    NotNul(s, p);
    EscapeEnds(s, p, end);
    if s[p] != BACKSLASH {
      piece := Lit(s[p]);
      OneByteAt(s, p);
    } else if s[p + 1] != LOWER_U {
      piece := Short(s[p + 1]);
      TwoBytesAt(s, p);
      AfterShort(s, p);
    } else {
      piece := SoundEscape(s, p, end);
    }
  }

  /** The first pass jumps over an escape, so that it does not reach past the closing quote. */
  lemma {:induction false} EscapeEnds(s: bytes, p: nat, end: nat)
    requires p < end < |s| && StringEnd(s, p) == Some(end)
    ensures s[p] != QUOTE
    ensures s[p] == BACKSLASH ==> p + 2 <= end && StringEnd(s, p + 2) == Some(end)
    ensures s[p] != BACKSLASH ==> StringEnd(s, p + 1) == Some(end)
  {
  }

  lemma {:induction false} OneByteAt(s: bytes, p: nat)
    requires p < |s|
    ensures At(s, p, [s[p]])
  {
    assert s[p..p + 1] == [s[p]];
  }

  lemma {:induction false} TwoBytesAt(s: bytes, p: nat)
    requires p + 1 < |s|
    ensures At(s, p, [s[p], s[p + 1]])
  {
    assert s[p..p + 2] == [s[p], s[p + 1]];
  }

  lemma {:induction false} AfterShort(s: bytes, p: nat)
    requires p + 1 < |s| && s[p] == BACKSLASH
    ensures Backslashes(s, p + 2) == if s[p + 1] == BACKSLASH then Backslashes(s, p) + 2 else 0
  {
    assert Backslashes(s, p + 1) == 1 + Backslashes(s, p);
  }

  /** A `\u` escape: one character of the basic plane, or a pair. */
  lemma {:induction false} SoundEscape(s: bytes, p: nat, end: nat) returns (piece: Piece)
    requires Clean(s) && p + 2 <= end < |s| && StringEnd(s, p) == Some(end) && Step(s, p, end).Some?
    requires Backslashes(s, p) % 2 == 0 && s[p] == BACKSLASH && s[p + 1] == LOWER_U
    ensures ValidPiece(piece) && !piece.Lone? && At(s, p, PieceText(piece))
    ensures Step(s, p, end) == Some(Chunk(PieceValue(piece), |PieceText(piece)|))
    ensures var next := p + |PieceText(piece)|;
            next <= end && StringEnd(s, next) == Some(end) && Backslashes(s, next) % 2 == 0
  {
    hide Hex4, Utf8, Clean, At, StringEnd, PieceText, PieceValue, HexDigits;
    var first := s[p + 2..p + 6];
    HexHere(s, p, end);
    if IsHighSurrogate(Hex4(first)) {
      var second := s[p + 8..p + 12];
      HexHere(s, p + 6, end);
      piece := Pair(first, second);
      PairHere(s, p);
    } else {
      piece := Bmp(first);
      ScalarHere(Hex4(first));
      BmpText(first);
    }
    StepOfPiece(s, p, piece, end);
  }

  lemma {:induction false} ScalarHere(c: nat)
    requires c <= 0xFFFF && !IsHighSurrogate(c) && !IsLowSurrogate(c)
    ensures IsScalar(c)
  {
  }

  lemma {:induction false} BmpText(h: bytes)
    requires |h| == 4
    ensures |PieceText(Bmp(h))| == 6
  {
  }

  lemma {:induction false} PairHere(s: bytes, p: nat)
    requires p + 12 <= |s|
    requires At(s, p, PieceText(Bmp(s[p + 2..p + 6]))) && At(s, p + 6, PieceText(Bmp(s[p + 8..p + 12])))
    ensures var q := Pair(s[p + 2..p + 6], s[p + 8..p + 12]); At(s, p, PieceText(q)) && |PieceText(q)| == 12
  {
    var a, b := PieceText(Bmp(s[p + 2..p + 6])), PieceText(Bmp(s[p + 8..p + 12]));
    AtSplit(s, p, a, b);
    assert PieceText(Pair(s[p + 2..p + 6], s[p + 8..p + 12])) == a + b;
  }

  /** Four digits after the escape, which the first pass sees as ordinary bytes. */
  lemma {:induction false} HexHere(s: bytes, p: nat, end: nat)
    requires Clean(s) && p + 6 <= end < |s| && StringEnd(s, p) == Some(end)
    requires s[p] == BACKSLASH && s[p + 1] == LOWER_U && Backslashes(s, p) % 2 == 0
    ensures IsHex4(s[p + 2..p + 6]) && At(s, p, PieceText(Bmp(s[p + 2..p + 6])))
    ensures StringEnd(s, p + 6) == Some(end) && Backslashes(s, p + 6) == 0
  {
    hide StringEnd, Terminated, NoNul;
    var h := s[p + 2..p + 6];
    assert UnicodeEscape(s, p);
    assert s[p..p + 6] == [BACKSLASH, LOWER_U] + h;
    EndPastHex(s, p, h);
    assert HexDigit(h[3]) >= 0 && h[3] == s[p + 5];
  }

  // ----- numbers -----

  lemma {:induction false} DigitRunPrefix(s: bytes, i: nat, n: nat)
    requires i <= |s| && DigitRun(s, i) <= n <= |s|
    ensures DigitRun(s[..n], i) == DigitRun(s, i)
  {
    DigitRunIs(s[..n], i, DigitRun(s, i));
  }

  lemma {:induction false} ExponentPrefix(s: bytes, m: nat)
    requires m <= |s|
    ensures var n := ExponentEnd(s, m);
            ExponentEnd(s[..n], m) == n && ExponentValue(s[..n], m) == ExponentValue(s, m)
  {
    hide DigitsValue;
    var n := ExponentEnd(s, m);
    var t := s[..n];
    if n > m {
      var k := if IsSign(s, m + 1) then m + 2 else m + 1;
      DigitRunPrefix(s, k, n);
      assert t[k..n] == s[k..n];
    }
  }

  /** Where the digits before and after the point end, and whether there is a point. */
  predicate Mantissa(s: bytes, i: nat, w: nat, point: bool, m: nat) {
    && i == (if IsSign(s, 0) then 1 else 0) && i <= |s| && w == DigitRun(s, i)
    && point == (w < |s| && s[w] == DOT) && m == (if point then DigitRun(s, w + 1) else w)
  }

  lemma {:induction false} ScanIs(s: bytes, i: nat, w: nat, point: bool, m: nat)
    requires Mantissa(s, i, w, point, m)
    ensures var f := if point then w + 1 else w;
            && i <= w && f <= m <= |s| && AllDigits(s[i..w] + s[f..m])
            && var v: int := DigitsValue(s[i..w] + s[f..m]);
               Strtod(s) ==
               if w == i && m == f then Scan(0.0, 0)
               else
                 Scan(Round(Scale(if i == 1 && s[0] == MINUS then -v else v, ExponentValue(s, m) - (m - f))),
                      ExponentEnd(s, m))
  {
    hide DigitsValue, ExponentEnd, ExponentValue, Scale, Round;
  }

  lemma {:induction false} MantissaPrefix(s: bytes, i: nat, w: nat, point: bool, m: nat, n: nat)
    requires Mantissa(s, i, w, point, m) && m <= n <= |s| && n > 0
    ensures Mantissa(s[..n], i, w, point, m)
  {
    hide DigitRun;
    RunForward(s, i);
    if point {
      RunForward(s, w + 1);
      DigitRunPrefix(s, w + 1, n);
    }
    DigitRunPrefix(s, i, n);
  }

  lemma {:induction false} RunForward(s: bytes, i: nat)
    requires i <= |s|
    ensures i <= DigitRun(s, i) <= |s|
  {
  }

  /** What `strtod` consumes it reads again, to its end and for the same value. */
  lemma {:induction false} ScanPrefix(s: bytes)
    requires Strtod(s).used > 0
    ensures Strtod(s[..Strtod(s).used]) == Strtod(s)
  {
    hide DigitsValue, DigitRun, ExponentEnd, ExponentValue, Scale, Round, Strtod, Mantissa, AllDigits;
    var i, w, point, m := MantissaOf(s);
    ScanIs(s, i, w, point, m);
    var f := if point then w + 1 else w;
    var n := ExponentEnd(s, m);
    var t := s[..n];
    MantissaPrefix(s, i, w, point, m, n);
    ScanIs(t, i, w, point, m);
    ExponentPrefix(s, m);
    assert t[i..w] == s[i..w] && t[f..m] == s[f..m];
  }

  lemma {:induction false} MantissaOf(s: bytes) returns (i: nat, w: nat, point: bool, m: nat)
    ensures Mantissa(s, i, w, point, m)
  {
    i := if IsSign(s, 0) then 1 else 0;
    w := DigitRun(s, i);
    point := w < |s| && s[w] == DOT;
    m := if point then DigitRun(s, w + 1) else w;
  }

  /** The bytes a number takes are a token that denotes it. */
  lemma {:induction false} SoundNumber(s: bytes, i: nat) returns (t: bytes)
    requires i < |s| && StartsNumber(s[i]) && ParseNumber(s, i).Ok?
    ensures NumberToken(t) && At(s, i, t)
    ensures ParseNumber(s, i) == Ok(NumberItem(Strtod(t).value), i + |t|)
  {
    hide Strtod, NumberRunFrom, Saturate;
    var run := s[i..NumberRun(s, i)];
    var used := Strtod(run).used;
    ScanPrefix(run);
    t := run[..used];
    assert t == s[i..i + used];
    assert t[0] == s[i];
  }

  // ----- blanks -----

  lemma {:induction false} SoundBlanks(s: bytes, i: nat)
    requires Clean(s) && i < |s|
    ensures var r := SkipBlanks(s, i); Blanks(s[i..r]) && At(s, i, s[i..r])
  {
    hide HexEscapes;
    var r := SkipBlanks(s, i);
    forall k | i <= k < r ensures 0 < s[k] <= SPACE {
      NotNul(s, k);
    }
  }

  // ----- values -----

  lemma {:induction false} SoundWord(s: bytes, i: nat, kind: Kind, depth: nat) returns (d: Doc)
    requires Terminated(s) && i < |s| && (kind == Null || kind == False || kind == True) && At(s, i, WordText(kind))
    ensures Sound(s, i, d, depth)
  {
    d := Word(kind);
    ParsesWord(s, i, kind, depth);
  }

  /** The bytes of `d` stand at `i`, and there the parser reads it for its value. */
  predicate Sound(s: bytes, i: nat, d: Doc, depth: nat)
    requires Terminated(s) && i < |s|
  {
    && ValidDoc(d) && Readable(d) && At(s, i, Text(d)) && (depth <= NESTING_LIMIT ==> depth + Depth(d) <= NESTING_LIMIT)
    && ParseValue(s, i, depth) == Ok(Value(d), i + |Text(d)|)
  }

  /** A literal. */
  lemma {:induction false} SoundLiteral(s: bytes, i: nat) returns (ps: seq<Piece>)
    requires Clean(s) && i < |s| && ParseString(s, i).Ok?
    ensures ValidPieces(ps) && Paired(ps) && At(s, i, Quoted(PiecesText(ps)))
    ensures ParseString(s, i) == Ok(CString(PiecesValue(ps)), i + |Quoted(PiecesText(ps))|)
  {
    hide Decode, At, StringEnd, PiecesText, PiecesValue, ValidPieces, Paired, Clean, CString;
    var end := StringEnd(s, i + 1).value;
    NoBackslash(s, i);
    ps := SoundPieces(s, i + 1, end);
    QuotedAt(s, i, PiecesText(ps));
  }

  lemma {:induction false} NoBackslash(s: bytes, i: nat)
    requires i < |s| && s[i] != BACKSLASH
    ensures Backslashes(s, i + 1) == 0
  {
  }

  lemma {:induction false} QuotedAt(s: bytes, i: nat, t: bytes)
    requires i < |s| && s[i] == QUOTE && At(s, i + 1, t) && i + 1 + |t| < |s| && s[i + 1 + |t|] == QUOTE
    ensures At(s, i, Quoted(t))
  {
    assert s[i..i + |t| + 2] == [QUOTE] + t + [QUOTE];
  }

  lemma {:induction false} SoundString(s: bytes, i: nat, depth: nat) returns (d: Doc)
    requires Clean(s) && i < |s| && s[i] == QUOTE && ParseValue(s, i, depth).Ok?
    ensures Sound(s, i, d, depth)
  {
    hide Clean, At, ParseString, PiecesText, PiecesValue, ValidPieces, Paired;
    IsTerminated(s);
    NotWord(s, i);
    var ps := SoundLiteral(s, i);
    ParsesString(s, i, ps, depth);
    d := Str(ps);
  }

  lemma {:induction false} IsTerminated(s: bytes)
    requires Clean(s)
    ensures Terminated(s)
  {
  }

  lemma {:induction false} SoundNum(s: bytes, i: nat, depth: nat) returns (d: Doc)
    requires Terminated(s) && i < |s| && s[i] != QUOTE && StartsNumber(s[i]) && ParseValue(s, i, depth).Ok?
    ensures Sound(s, i, d, depth)
  {
    hide At, ParseNumber, Strtod, Saturate, NumberToken, NumberLike;
    NotWord(s, i);
    var t := SoundNumber(s, i);
    TokenIsLike(t);
    d := Num(t);
  }

  /** What is accepted and none of the above begins with a bracket. */
  lemma {:induction false} Bracket(s: bytes, i: nat, depth: nat)
    requires Terminated(s) && i < |s| && ParseValue(s, i, depth).Ok?
    requires !At(s, i, NULL_TEXT) && !At(s, i, FALSE_TEXT) && !At(s, i, TRUE_TEXT)
    requires s[i] != QUOTE && !StartsNumber(s[i])
    ensures s[i] == LBRACKET || s[i] == LBRACE
  {
    hide At, SkipBlanks, ParseElements, ParseMembers;
  }

  /** The bytes a value takes are a document that denotes it. */
  lemma {:induction false} SoundValue(s: bytes, i: nat, depth: nat) returns (d: Doc)
    requires Clean(s) && Terminated(s) && i < |s| && depth <= NESTING_LIMIT && ParseValue(s, i, depth).Ok?
    ensures Sound(s, i, d, depth)
    decreases |s| - i, 1
  {
    hide At, ParseValue, StartsNumber, Clean, Sound, Terminated;
    if At(s, i, NULL_TEXT) {
      d := SoundWord(s, i, Null, depth);
    } else if At(s, i, FALSE_TEXT) {
      d := SoundWord(s, i, False, depth);
    } else if At(s, i, TRUE_TEXT) {
      d := SoundWord(s, i, True, depth);
    } else if s[i] == QUOTE {
      d := SoundString(s, i, depth);
    } else if StartsNumber(s[i]) {
      d := SoundNum(s, i, depth);
    } else {
      Bracket(s, i, depth);
      d := SoundList(s, i, depth);
    }
  }

  /** An array or an object. */
  lemma {:induction false} SoundList(s: bytes, i: nat, depth: nat) returns (d: Doc)
    requires Clean(s) && Terminated(s) && i < |s| && depth <= NESTING_LIMIT && ParseValue(s, i, depth).Ok?
    requires s[i] == LBRACKET || s[i] == LBRACE
    ensures Sound(s, i, d, depth)
    decreases |s| - i, 0
  {
    hide *;
    BracketStep(s, i, depth);
    var named := s[i] == LBRACE;
    var close := if named then RBRACE else RBRACKET;
    var p := SkipBlanks(s, i + 1);
    SoundBlanks(s, i + 1);
    if s[p] == close {
      d := EmptyDoc(s, i, named, s[i + 1..p], depth);
    } else {
      var elems := SoundElems(s, i + 1, p, depth + 1, named);
      d := ListDoc(s, i, named, elems, depth);
    }
  }

  lemma {:induction false} EmptyDoc(s: bytes, i: nat, named: bool, open: bytes, depth: nat) returns (d: Doc)
    requires Terminated(s) && i + 1 + |open| < |s| && depth < NESTING_LIMIT && Blanks(open) && At(s, i + 1, open)
    requires s[i] == (if named then LBRACE else LBRACKET) && s[i + 1 + |open|] == (if named then RBRACE else RBRACKET)
    ensures Sound(s, i, d, depth)
  {
    hide ParseValue, Terminated;
    d := if named then Obj(open, []) else Arr(open, []);
    assert s[i..i + 1 + |open| + 1] == [s[i]] + (open + [s[i + 1 + |open|]]);
    ParsesDoc(s, i, d, depth);
  }

  lemma {:induction false} ListDoc(s: bytes, i: nat, named: bool, elems: seq<Elem>, depth: nat) returns (d: Doc)
    requires Terminated(s) && i + 1 < |s| && s[i] == (if named then LBRACE else LBRACKET)
    requires ElemsSound(s, i + 1, elems, named, depth + 1)
    ensures Sound(s, i, d, depth)
  {
    hide ParseValue, Terminated, ElemsText, ValidElem, ReadableElem, ElemsDepth, Value, At;
    d := if named then Obj([], elems) else Arr([], elems);
    OneByteAt(s, i);
    AtSplit(s, i, [s[i]], ElemsText(elems, if named then RBRACE else RBRACKET));
    ParsesDoc(s, i, d, depth);
  }

  /** The bytes of the elements, up to the closing bracket, stand at `p`. */
  predicate ElemsSound(s: bytes, p: nat, elems: seq<Elem>, named: bool, depth: nat) {
    && elems != [] && (forall e | e in elems :: ValidElem(e, named)) && ReadableAll(elems)
    && At(s, p, ElemsText(elems, if named then RBRACE else RBRACKET)) && depth + ElemsDepth(elems) <= NESTING_LIMIT
  }

  lemma {:induction false} SkipTwice(s: bytes, from: nat, p: nat)
    requires from < |s| && (p == from || p == SkipBlanks(s, from))
    ensures from <= p < |s| && SkipBlanks(s, p) == SkipBlanks(s, from)
  {
  }

  /** What the turn at `p` leaves: a comma and more, or the closing bracket. */
  lemma {:induction false} ElementTurn(s: bytes, p: nat, depth: nat)
    requires Terminated(s) && p < |s| && ParseElements(s, p, depth).Ok?
    ensures var r := ParseValue(s, SkipBlanks(s, p), depth);
            && r.Ok? && p < r.next < |s|
            && var m := SkipBlanks(s, r.next);
               && r.next <= m
               && (s[m] == RBRACKET || (s[m] == COMMA && m + 1 < |s| && ParseElements(s, m + 1, depth).Ok?))
  {
    hide ParseValue, SkipBlanks;
  }

  lemma {:induction false} MemberTurn(s: bytes, p: nat, depth: nat)
    requires Terminated(s) && p < |s| && ParseMembers(s, p, depth).Ok?
    ensures var r := ParseMember(s, p, depth);
            && r.Ok? && p < r.next < |s|
            && var m := SkipBlanks(s, r.next);
               && r.next <= m && (s[m] == RBRACE || (s[m] == COMMA && m + 1 < |s| && ParseMembers(s, m + 1, depth).Ok?))
  {
    hide ParseMember, SkipBlanks;
  }

  /** Elements or members read from `p`, which is `from` or the end of the blanks there. */
  lemma {:induction false} SoundElems(s: bytes, from: nat, p: nat, depth: nat, named: bool) returns (elems: seq<Elem>)
    requires Clean(s) && Terminated(s) && from < |s| && (p == from || p == SkipBlanks(s, from))
    requires depth <= NESTING_LIMIT
    requires p < |s| && if named then ParseMembers(s, p, depth).Ok? else ParseElements(s, p, depth).Ok?
    ensures ElemsSound(s, from, elems, named, depth)
    decreases |s| - p, 3
  {
    hide *;
    SkipTwice(s, from, p);
    SoundBlanks(s, from);
    var q := SkipBlanks(s, p);
    var before, close := s[from..q], if named then RBRACE else RBRACKET;
    var e: Elem, next: nat;
    if named {
      MemberTurn(s, p, depth);
      next := ParseMember(s, p, depth).next;
      e := SoundMember(s, from, p, depth);
    } else {
      ElementTurn(s, p, depth);
      next := ParseValue(s, q, depth).next;
      e := SoundElement(s, from, p, depth);
    }
    var m := SkipBlanks(s, next);
    e := WithAfter(s, from, e, named, depth, next);
    if s[m] == close {
      elems := [e];
      LastElem(s, from, e, named, depth, m);
    } else {
      var rest := SoundElems(s, m + 1, m + 1, depth, named);
      elems := [e] + rest;
      MoreElems(s, from, e, rest, named, depth, m);
    }
  }

  /** An element whose bytes, without the blanks after it, stand at `from` and end at `next`. */
  predicate ElemSound(s: bytes, from: nat, e: Elem, named: bool, depth: nat, next: nat) {
    && ValidElem(e, named) && ReadableElem(e) && depth + Depth(e.doc) <= NESTING_LIMIT
    && At(s, from, ElemText(e)) && from + |ElemText(e)| == next
  }

  lemma {:induction false} SoundElement(s: bytes, from: nat, p: nat, depth: nat) returns (e: Elem)
    requires Clean(s) && Terminated(s) && from <= p < |s| && SkipBlanks(s, p) == SkipBlanks(s, from)
    requires depth <= NESTING_LIMIT && ParseValue(s, SkipBlanks(s, p), depth).Ok?
    ensures ElemSound(s, from, e, false, depth, ParseValue(s, SkipBlanks(s, p), depth).next) && e.after == []
    decreases |s| - p, 2
  {
    hide At, SkipBlanks, ParseValue, Clean, Text, ValidDoc, Readable, Depth, Value, Blanks;
    var q := SkipBlanks(s, p);
    SoundBlanks(s, from);
    SkipForward(s, p);
    var d := SoundValue(s, q, depth);
    e := Elem(s[from..q], NoKey, d, []);
    assert ElemText(e) == s[from..q] + Text(d);
    AtSplit(s, from, s[from..q], Text(d));
    NoBlanks();
  }

  lemma {:induction false} NoBlanks()
    ensures Blanks([])
  {
  }

  lemma {:induction false} SkipForward(s: bytes, p: nat)
    requires p < |s|
    ensures p <= SkipBlanks(s, p) < |s|
  {
  }

  /** The parts of a member: its name ends at `n`, the colon stands at `c`, the value at `v`. */
  lemma {:induction false} MemberParts(s: bytes, p: nat, depth: nat) returns (n: nat, c: nat, v: nat)
    requires Terminated(s) && p < |s| && ParseMember(s, p, depth).Ok?
    ensures p <= SkipBlanks(s, p) < n <= c < v < |s| && s[c] == COLON
    ensures ParseString(s, SkipBlanks(s, p)).Ok? && ParseString(s, SkipBlanks(s, p)).next == n
    ensures SkipBlanks(s, n) == c && SkipBlanks(s, c + 1) == v
    ensures ParseValue(s, v, depth).Ok? && ParseValue(s, v, depth).next == ParseMember(s, p, depth).next
  {
    hide ParseValue, ParseString, SkipBlanks;
    n := ParseString(s, SkipBlanks(s, p)).next;
    NameEnds(s, SkipBlanks(s, p));
    c := SkipBlanks(s, n);
    v := SkipBlanks(s, c + 1);
  }

  lemma {:induction false} SoundMember(s: bytes, from: nat, p: nat, depth: nat) returns (e: Elem)
    requires Clean(s) && Terminated(s) && from <= p < |s| && SkipBlanks(s, p) == SkipBlanks(s, from)
    requires depth <= NESTING_LIMIT && ParseMember(s, p, depth).Ok?
    ensures ElemSound(s, from, e, true, depth, ParseMember(s, p, depth).next) && e.after == []
    decreases |s| - p, 2
  {
    hide *;
    var n, c, v := MemberParts(s, p, depth);
    var k := SkipBlanks(s, p);
    var ps := SoundLiteral(s, k);
    var d := SoundValue(s, v, depth);
    SoundBlanks(s, from);
    SoundBlanks(s, n);
    SoundBlanks(s, c + 1);
    e := MemberElem(s, from, k, ps, n, c, v, d, depth);
  }

  lemma {:induction false} MemberElem(s: bytes, from: nat, k: nat, ps: seq<Piece>, n: nat, c: nat, v: nat, d: Doc,
                                      depth: nat)
    returns (e: Elem)
    requires Terminated(s) && from <= k <= n <= c < v < |s| && s[c] == COLON && depth <= NESTING_LIMIT
    requires ValidPieces(ps) && Paired(ps) && At(s, k, Quoted(PiecesText(ps))) && n == k + |Quoted(PiecesText(ps))|
    requires Blanks(s[from..k]) && Blanks(s[n..c]) && Blanks(s[c + 1..v]) && Sound(s, v, d, depth)
    ensures ElemSound(s, from, e, true, depth, ParseValue(s, v, depth).next) && e.after == []
  {
    hide At, ParseValue, Text, ValidDoc, Readable, Depth, Value, Blanks, ValidPieces, Paired, PiecesText, Quoted;
    var t, a, b, w := Quoted(PiecesText(ps)), s[from..k], s[n..c], s[c + 1..v];
    e := Elem(a, Key(ps, b, w), d, []);
    SliceAt(s, from, k);
    SliceAt(s, n, c);
    OneByteAt(s, c);
    SliceAt(s, c + 1, v);
    assert ElemText(e) == a + (t + (b + ([COLON] + (w + Text(d)))));
    AtSplit(s, c + 1, w, Text(d));
    AtSplit(s, c, [COLON], w + Text(d));
    AtSplit(s, n, b, [COLON] + (w + Text(d)));
    AtSplit(s, k, t, b + ([COLON] + (w + Text(d))));
    AtSplit(s, from, a, t + (b + ([COLON] + (w + Text(d)))));
    NoBlanks();
  }

  lemma {:induction false} SliceAt(s: bytes, i: nat, j: nat)
    requires i <= j <= |s|
    ensures At(s, i, s[i..j])
  {
  }

  /** The blanks after an element. */
  lemma {:induction false} WithAfter(s: bytes, from: nat, e0: Elem, named: bool, depth: nat, next: nat)
    returns (e: Elem)
    requires Clean(s) && Terminated(s) && next < |s| && e0.after == [] && ElemSound(s, from, e0, named, depth, next)
    ensures ElemSound(s, from, e, named, depth, SkipBlanks(s, next))
  {
    hide At, SkipBlanks, Clean, Text, ValidDoc, Readable, Depth, Blanks, KeyText, ValidPieces, Paired;
    var m := SkipBlanks(s, next);
    SoundBlanks(s, next);
    e := e0.(after := s[next..m]);
    assert ElemText(e) == ElemText(e0) + s[next..m];
    AtSplit(s, from, ElemText(e0), s[next..m]);
  }

  lemma {:induction false} LastElem(s: bytes, from: nat, e: Elem, named: bool, depth: nat, m: nat)
    requires ElemSound(s, from, e, named, depth, m) && m < |s| && s[m] == if named then RBRACE else RBRACKET
    ensures ElemsSound(s, from, [e], named, depth)
  {
    hide At, ElemText, ValidElem, ReadableElem, Depth;
    OneByteAt(s, m);
    AtSplit(s, from, ElemText(e), [s[m]]);
    DepthCases([e]);
    NoDepth();
  }

  lemma {:induction false} MoreElems(s: bytes, from: nat, e: Elem, rest: seq<Elem>, named: bool, depth: nat, m: nat)
    requires ElemSound(s, from, e, named, depth, m) && m < |s| && s[m] == COMMA
    requires ElemsSound(s, m + 1, rest, named, depth)
    ensures ElemsSound(s, from, [e] + rest, named, depth)
  {
    hide At, ElemText, ValidElem, ReadableElem, Depth, ElemsDepth, ElemsText;
    var close := if named then RBRACE else RBRACKET;
    assert ([e] + rest)[1..] == rest;
    OneByteAt(s, m);
    AtSplit(s, m, [COMMA], ElemsText(rest, close));
    AtSplit(s, from, ElemText(e), [COMMA] + ElemsText(rest, close));
    ConsText(e, rest, close);
    DepthCases([e] + rest);
  }

  lemma {:induction false} ConsText(e: Elem, rest: seq<Elem>, close: byte)
    requires rest != []
    ensures ElemsText([e] + rest, close) == ElemText(e) + ([COMMA] + ElemsText(rest, close))
  {
    hide ElemText;
    assert ([e] + rest)[1..] == rest;
  }

  // ----- whole texts -----

  /** The mark the parser skips is a byte order mark. */
  lemma {:induction false} SoundBom(s: bytes) returns (bom: bool)
    requires s != []
    ensures SkipBom(s) == (if bom then 3 else 0) && At(s, 0, if bom then BOM else [])
  {
    bom := 4 < |s| && s[..3] == BOM;
  }

  /** Every accepted text is a document with blanks around it and perhaps a mark before it. */
  lemma {:induction false} SoundText(text: bytes) returns (bom: bool, before: bytes, d: Doc, after: bytes)
    requires NoNul(text) && HexEscapes(text + [NUL]) && Parse(text, true).Ok?
    ensures Blanks(before) && ValidDoc(d) && Readable(d) && Depth(d) <= NESTING_LIMIT && Blanks(after)
    ensures text == Source(bom, before, d, after) && Parse(text, true) == Ok(Value(d), |text|)
  {
    hide At, ParseValue, SkipBlanks, HexEscapes, Text, ValidDoc, Readable, Depth, Value, Blanks, SkipBom, NoNul;
    var s := text + [NUL];
    assert s[..|s| - 1] == text;
    bom := SoundBom(s);
    var start := SkipBom(s);
    SoundBlanks(s, start);
    SkipForward(s, start);
    var i := SkipBlanks(s, start);
    before := s[start..i];
    d := SoundValue(s, i, 0);
    var next := i + |Text(d)|;
    SoundBlanks(s, next);
    SkipForward(s, next);
    var end := SkipBlanks(s, next);
    EndsAtNul(s, next);
    after := s[next..end];
    Assembled(text, bom, before, d, after);
  }

  lemma {:induction false} EndsAtNul(s: bytes, i: nat)
    requires Terminated(s) && i < |s|
    ensures s[SkipBlanks(s, i)] == NUL ==> SkipBlanks(s, i) == |s| - 1
  {
  }

  lemma {:induction false} Assembled(text: bytes, bom: bool, before: bytes, d: Doc, after: bytes)
    requires var s, start := text + [NUL], if bom then 3 else 0;
             && At(s, 0, if bom then BOM else []) && At(s, start, before) && At(s, start + |before|, Text(d))
             && At(s, start + |before| + |Text(d)|, after) && start + |before| + |Text(d)| + |after| == |text|
    ensures text == Source(bom, before, d, after)
  {
    hide Text, At;
    var s, mark: bytes := text + [NUL], if bom then BOM else [];
    AtSplit(s, |mark|, before, Text(d));
    AtSplit(s, 0, mark, before + Text(d));
    AtSplit(s, 0, mark + (before + Text(d)), after);
    AtSlice(s, 0, Source(bom, before, d, after));
    assert s[0..|text|] == text;
  }

  /** The text of a document the parser can read, with blanks around it and perhaps a byte order mark. */
  ghost predicate IsText(text: bytes, j: Json) {
    exists bom: bool, before: bytes, d: Doc, after: bytes :: IsSource(text, j, bom, before, d, after)
  }

  ghost predicate IsSource(text: bytes, j: Json, bom: bool, before: bytes, d: Doc, after: bytes) {
    && Blanks(before) && ValidDoc(d) && Readable(d) && Depth(d) <= 1000 && Blanks(after)
    && text == Source(bom, before, d, after) && j == Value(d)
  }

  /**
   Main result: a C string whose `\u` escapes are hexadecimal is accepted as a whole, for a
   tree, if and only if it is the text of a document that denotes that tree.
   */
  lemma {:induction false} AcceptsExactly(text: bytes, j: Json)
    requires NoNul(text) && HexEscapes(text + [NUL])
    ensures Parse(text, true) == Ok(j, |text|) <==> IsText(text, j)
    ensures Parse(text, true).Ok? ==> IsText(text, Parse(text, true).value)
  {
    hide Parse, Source, HexEscapes, NoNul, IsSource;
    if Parse(text, true).Ok? {
      var bom, before, d, after := SoundText(text);
      SourceIs(text, Parse(text, true).value, bom, before, d, after);
    }
    if IsText(text, j) {
      var bom: bool, before: bytes, d: Doc, after: bytes :| IsSource(text, j, bom, before, d, after);
      SourceParses(text, j, bom, before, d, after);
    }
  }

  lemma {:induction false} SourceIs(text: bytes, j: Json, bom: bool, before: bytes, d: Doc, after: bytes)
    requires Blanks(before) && ValidDoc(d) && Readable(d) && Depth(d) <= 1000 && Blanks(after)
    requires text == Source(bom, before, d, after) && j == Value(d)
    ensures IsSource(text, j, bom, before, d, after)
  {
    hide Source, Blanks, ValidDoc, Readable, Depth, Value;
  }

  lemma {:induction false} SourceParses(text: bytes, j: Json, bom: bool, before: bytes, d: Doc, after: bytes)
    requires IsSource(text, j, bom, before, d, after)
    ensures Parse(text, true) == Ok(j, |text|)
  {
    hide Parse, Source, Blanks, ValidDoc, Readable, Depth, Value;
    ParsesSource(bom, before, d, after, true);
  }
}
