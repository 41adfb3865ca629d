/**
 JSON documents as concrete syntax, with any blanks between tokens (RFC 8259 section 2),
 and the theorem that the parser reads every document it can as its value.
 */
module JsonDocument {
  import opened Bytes
  import opened Numbers
  import opened JsonStrings
  import opened Json
  import opened JsonGrammar

  /**
   A document: a keyword, a number token, a string literal, or a bracketed list.  `open` is
   the blanks of an empty list.
   */
  datatype Doc =
    | Word(kind: Kind)
    | Num(token: bytes)
    | Str(ps: seq<Piece>)
    | Arr(open: bytes, elems: seq<Elem>)
    | Obj(open: bytes, elems: seq<Elem>)

  /** An element or member with the blanks before and after it. */
  datatype Elem = Elem(before: bytes, key: Key, doc: Doc, after: bytes)

  /** The name of a member, with the blanks on either side of its colon. */
  datatype Key = NoKey | Key(ps: seq<Piece>, beforeColon: bytes, afterColon: bytes)

  predicate Blanks(w: bytes) {
    forall k | 0 <= k < |w| :: 0 < w[k] <= SPACE
  }

  /** A run of number characters, of any length, that begins like a number. */
  predicate NumberLike(t: bytes) {
    t != [] && StartsNumber(t[0]) && forall k | 0 <= k < |t| :: InNumber(t[k])
  }

  lemma {:induction false} TokenIsLike(t: bytes)
    ensures NumberToken(t) ==> NumberLike(t)
  {
    hide Strtod;
  }

  /** Well formed, but for the order of the characters in its numbers. */
  predicate ValidDoc(d: Doc) {
    match d
    case Word(kind) => kind == Null || kind == False || kind == True
    case Num(token) => NumberLike(token)
    case Str(ps) => ValidPieces(ps)
    case Arr(open, elems) => Blanks(open) && forall e | e in elems :: ValidElem(e, false)
    case Obj(open, elems) => Blanks(open) && forall e | e in elems :: ValidElem(e, true)
  }

  predicate ValidElem(e: Elem, named: bool) {
    && Blanks(e.before) && Blanks(e.after) && ValidDoc(e.doc)
    && match e.key
       case NoKey => !named
       case Key(ps, b, a) => named && ValidPieces(ps) && Blanks(b) && Blanks(a)
  }

  /** The parser can read the parts: surrogates are paired, and `strtod` takes each number whole within the buffer. */
  predicate Readable(d: Doc) {
    match d
    case Word(kind) => true
    case Num(token) => NumberToken(token)
    case Str(ps) => Paired(ps)
    case Arr(open, elems) => forall e | e in elems :: ReadableElem(e)
    case Obj(open, elems) => forall e | e in elems :: ReadableElem(e)
  }

  predicate ReadableElem(e: Elem) {
    Readable(e.doc) && (e.key.Key? ==> Paired(e.key.ps))
  }

  predicate ReadableAll(elems: seq<Elem>) {
    forall e | e in elems :: ReadableElem(e)
  }

  function WordText(kind: Kind): bytes {
    if kind == Null then NULL_TEXT else if kind == False then FALSE_TEXT else TRUE_TEXT
  }

  function Text(d: Doc): bytes
    decreases d
  {
    match d
    case Word(kind) => WordText(kind)
    case Num(token) => token
    case Str(ps) => Quoted(PiecesText(ps))
    case Arr(open, elems) => [LBRACKET] + (if elems == [] then open + [RBRACKET] else ElemsText(elems, RBRACKET))
    case Obj(open, elems) => [LBRACE] + (if elems == [] then open + [RBRACE] else ElemsText(elems, RBRACE))
  }

  /** Elements separated by commas, and the closing bracket. */
  function ElemsText(elems: seq<Elem>, close: byte): (r: bytes)
    requires elems != []
    ensures r != []
    decreases elems
  {
    ElemText(elems[0]) + (if |elems| == 1 then [close] else [COMMA] + ElemsText(elems[1..], close))
  }

  function KeyText(k: Key): bytes {
    match k
    case NoKey => []
    case Key(ps, b, a) => Quoted(PiecesText(ps)) + (b + ([COLON] + a))
  }

  function ElemText(e: Elem): bytes
    decreases e
  {
    e.before + (KeyText(e.key) + (Text(e.doc) + e.after))
  }

  /** The tree a document denotes. */
  function Value(d: Doc): Json
    requires ValidDoc(d)
    decreases d
  {
    match d
    case Word(kind) => if kind == True then TrueItem() else Blank(kind)
    case Num(token) => NumberItem(Strtod(token).value)
    case Str(ps) => StringItem(CString(PiecesValue(ps)))
    case Arr(open, elems) => ArrayItem(ElemsValue(elems, false))
    case Obj(open, elems) => ObjectItem(ElemsValue(elems, true))
  }

  function ElemsValue(elems: seq<Elem>, named: bool): seq<Json>
    requires forall e | e in elems :: ValidElem(e, named)
    decreases elems
  {
    if elems == [] then [] else [ElemValue(elems[0], named)] + ElemsValue(elems[1..], named)
  }

  function ElemValue(e: Elem, named: bool): Json
    requires ValidElem(e, named)
    decreases e
  {
    if named then Named(Value(e.doc), CString(PiecesValue(e.key.ps))) else Value(e.doc)
  }

  function Depth(d: Doc): nat
    decreases d
  {
    if d.Arr? || d.Obj? then 1 + ElemsDepth(d.elems) else 0
  }

  function ElemsDepth(elems: seq<Elem>): nat
    decreases elems
  {
    if elems == [] then 0
    else
      var h := Depth(elems[0].doc);
      var t := ElemsDepth(elems[1..]);
      if h > t then h else t
  }

  /** The byte after a document does not run on into a number. */
  predicate Stops(s: bytes, i: nat) {
    i < |s| && !InNumber(s[i])
  }

  // ----- the parser reads every document -----

  lemma {:induction false} RunsOverBlanks(s: bytes, i: nat, w: bytes)
    requires At(s, i, w) && Blanks(w)
    ensures BlankRun(s, i) == BlankRun(s, i + |w|)
    decreases |w|
  {
    if w != [] {
      AtSplit(s, i, w[..1], w[1..]);
      assert w == w[..1] + w[1..];
      AtByte(s, i, w, 0);
      RunsOverBlanks(s, i + 1, w[1..]);
    }
  }

  lemma {:induction false} SkipsOver(s: bytes, i: nat, w: bytes)
    requires At(s, i, w) && Blanks(w)
    requires i + |w| < |s| && !IsBlank(s[i + |w|])
    ensures SkipBlanks(s, i) == i + |w|
  {
    RunsOverBlanks(s, i, w);
  }

  lemma {:induction false} Stays(s: bytes, i: nat)
    requires i < |s| && !IsBlank(s[i])
    ensures SkipBlanks(s, i) == i
  {
  }

  lemma {:induction false} NotWord(s: bytes, i: nat)
    requires i < |s| && s[i] != LOWER_N && s[i] != LOWER_F && s[i] != LOWER_T
    ensures !At(s, i, NULL_TEXT) && !At(s, i, FALSE_TEXT) && !At(s, i, TRUE_TEXT)
  {
    if At(s, i, NULL_TEXT) { AtByte(s, i, NULL_TEXT, 0); }
    if At(s, i, FALSE_TEXT) { AtByte(s, i, FALSE_TEXT, 0); }
    if At(s, i, TRUE_TEXT) { AtByte(s, i, TRUE_TEXT, 0); }
  }

  lemma {:induction false} ParsesWord(s: bytes, i: nat, kind: Kind, depth: nat)
    requires Terminated(s) && i < |s| && ValidDoc(Word(kind)) && At(s, i, WordText(kind))
    ensures ParseValue(s, i, depth) == Ok(Value(Word(kind)), i + |WordText(kind)|)
  {
    AtByte(s, i, WordText(kind), 0);
    if At(s, i, NULL_TEXT) { AtByte(s, i, NULL_TEXT, 0); }
    if At(s, i, FALSE_TEXT) { AtByte(s, i, FALSE_TEXT, 0); }
  }

  lemma {:induction false} RunOfToken(s: bytes, i: nat, n: nat, t: bytes)
    requires At(s, i, t) && n <= |t| <= 63 && Stops(s, i + |t|)
    requires forall k | 0 <= k < |t| :: InNumber(t[k])
    ensures NumberRunFrom(s, i, n) == i + |t|
    decreases |t| - n
  {
    if n < |t| {
      AtByte(s, i, t, n);
      RunOfToken(s, i, n + 1, t);
    }
  }

  lemma {:induction false} AtSlice(s: bytes, i: nat, t: bytes)
    requires At(s, i, t)
    ensures s[i..i + |t|] == t
  {
  }

  lemma {:induction false} ParsesNumber(s: bytes, i: nat, t: bytes, depth: nat)
    requires Terminated(s) && NumberToken(t) && At(s, i, t) && Stops(s, i + |t|)
    ensures ParseValue(s, i, depth) == Ok(NumberItem(Strtod(t).value), i + |t|)
  {
    hide At, Strtod, ParseElements, ParseMembers, ParseString, SkipBlanks, Saturate;
    AtByte(s, i, t, 0);
    NotWord(s, i);
    assert s[i..i + |t|] == t by { AtSlice(s, i, t); }
    RunOfToken(s, i, 0, t);
  }

  lemma {:induction false} ParsesString(s: bytes, i: nat, ps: seq<Piece>, depth: nat)
    requires Terminated(s) && ValidPieces(ps) && At(s, i, Quoted(PiecesText(ps)))
    ensures ParseValue(s, i, depth) == if Paired(ps) then Ok(Value(Str(ps)), i + |PiecesText(ps)| + 2) else Fail
  {
    hide At, PiecesText, PiecesValue, Paired, ValidPieces, Quoted, ParseString, ParseElements, ParseMembers,
      ParseNumber, SkipBlanks, CString, Terminated;
    AtByte(s, i, Quoted(PiecesText(ps)), 0);
    NotWord(s, i);
    ParsesPieces(s, i, ps);
  }

  /** The first byte of a document is no blank; it tells the kinds of documents apart. */
  lemma {:induction false} FirstByte(d: Doc)
    requires ValidDoc(d)
    ensures Text(d) != [] && !IsBlank(Text(d)[0])
    ensures Text(d)[0] != RBRACKET && Text(d)[0] != RBRACE && Text(d)[0] != 0xEF
  {
  }

  /** Where the parts of an element lie. */
  lemma {:induction false} ElemAt(s: bytes, p: nat, e: Elem, tail: bytes)
    requires At(s, p, ElemText(e) + tail)
    ensures At(s, p, e.before)
    ensures At(s, p + |e.before|, KeyText(e.key))
    ensures At(s, p + |e.before| + |KeyText(e.key)|, Text(e.doc))
    ensures At(s, p + |e.before| + |KeyText(e.key)| + |Text(e.doc)|, e.after)
    ensures At(s, p + |ElemText(e)|, tail)
    ensures |ElemText(e)| == |e.before| + |KeyText(e.key)| + |Text(e.doc)| + |e.after|
  {
    hide At, KeyText, Text;
    var k, t, a := KeyText(e.key), Text(e.doc), e.after;
    AtSplit(s, p, e.before + (k + (t + a)), tail);
    AtSplit(s, p, e.before, k + (t + a));
    AtSplit(s, p + |e.before|, k, t + a);
    AtSplit(s, p + |e.before| + |k|, t, a);
  }

  /** A byte that ends a document and starts `after` or `tail`. */
  lemma {:induction false} StopsAfter(s: bytes, q: nat, after: bytes, tail: bytes)
    requires At(s, q, after) && At(s, q + |after|, tail) && Blanks(after)
    requires tail != [] && !InNumber(tail[0])
    ensures Stops(s, q)
  {
    AtByte(s, q + |after|, tail, 0);
    if after != [] {
      AtByte(s, q, after, 0);
    }
  }

  /** What follows an element: a comma and more elements, or the closing bracket. */
  function Rest(elems: seq<Elem>, close: byte): (r: bytes)
    requires elems != []
    ensures r != []
    ensures r[0] == if |elems| == 1 then close else COMMA
  {
    if |elems| == 1 then [close] else [COMMA] + ElemsText(elems[1..], close)
  }

  lemma {:induction false} RestAt(s: bytes, m: nat, elems: seq<Elem>, close: byte)
    requires elems != [] && At(s, m, Rest(elems, close))
    ensures m < |s| && s[m] == if |elems| == 1 then close else COMMA
    ensures |elems| > 1 ==> m + 1 < |s| && At(s, m + 1, ElemsText(elems[1..], close))
  {
    AtByte(s, m, Rest(elems, close), 0);
    if |elems| > 1 {
      AtSplit(s, m, [COMMA], ElemsText(elems[1..], close));
    }
  }

  /** The parser takes every document it can read for its value, wherever it stands and whatever follows it. */
  lemma {:induction false} ParsesDoc(s: bytes, i: nat, d: Doc, depth: nat)
    requires Terminated(s) && ValidDoc(d) && Readable(d) && At(s, i, Text(d))
    requires depth + Depth(d) <= NESTING_LIMIT
    requires d.Num? ==> Stops(s, i + |Text(d)|)
    ensures i < |s| && ParseValue(s, i, depth) == Ok(Value(d), i + |Text(d)|)
    decreases d, 1
  {
    hide At, ElemsText, ElemsValue, ElemsDepth, ParseValue, Blanks, ValidElem, ReadableElem, Terminated, PiecesText,
      PiecesValue, NumberToken, NumberLike, Paired, ValidPieces, Stops, Strtod, Saturate;
    FirstByte(d);
    AtByte(s, i, Text(d), 0);
    match d {
      case Word(kind) => ParsesWord(s, i, kind, depth);
      case Num(token) => ParsesNumber(s, i, token, depth);
      case Str(ps) => ParsesString(s, i, ps, depth);
      case Arr(open, elems) => ParsesArray(s, i, open, elems, depth);
      case Obj(open, elems) => ParsesObject(s, i, open, elems, depth);
    }
  }

  /** The bracket cases of `parse_value`. */
  lemma {:induction false} BracketStep(s: bytes, i: nat, depth: nat)
    requires Terminated(s) && i < |s| && (s[i] == LBRACKET || s[i] == LBRACE)
    ensures i + 1 < |s|
    ensures depth >= NESTING_LIMIT ==> ParseValue(s, i, depth) == Fail
    ensures s[i] == LBRACKET && depth < NESTING_LIMIT ==>
              var p := SkipBlanks(s, i + 1);
              ParseValue(s, i, depth) ==
              if s[p] == RBRACKET then Ok(ArrayItem([]), p + 1)
              else match ParseElements(s, p, depth + 1)
                case Fail => Fail
                case Ok(kids, next) => Ok(ArrayItem(kids), next)
    ensures s[i] == LBRACE && depth < NESTING_LIMIT ==>
              var p := SkipBlanks(s, i + 1);
              ParseValue(s, i, depth) ==
              if s[p] == RBRACE then Ok(ObjectItem([]), p + 1)
              else match ParseMembers(s, p, depth + 1)
                case Fail => Fail
                case Ok(kids, next) => Ok(ObjectItem(kids), next)
  {
    hide SkipBlanks, ParseElements, ParseMembers, ParseNumber, ParseString, At;
    NotWord(s, i);
  }

  lemma {:induction false} ParsesArray(s: bytes, i: nat, open: bytes, elems: seq<Elem>, depth: nat)
    requires Terminated(s) && ValidDoc(Arr(open, elems)) && ReadableAll(elems) && At(s, i, Text(Arr(open, elems)))
    requires depth + 1 + ElemsDepth(elems) <= NESTING_LIMIT
    ensures i < |s| && ParseValue(s, i, depth) == Ok(Value(Arr(open, elems)), i + |Text(Arr(open, elems))|)
    decreases elems, 3
  {
    hide At, ElemsText, ElemsValue, ElemsDepth, ParseValue, ParseElements, ParseMembers, SkipBlanks, Blanks, ValidElem,
      ReadableElem, Terminated;
    var body := if elems == [] then open + [RBRACKET] else ElemsText(elems, RBRACKET);
    NoElems(open);
    AtSplit(s, i, [LBRACKET], body);
    AtByte(s, i, [LBRACKET], 0);
    if elems == [] {
      EmptyList(s, i + 1, open, RBRACKET);
      BracketStep(s, i, depth);
    } else {
      ElementsStart(s, i + 1, elems, false, RBRACKET);
      BracketStep(s, i, depth);
      ParsesElements(s, i + 1, SkipBlanks(s, i + 1), elems, depth + 1);
    }
  }

  lemma {:induction false} ParsesObject(s: bytes, i: nat, open: bytes, elems: seq<Elem>, depth: nat)
    requires Terminated(s) && ValidDoc(Obj(open, elems)) && ReadableAll(elems) && At(s, i, Text(Obj(open, elems)))
    requires depth + 1 + ElemsDepth(elems) <= NESTING_LIMIT
    ensures i < |s| && ParseValue(s, i, depth) == Ok(Value(Obj(open, elems)), i + |Text(Obj(open, elems))|)
    decreases elems, 3
  {
    hide At, ElemsText, ElemsValue, ElemsDepth, ParseValue, ParseElements, ParseMembers, SkipBlanks, Blanks, ValidElem,
      ReadableElem, Terminated;
    var body := if elems == [] then open + [RBRACE] else ElemsText(elems, RBRACE);
    NoElems(open);
    AtSplit(s, i, [LBRACE], body);
    AtByte(s, i, [LBRACE], 0);
    if elems == [] {
      EmptyList(s, i + 1, open, RBRACE);
      BracketStep(s, i, depth);
    } else {
      ElementsStart(s, i + 1, elems, true, RBRACE);
      BracketStep(s, i, depth);
      ParsesMembers(s, i + 1, SkipBlanks(s, i + 1), elems, depth + 1);
    }
  }

  lemma {:induction false} NoElems(open: bytes)
    requires Blanks(open)
    ensures Value(Arr(open, [])) == ArrayItem([])
    ensures Value(Obj(open, [])) == ObjectItem([])
  {
  }

  lemma {:induction false} EmptyList(s: bytes, i: nat, open: bytes, close: byte)
    requires Blanks(open) && !IsBlank(close) && At(s, i, open + [close])
    ensures i < |s| && SkipBlanks(s, i) == i + |open| && s[i + |open|] == close
  {
    AtSplit(s, i, open, [close]);
    AtByte(s, i + |open|, [close], 0);
    SkipsOver(s, i, open);
  }

  /** After the opening bracket the parser stands on the first byte of the first element. */
  lemma {:induction false} ElementsStart(s: bytes, p: nat, elems: seq<Elem>, named: bool, close: byte)
    requires elems != [] && ValidElem(elems[0], named) && At(s, p, ElemsText(elems, close))
    ensures p < |s| && SkipBlanks(s, p) == p + |elems[0].before|
    ensures var b := s[SkipBlanks(s, p)]; b != RBRACKET && b != RBRACE && (named ==> b == QUOTE)
    ensures SkipBlanks(s, SkipBlanks(s, p)) == SkipBlanks(s, p)
  {
    hide *;
    var e := elems[0];
    var q := p + |e.before|;
    FirstText(elems, close);
    StartOf(e, named);
    ElemAt(s, p, e, Rest(elems, close));
    FirstByte(e.doc);
    if named {
      AtByte(s, q, KeyText(e.key), 0);
    } else {
      AtByte(s, q, Text(e.doc), 0);
    }
    assert !named ==> KeyText(e.key) == [];
    NoBlank(s[q]);
    SkipsOver(s, p, e.before);
    Stays(s, q);
  }

  lemma {:induction false} NoBlank(b: byte)
    ensures b == QUOTE ==> !IsBlank(b) && b != RBRACKET && b != RBRACE
  {
  }

  lemma {:induction false} FirstText(elems: seq<Elem>, close: byte)
    requires elems != []
    ensures ElemsText(elems, close) == ElemText(elems[0]) + Rest(elems, close)
  {
    hide ElemText;
  }

  lemma {:induction false} StartOf(e: Elem, named: bool)
    requires ValidElem(e, named)
    ensures ValidDoc(e.doc) && Blanks(e.before)
    ensures if named then KeyText(e.key) != [] && KeyText(e.key)[0] == QUOTE else KeyText(e.key) == []
  {
    hide ValidDoc, Blanks, PiecesText;
  }

  /** One element and what follows it. */
  lemma {:induction false} ElementStep(s: bytes, q: nat, depth: nat, j: Json, next: nat)
    requires Terminated(s) && q < |s| && ParseValue(s, SkipBlanks(s, q), depth) == Ok(j, next)
    ensures var m := SkipBlanks(s, next);
            && (s[m] == RBRACKET ==> ParseElements(s, q, depth) == Ok([j], m + 1))
            && (s[m] == COMMA && m + 1 < |s| ==>
                  forall rest, end :: ParseElements(s, m + 1, depth) == Ok(rest, end) ==>
                    ParseElements(s, q, depth) == Ok([j] + rest, end))
            && (s[m] == COMMA && m + 1 < |s| && ParseElements(s, m + 1, depth) == Fail ==>
                  ParseElements(s, q, depth) == Fail)
  {
    hide ParseValue, SkipBlanks;
  }

  lemma {:induction false} MemberStep(s: bytes, q: nat, depth: nat, j: Json, next: nat)
    requires Terminated(s) && q < |s| && ParseMember(s, q, depth) == Ok(j, next)
    ensures var m := SkipBlanks(s, next);
            && (s[m] == RBRACE ==> ParseMembers(s, q, depth) == Ok([j], m + 1))
            && (s[m] == COMMA && m + 1 < |s| ==>
                  forall rest, end :: ParseMembers(s, m + 1, depth) == Ok(rest, end) ==>
                    ParseMembers(s, q, depth) == Ok([j] + rest, end))
            && (s[m] == COMMA && m + 1 < |s| && ParseMembers(s, m + 1, depth) == Fail ==>
                  ParseMembers(s, q, depth) == Fail)
  {
    hide ParseMember, SkipBlanks;
  }

  /** A list of elements is its first one and the rest. */
  lemma {:induction false} Unfold(elems: seq<Elem>, named: bool, close: byte)
    requires elems != [] && forall e | e in elems :: ValidElem(e, named)
    ensures ElemsText(elems, close) == ElemText(elems[0]) + Rest(elems, close)
    ensures |elems| == 1 ==> ElemsValue(elems, named) == [ElemValue(elems[0], named)]
    ensures ElemsValue(elems, named) == [ElemValue(elems[0], named)] + ElemsValue(elems[1..], named)
    ensures ElemsDepth(elems) >= Depth(elems[0].doc) && ElemsDepth(elems) >= ElemsDepth(elems[1..])
    ensures |elems| == 1 ==> |Rest(elems, close)| == 1
    ensures |elems| > 1 ==> |Rest(elems, close)| == 1 + |ElemsText(elems[1..], close)|
    ensures !named ==> KeyText(elems[0].key) == [] && ElemValue(elems[0], named) == Value(elems[0].doc)
  {
    assert ValidElem(elems[0], named);
    if |elems| == 1 {
      assert elems[1..] == [];
    }
  }

  /** The value of the first element is read, and the parser stands before what follows it. */
  lemma {:induction false} ParsesFirst(s: bytes, p: nat, elems: seq<Elem>, named: bool, close: byte, depth: nat)
    requires Terminated(s) && elems != [] && (forall e | e in elems :: ValidElem(e, named))
    requires close == (if named then RBRACE else RBRACKET)
    requires At(s, p, ElemsText(elems, close)) && Readable(elems[0].doc) && depth + Depth(elems[0].doc) <= NESTING_LIMIT
    ensures var e := elems[0];
            var v := p + |e.before| + |KeyText(e.key)|;
            var w := v + |Text(e.doc)|;
            var m := p + |ElemText(e)|;
            && w < |s| && ValidDoc(e.doc) && ParseValue(s, v, depth) == Ok(Value(e.doc), w)
            && SkipBlanks(s, w) == m && At(s, p + |e.before|, KeyText(e.key)) && At(s, v, Text(e.doc))
            && At(s, m, Rest(elems, close))
    decreases elems, 1
  {
    hide At, ElemText, ElemsText, Text, KeyText, ParseValue, SkipBlanks, Depth, ElemsDepth, ElemValue, Value, Blanks,
      ValidDoc, ElemsValue;
    var e, rest := elems[0], Rest(elems, close);
    assert ValidElem(e, named);
    Unfold(elems, named, close);
    ElemAt(s, p, e, rest);
    var v := p + |e.before| + |KeyText(e.key)|;
    var w := v + |Text(e.doc)|;
    StopsAfter(s, w, e.after, rest);
    ParsesDoc(s, v, e.doc, depth);
    RestAt(s, w + |e.after|, elems, close);
    SkipsOver(s, w, e.after);
  }

  lemma {:induction false} ReadableParts(elems: seq<Elem>)
    requires elems != []
    ensures ReadableAll(elems) <==> ReadableElem(elems[0]) && ReadableAll(elems[1..])
    ensures ReadableElem(elems[0]) <==> Readable(elems[0].doc) && (elems[0].key.Key? ==> Paired(elems[0].key.ps))
    ensures ReadableAll([])
  {
    hide Readable, Paired;
    assert elems == [elems[0]] + elems[1..];
  }

  lemma {:induction false} ElemParts(e: Elem, named: bool)
    requires ValidElem(e, named)
    ensures ValidDoc(e.doc)
    ensures named ==> e.key.Key? && ValidPieces(e.key.ps) && Blanks(e.key.beforeColon) && Blanks(e.key.afterColon)
  {
  }

  /** Elements read from `q`, which is `p` or the end of the blanks at `p`. */
  lemma {:induction false} ParsesElements(s: bytes, p: nat, q: nat, elems: seq<Elem>, depth: nat)
    requires Terminated(s) && elems != [] && (forall e | e in elems :: ValidElem(e, false)) && ReadableAll(elems)
    requires At(s, p, ElemsText(elems, RBRACKET)) && p < |s| && (q == p || q == SkipBlanks(s, p))
    requires depth + ElemsDepth(elems) <= NESTING_LIMIT
    ensures ParseElements(s, q, depth) == Ok(ElemsValue(elems, false), p + |ElemsText(elems, RBRACKET)|)
    decreases elems, 2
  {
    hide *;
    var e := elems[0];
    ReadableParts(elems);
    Unfold(elems, false, RBRACKET);
    ParsesFirst(s, p, elems, false, RBRACKET, depth);
    ElementsStart(s, p, elems, false, RBRACKET);
    var m := p + |ElemText(e)|;
    RestAt(s, m, elems, RBRACKET);
    ElementStep(s, q, depth, Value(e.doc), p + |e.before| + |Text(e.doc)|);
    if |elems| > 1 {
      ParsesElements(s, m + 1, m + 1, elems[1..], depth);
    }
  }

  /** Members, likewise. */
  lemma {:induction false} ParsesMembers(s: bytes, p: nat, q: nat, elems: seq<Elem>, depth: nat)
    requires Terminated(s) && elems != [] && (forall e | e in elems :: ValidElem(e, true)) && ReadableAll(elems)
    requires At(s, p, ElemsText(elems, RBRACE)) && p < |s| && (q == p || q == SkipBlanks(s, p))
    requires depth + ElemsDepth(elems) <= NESTING_LIMIT
    ensures ParseMembers(s, q, depth) == Ok(ElemsValue(elems, true), p + |ElemsText(elems, RBRACE)|)
    decreases elems, 2
  {
    hide *;
    var e := elems[0];
    assert ValidElem(e, true);
    ElemParts(e, true);
    ReadableParts(elems);
    Unfold(elems, true, RBRACE);
    ParsesFirst(s, p, elems, true, RBRACE, depth);
    ElementsStart(s, p, elems, true, RBRACE);
    var m := p + |ElemText(e)|;
    RestAt(s, m, elems, RBRACE);
    ParsesMember(s, q, p + |e.before|, e, depth);
    MemberStep(s, q, depth, ElemValue(e, true), p + |e.before| + |KeyText(e.key)| + |Text(e.doc)|);
    if |elems| > 1 {
      ParsesMembers(s, m + 1, m + 1, elems[1..], depth);
    }
  }

  /** A name, a colon and a value already known to be read. */
  lemma {:induction false} ParsesMember(s: bytes, q: nat, k: nat, e: Elem, depth: nat)
    requires Terminated(s) && ValidElem(e, true) && Paired(e.key.ps)
    requires q < |s| && SkipBlanks(s, q) == k
    requires At(s, k, KeyText(e.key)) && At(s, k + |KeyText(e.key)|, Text(e.doc))
    requires k + |KeyText(e.key)| < |s|
    requires ParseValue(s, k + |KeyText(e.key)|, depth) == Ok(Value(e.doc), k + |KeyText(e.key)| + |Text(e.doc)|)
    ensures ParseMember(s, q, depth) == Ok(ElemValue(e, true), k + |KeyText(e.key)| + |Text(e.doc)|)
  {
    hide At, KeyText, Text, ParseValue, SkipBlanks, ParseString, PiecesText, PiecesValue, ValidDoc, Value;
    ParsesName(s, k, e.key, e.doc);
  }

  /** The name of a member and its colon, up to the first byte of the value. */
  lemma {:induction false} ParsesName(s: bytes, q: nat, k: Key, d: Doc)
    requires k.Key? && ValidPieces(k.ps) && Blanks(k.beforeColon) && Blanks(k.afterColon) && ValidDoc(d)
    requires At(s, q, KeyText(k)) && At(s, q + |KeyText(k)|, Text(d))
    ensures var n := q + |PiecesText(k.ps)| + 2; var c := n + |k.beforeColon|;
            && q < |s| && ParseString(s, q) == (if Paired(k.ps) then Ok(CString(PiecesValue(k.ps)), n) else Fail)
            && n < |s| && SkipBlanks(s, n) == c && s[c] == COLON
            && c + 1 < |s| && SkipBlanks(s, c + 1) == q + |KeyText(k)|
  {
    hide At, PiecesText, PiecesValue, CString, ParseString, SkipBlanks, Blanks, ValidPieces, Text, ValidDoc, Quoted;
    var t, b, a := Quoted(PiecesText(k.ps)), k.beforeColon, k.afterColon;
    FirstByte(d);
    AtByte(s, q + |KeyText(k)|, Text(d), 0);
    AtSplit(s, q, t, b + ([COLON] + a));
    AtSplit(s, q + |t|, b, [COLON] + a);
    AtSplit(s, q + |t| + |b|, [COLON], a);
    AtByte(s, q + |t| + |b|, [COLON], 0);
    ParsesPieces(s, q, k.ps);
    SkipsOver(s, q + |t|, b);
    SkipsOver(s, q + |t| + |b| + 1, a);
  }

  /** The closing quote of a name is not the final NUL, nor is the colon. */
  lemma {:induction false} NameEnds(s: bytes, k: nat)
    requires Terminated(s) && k < |s| && ParseString(s, k).Ok?
    ensures var next := ParseString(s, k).next;
            k < next < |s| && (s[SkipBlanks(s, next)] == COLON ==> SkipBlanks(s, next) + 1 < |s|)
  {
    hide Decode, StringEnd, CString;
  }

  // ----- whole texts -----

  /** The text has a byte order mark or not; either way the parser starts after it. */
  lemma {:induction false} StartsAfterBom(s: bytes, bom: bool, w: bytes, d: Doc)
    requires Terminated(s) && Blanks(w) && ValidDoc(d)
    requires At(s, 0, (if bom then BOM else []) + (w + Text(d)))
    ensures SkipBom(s) == (if bom then 3 else 0)
    ensures At(s, SkipBom(s), w) && At(s, SkipBom(s) + |w|, Text(d))
  {
    hide At, Text;
    var b: bytes := if bom then BOM else [];
    FirstByte(d);
    AtSplit(s, 0, b, w + Text(d));
    AtSplit(s, |b|, w, Text(d));
    AtByte(s, |b| + |w|, Text(d), 0);
    if bom {
      AtSlice(s, 0, BOM);
      assert |s| > 4;
    } else if w != [] {
      AtByte(s, 0, w, 0);
    }
  }

  /** The NUL-terminated text of a document: mark, blanks, document, blanks. */
  function Source(bom: bool, before: bytes, d: Doc, after: bytes): bytes {
    (if bom then BOM else []) + (before + Text(d)) + after
  }

  lemma {:induction false} SourceAt(bom: bool, before: bytes, d: Doc, after: bytes)
    ensures var s := Source(bom, before, d, after) + [NUL];
            && At(s, 0, (if bom then BOM else []) + (before + Text(d)))
            && At(s, |Source(bom, before, d, after)| - |after|, after)
            && Terminated(s)
  {
    hide Text;
    var b := (if bom then BOM else []) + (before + Text(d));
    assert Source(bom, before, d, after) + [NUL] == b + (after + [NUL]);
  }

  /** What follows the document: blanks and the final NUL. */
  lemma {:induction false} EndsAfter(s: bytes, q: nat, after: bytes)
    requires Terminated(s) && At(s, q, after) && Blanks(after) && q + |after| == |s| - 1
    ensures Stops(s, q) && SkipBlanks(s, q) == |s| - 1
  {
    if after != [] {
      AtByte(s, q, after, 0);
    }
    RunsOverBlanks(s, q, after);
  }

  /**
   Main result for the parser: `cJSON_Parse` accepts every document nested at most 1000 deep
   whose surrogates are paired and whose numbers fit its buffer, with any blanks anywhere and
   with or without a byte order mark, and returns exactly the tree the text denotes.
   */
  lemma {:induction false} ParsesSource(bom: bool, before: bytes, d: Doc, after: bytes, requireEnd: bool)
    requires ValidDoc(d) && Readable(d) && Blanks(before) && Blanks(after) && Depth(d) <= 1000
    ensures var text := Source(bom, before, d, after);
            Parse(text, requireEnd) == Ok(Value(d), if requireEnd then |text| else |text| - |after|)
  {
    hide At, Text, Value, ParseValue, BlankRun, SkipBlanks, SkipBom, ValidDoc, Readable, Depth, Source, Blanks,
      Terminated, Stops;
    var s := Source(bom, before, d, after) + [NUL];
    var i := SourceStart(bom, before, d, after);
    EndsAfter(s, i + |Text(d)|, after);
    ParsesDoc(s, i, d, 0);
  }

  /** Where the document lies in the buffer. */
  lemma {:induction false} SourceStart(bom: bool, before: bytes, d: Doc, after: bytes) returns (i: nat)
    requires ValidDoc(d) && Blanks(before)
    ensures var s := Source(bom, before, d, after) + [NUL];
            && Terminated(s) && SkipBom(s) < |s| && SkipBlanks(s, SkipBom(s)) == i
            && At(s, i, Text(d)) && At(s, i + |Text(d)|, after) && i + |Text(d)| + |after| == |s| - 1
  {
    hide At, Text, BlankRun, SkipBlanks, SkipBom, ValidDoc, Source;
    var s := Source(bom, before, d, after) + [NUL];
    SourceAt(bom, before, d, after);
    StartsAfterBom(s, bom, before, d);
    i := SkipBom(s) + |before|;
    SourceLength(bom, before, d, after);
    FirstByte(d);
    AtByte(s, i, Text(d), 0);
    SkipsOver(s, SkipBom(s), before);
  }

  lemma {:induction false} SourceLength(bom: bool, before: bytes, d: Doc, after: bytes)
    ensures |Source(bom, before, d, after)| == (if bom then 3 else 0) + |before| + |Text(d)| + |after|
  {
    hide Text;
  }
}
