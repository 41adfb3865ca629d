/** The grammar of RFC 8259 itself, and which of its texts the parser accepts. */
module Rfc8259 {
  import opened Bytes
  import opened Doubles
  import opened Numbers
  import opened NumberSyntax
  import opened JsonStrings
  import opened Json
  import opened JsonGrammar
  import opened JsonDocument
  import opened Reparse

  /** Section 2: space, tab, line feed and carriage return. */
  predicate Whitespace(w: bytes) {
    forall k | 0 <= k < |w| :: w[k] == SPACE || w[k] == TAB || w[k] == LF || w[k] == CR
  }

  /** Section 6. */
  ghost predicate IsNumber(t: bytes) {
    exists n: JsonNumber :: ValidNumber(n) && Syntax(n) == t
  }

  /** Section 7: control characters are escaped. */
  predicate Characters(ps: seq<Piece>) {
    ValidPieces(ps) && forall k | 0 <= k < |ps| :: ps[k].Lit? ==> ps[k].b >= 0x20
  }

  ghost predicate WellFormed(d: Doc) {
    match d
    case Word(kind) => kind == Null || kind == False || kind == True
    case Num(token) => IsNumber(token)
    case Str(ps) => Characters(ps)
    case Arr(open, elems) => Whitespace(open) && forall e | e in elems :: WellFormedElem(e, false)
    case Obj(open, elems) => Whitespace(open) && forall e | e in elems :: WellFormedElem(e, true)
  }

  ghost predicate WellFormedElem(e: Elem, named: bool) {
    && Whitespace(e.before) && Whitespace(e.after) && WellFormed(e.doc)
    && match e.key
       case NoKey => !named
       case Key(ps, b, a) => named && Characters(ps) && Whitespace(b) && Whitespace(a)
  }

  // ----- the characters of the grammar -----

  /** Section 3: the three names, and the items they denote. */
  lemma {:induction false} Names()
    ensures Text(Word(Null)) == Ascii("null") && Value(Word(Null)) == Json(Null, 0.0, 0, None, None, [])
    ensures Text(Word(False)) == Ascii("false") && Value(Word(False)) == Json(False, 0.0, 0, None, None, [])
    ensures Text(Word(True)) == Ascii("true") && Value(Word(True)) == Json(True, 0.0, 1, None, None, [])
  {
  }

  /** Sections 4 and 5: brackets, braces, colons, commas and quotation marks. */
  lemma {:induction false} Structure(open: bytes, elems: seq<Elem>, ps: seq<Piece>)
    ensures Text(Arr(open, [])) == Ascii("[") + open + Ascii("]")
    ensures Text(Obj(open, [])) == Ascii("{") + open + Ascii("}")
    ensures elems != [] ==> Text(Arr(open, elems)) == Ascii("[") + ElemsText(elems, ']' as int)
    ensures elems != [] ==> Text(Obj(open, elems)) == Ascii("{") + ElemsText(elems, '}' as int)
    ensures KeyText(Key(ps, open, open)) == Ascii("\"") + PiecesText(ps) + Ascii("\"") + open + Ascii(":") + open
    ensures Text(Str(ps)) == Ascii("\"") + PiecesText(ps) + Ascii("\"")
  {
    hide PiecesText, ElemsText;
  }

  lemma {:induction false} Separators(e: Elem, elems: seq<Elem>, close: byte)
    ensures ElemsText([e], close) == ElemText(e) + [close]
    ensures elems != [] ==> ElemsText([e] + elems, close) == ElemText(e) + Ascii(",") + ElemsText(elems, close)
  {
    hide ElemText;
    if elems != [] {
      assert ([e] + elems)[1..] == elems;
    }
  }

  /** The byte order mark (section 8.1), blanks, and the text. */
  lemma {:induction false} SourceIs(bom: bool, before: bytes, d: Doc, after: bytes)
    ensures Source(bom, before, d, after) == (if bom then [0xEF, 0xBB, 0xBF] else []) + before + Text(d) + after
  {
    hide Text;
  }

  /** What the other documents denote. */
  lemma {:induction false} Values(open: bytes, elems: seq<Elem>, ps: seq<Piece>, token: bytes)
    requires ValidDoc(Arr(open, elems)) && ValidPieces(ps)
    ensures Value(Arr(open, elems)) == Json(Array, 0.0, 0, None, None, ElemsValue(elems, false))
    ensures Value(Str(ps)) == Json(String, 0.0, 0, Some(CString(PiecesValue(ps))), None, [])
    ensures NumberLike(token) ==>
              var v := Value(Num(token));
              v == Json(Number, v.num, v.valueint, None, None, []) && AsInt(v.valueint, v.num)
  {
    hide CString, PiecesValue, ElemsValue, AsInt, Strtod;
    ValueInt(Strtod(token).value, Saturate(Strtod(token).value));
  }

  lemma {:induction false} Members(open: bytes, elems: seq<Elem>, e: Elem)
    requires ValidDoc(Obj(open, elems)) && ValidElem(e, true)
    ensures Value(Obj(open, elems)) == Json(Object, 0.0, 0, None, None, ElemsValue(elems, true))
    ensures ElemValue(e, true) == Value(e.doc).(key := Some(CString(PiecesValue(e.key.ps))))
  {
    hide CString, PiecesValue, ElemsValue;
  }

  /** Section 7: the escapes and what they stand for, in ASCII. */
  lemma {:induction false} Escapes(c: char)
    requires c < 128 as char
    ensures PieceText(Short(c as int)) == Ascii("\\") + [c as int]
    ensures IsShort(c as int) <==> c in "\"\\/bfnrt"
    ensures ShortValue('b' as int) == 0x08 && ShortValue('t' as int) == 0x09 && ShortValue('n' as int) == 0x0A
    ensures ShortValue('f' as int) == 0x0C && ShortValue('r' as int) == 0x0D
    ensures c in "\"\\/" ==> ShortValue(c as int) == c as int
  {
  }

  lemma {:induction false} Unescaped(b: byte, h: bytes, l: bytes)
    ensures ValidPiece(Lit(b)) <==> b != '"' as int && b != '\\' as int && b != 0
    ensures PieceText(Lit(b)) == [b] && PieceText(Bmp(h)) == Ascii("\\u") + h == PieceText(Lone(h))
    ensures PieceText(Pair(h, l)) == Ascii("\\u") + h + Ascii("\\u") + l
  {
  }

  /** Section 2: whitespace. */
  lemma {:induction false} WhitespaceIs(w: bytes)
    ensures Whitespace(w) <==> forall k | 0 <= k < |w| :: w[k] in {0x20, 0x09, 0x0A, 0x0D}
  {
  }

  /** Section 6: the signs, the point and the letter of a number. */
  lemma {:induction false} NumberShape(n: JsonNumber)
    ensures Syntax(n) ==
            Ascii(if n.minus then "-" else "") + n.whole +
            (if n.frac.Some? then Ascii(".") + n.frac.value else []) +
            (if n.exp.None? then []
             else
               var x := n.exp.value;
               [x.e] + (if x.sign.Some? then [x.sign.value] else []) + x.digits)
    ensures ValidNumber(n) && n.exp.Some? ==>
              && (n.exp.value.e == 'e' as int || n.exp.value.e == 'E' as int)
              && (n.exp.value.sign.Some? ==>
                    n.exp.value.sign.value == '+' as int || n.exp.value.sign.value == '-' as int)
              && (ExpValue(n.exp) < 0 ==> n.exp.value.sign == Some('-' as int))
  {
  }

  /** Every escaped surrogate in the document is in a pair (section 8.2). */
  predicate AllPaired(d: Doc) {
    match d
    case Str(ps) => Paired(ps)
    case Arr(open, elems) => forall e | e in elems :: AllPaired(e.doc)
    case Obj(open, elems) => forall e | e in elems :: AllPaired(e.doc) && (e.key.Key? ==> Paired(e.key.ps))
    case _ => true
  }

  /** Every number in the document fits the 64 byte buffer of `parse_number` with its NUL. */
  predicate NumbersFit(d: Doc) {
    match d
    case Num(token) => |token| <= 63
    case Arr(open, elems) => forall e | e in elems :: NumbersFit(e.doc)
    case Obj(open, elems) => forall e | e in elems :: NumbersFit(e.doc)
    case _ => true
  }

  /** The grammar is part of what the parser is described for, and these are its only other limits. */
  lemma {:induction false} ReadableIff(d: Doc)
    requires WellFormed(d)
    ensures ValidDoc(d) && (Readable(d) <==> AllPaired(d) && NumbersFit(d))
    decreases d
  {
    hide Whitespace, Characters, Paired, ValidPieces, Blanks, NumberLike, NumberToken, Syntax, ValidNumber;
    match d {
      case Word(kind) =>
      case Num(token) => NumberReadable(token);
      case Str(ps) => CharactersAre(ps);
      case Arr(open, elems) =>
        WhitespaceIsBlank(open);
        forall e | e in elems
          ensures ValidElem(e, false) && (ReadableElem(e) <==> AllPaired(e.doc) && NumbersFit(e.doc))
        {
          ReadableIffElem(e, false);
        }
      case Obj(open, elems) =>
        WhitespaceIsBlank(open);
        forall e | e in elems
          ensures ValidElem(e, true)
          ensures ReadableElem(e) <==> AllPaired(e.doc) && NumbersFit(e.doc) && (e.key.Key? ==> Paired(e.key.ps))
        {
          ReadableIffElem(e, true);
        }
    }
  }

  lemma {:induction false} ReadableIffElem(e: Elem, named: bool)
    requires WellFormedElem(e, named)
    ensures ValidElem(e, named)
    ensures ReadableElem(e) <==> AllPaired(e.doc) && NumbersFit(e.doc) && (e.key.Key? ==> Paired(e.key.ps))
    decreases e
  {
    hide Whitespace, Characters, Paired, ValidPieces, Blanks, WellFormed, ValidDoc, Readable, AllPaired, NumbersFit;
    ReadableIff(e.doc);
    WhitespaceIsBlank(e.before);
    WhitespaceIsBlank(e.after);
    if named {
      CharactersAre(e.key.ps);
      WhitespaceIsBlank(e.key.beforeColon);
      WhitespaceIsBlank(e.key.afterColon);
    }
  }

  lemma {:induction false} WhitespaceIsBlank(w: bytes)
    requires Whitespace(w)
    ensures Blanks(w)
  {
  }

  lemma {:induction false} CharactersAre(ps: seq<Piece>)
    requires Characters(ps)
    ensures ValidPieces(ps)
  {
  }

  lemma {:induction false} NumberReadable(t: bytes)
    requires IsNumber(t)
    ensures NumberLike(t) && (NumberToken(t) <==> |t| <= 63)
  {
    hide Syntax, ValidNumber, NumberToken;
    var n: JsonNumber :| ValidNumber(n) && Syntax(n) == t;
    ValidIsLoose(n);
    SyntaxChars(n);
    TokenIffFits(n);
  }

  /** Section 2: whitespace around one value. */
  ghost predicate JsonText(before: bytes, d: Doc, after: bytes) {
    Whitespace(before) && WellFormed(d) && Whitespace(after)
  }

  /**
   Main result for the grammar: a JSON text, with or without a byte order mark, is accepted as
   a whole if and only if it is nested at most 1000 deep, every surrogate escape is in a pair
   and every number has at most 63 bytes; the tree is then the one it denotes.
   */
  lemma {:induction false} AcceptedIff(bom: bool, before: bytes, d: Doc, after: bytes, requireEnd: bool)
    requires JsonText(before, d, after) && (requireEnd || !d.Num?)
    ensures ValidDoc(d)
    ensures var text := Source(bom, before, d, after);
            if Depth(d) <= 1000 && AllPaired(d) && NumbersFit(d)
            then Parse(text, requireEnd) == Ok(Value(d), if requireEnd then |text| else |text| - |after|)
            else Parse(text, requireEnd) == Fail
  {
    hide Parse, Source, Depth, Value, ValidDoc, Readable, AllPaired, NumbersFit, WellFormed, Whitespace, Blanks;
    ReadableIff(d);
    WhitespaceIsBlank(before);
    WhitespaceIsBlank(after);
    AcceptedIffReadable(bom, before, d, after, requireEnd);
    if Readable(d) && Depth(d) <= NESTING_LIMIT {
      ParsesSource(bom, before, d, after, requireEnd);
    }
  }

  /** What a number of the grammar denotes: the double nearest to its exact value. */
  lemma {:induction false} NumberValue(n: JsonNumber)
    requires ValidNumber(n)
    ensures WellFormed(Num(Syntax(n))) && ValidDoc(Num(Syntax(n)))
    ensures Value(Num(Syntax(n))) == NumberItem(Round(Exact(n)))
  {
    hide Syntax, ValidNumber, Strtod, Exact, Round, Saturate;
    ValidIsLoose(n);
    SyntaxChars(n);
    TokenIffFits(n);
  }

  /** A longer number on its own, when nothing is demanded of what follows, is cut to its first 63 bytes. */
  lemma {:induction false} LongNumberIsCut(bom: bool, before: bytes, n: JsonNumber, after: bytes)
    requires ValidNumber(n) && |Syntax(n)| > 63 && Whitespace(before) && Whitespace(after)
    ensures var scan := Strtod(Syntax(n)[..63]);
            && 0 < scan.used <= 63
            && Parse(Source(bom, before, Num(Syntax(n)), after), false) ==
               Ok(NumberItem(scan.value), (if bom then 3 else 0) + |before| + scan.used)
  {
    hide Parse, Source, Strtod, Whitespace, Blanks, Saturate, ValidNumber, Syntax;
    ValidIsLoose(n);
    SyntaxChars(n);
    WhitespaceIsBlank(before);
    WhitespaceIsBlank(after);
    CutScans(n);
    LoneNumberIsCut(bom, before, Syntax(n), after);
  }

  /** The part that is left begins with a digit, after the sign if there is one. */
  lemma {:induction false} CutScans(n: JsonNumber)
    requires ValidNumber(n) && |Syntax(n)| > 63
    ensures Strtod(Syntax(n)[..63]).used > 0
  {
    var sign: bytes := if n.minus then [MINUS] else [];
    PartAt(sign, n.whole, FracText(n.frac) + ExpText(n.exp));
    BeginsWithDigit(Syntax(n)[..63], |sign|);
  }

  lemma {:induction false} BeginsWithDigit(s: bytes, i: nat)
    requires i < |s| && IsDigit(s[i]) && (if i == 0 then !IsSign(s, 0) else i == 1 && IsSign(s, 0))
    ensures Strtod(s).used > 0
  {
    hide DigitsValue, Round, Scale, ExponentValue;
    assert DigitRun(s, i) > i;
  }

  /** The parser takes more for numbers than the grammar has: 01, 1. and -.5. */
  lemma {:induction false} MoreThanTheGrammar()
    ensures NumberToken([48, 49]) && !IsNumber([48, 49])
    ensures NumberToken([49, 46]) && !IsNumber([49, 46])
    ensures NumberToken([45, 46, 53]) && !IsNumber([45, 46, 53])
  {
    hide Round, DigitsValue, Scale;
    NoNumber([48, 49]);
    NoNumber([49, 46]);
    NoNumber([45, 46, 53]);
    DigitRunIs([48, 49], 0, 2);
    DigitRunIs([49, 46], 0, 1);
    DigitRunIs([49, 46], 2, 2);
    DigitRunIs([45, 46, 53], 1, 1);
    DigitRunIs([45, 46, 53], 2, 3);
  }

  lemma {:induction false} NoNumber(t: bytes)
    requires t == [48, 49] || t == [49, 46] || t == [45, 46, 53]
    ensures !IsNumber(t)
  {
    hide Syntax, ValidNumber;
    forall n: JsonNumber | ValidNumber(n) ensures Syntax(n) != t {
      SyntaxStarts(n);
    }
  }

  /** The first bytes of a number: a sign, a digit, another digit only if that is not 0; what else follows has two. */
  lemma {:induction false} SyntaxStarts(n: JsonNumber)
    requires ValidNumber(n)
    ensures var t, i := Syntax(n), if n.minus then 1 else 0;
            && i < |t| && IsDigit(t[i]) && (n.minus ==> t[0] == MINUS)
            && (i + 1 < |t| && IsDigit(t[i + 1]) ==> t[i] != ZERO)
            && (i + 1 < |t| && !IsDigit(t[i + 1]) ==> i + 2 < |t|)
  {
    hide ExpText, FracText;
    var sign: bytes := if n.minus then [MINUS] else [];
    var rest := FracText(n.frac) + ExpText(n.exp);
    PartAt(sign, n.whole, rest);
    var t := Syntax(n);
    assert t[|sign|] == n.whole[0];
    assert |n.whole| > 1 ==> t[|sign| + 1] == n.whole[1];
    assert |n.whole| == 1 && rest != [] ==> t[|sign| + 1] == t[|sign| + 1..][0] == rest[0];
    RestStarts(n);
    RestIsLonger(n);
  }

  lemma {:induction false} RestIsLonger(n: JsonNumber)
    requires ValidNumber(n)
    ensures var rest := FracText(n.frac) + ExpText(n.exp); rest != [] ==> |rest| > 1
  {
  }
}
