/** What the parser returns: always a tidy tree within the nesting limit, which printing preserves. */
module Reparse {
  import opened Bytes
  import opened Doubles
  import opened Numbers
  import opened PrintedDigits
  import opened JsonStrings
  import opened Json
  import opened JsonGrammar
  import opened JsonDocument
  import opened JsonRender
  import opened RoundTrip

  predicate TidyKids(kids: seq<Json>, named: bool) {
    forall k | 0 <= k < |kids| :: Tidy(kids[k], named)
  }

  lemma {:induction false} ParsedValueIsTidy(s: bytes, i: nat, depth: nat)
    requires Terminated(s) && i < |s| && depth <= NESTING_LIMIT
    requires ParseValue(s, i, depth).Ok?
    ensures var j := ParseValue(s, i, depth).value;
            Tidy(j, false) && depth + Height(j) <= NESTING_LIMIT
    decreases |s| - i, 1
  {
    hide At, ParseString, ParseElements, ParseMembers, SkipBlanks, Strtod, NumberRun, Saturate, NoNul, MaxHeight,
      IsDouble;
    var j := ParseValue(s, i, depth).value;
    ScanIsDouble(s[i..NumberRun(s, i)]);
    if j.kind == String {
      StringIsTidy(s, i);
    } else if j.kind == Array {
      var p := SkipBlanks(s, i + 1);
      NoHeight();
      if s[p] != RBRACKET {
        ParsedElementsAreTidy(s, p, depth + 1);
      }
    } else if j.kind == Object {
      var p := SkipBlanks(s, i + 1);
      NoHeight();
      if s[p] != RBRACE {
        ParsedMembersAreTidy(s, p, depth + 1);
      }
    }
  }

  /** `strtod` returns a double. */
  lemma {:induction false} ScanIsDouble(t: bytes)
    ensures IsDouble(Strtod(t).value)
  {
    hide Round, IsDouble, Scale, DigitsValue, DigitRun, ExponentValue, ExponentEnd;
    ZeroIsDouble();
    forall x: real ensures IsDouble(Round(x)) {
      RoundIsDouble(x);
    }
  }

  lemma {:induction false} NoHeight()
    ensures MaxHeight([]) == 0
  {
  }

  lemma {:induction false} StringIsTidy(s: bytes, i: nat)
    requires i < |s| && ParseString(s, i).Ok?
    ensures NoNul(ParseString(s, i).value)
  {
  }

  lemma {:induction false} ConsTidy(j: Json, rest: seq<Json>, named: bool)
    requires Tidy(j, named) && TidyKids(rest, named)
    ensures TidyKids([j] + rest, named)
    ensures MaxHeight([j] + rest) == if Height(j) > MaxHeight(rest) then Height(j) else MaxHeight(rest)
    ensures MaxHeight([j]) == Height(j)
  {
    assert ([j] + rest)[1..] == rest;
    assert [j][1..] == [];
  }

  lemma {:induction false} ParsedElementsAreTidy(s: bytes, p: nat, depth: nat)
    requires Terminated(s) && p < |s| && depth <= NESTING_LIMIT
    requires ParseElements(s, p, depth).Ok?
    ensures var js := ParseElements(s, p, depth).value;
            TidyKids(js, false) && depth + MaxHeight(js) <= NESTING_LIMIT
    decreases |s| - p, 2
  {
    hide ParseValue, SkipBlanks, Tidy, Height, MaxHeight;
    ParsedValueIsTidy(s, SkipBlanks(s, p), depth);
    var first := ParseValue(s, SkipBlanks(s, p), depth);
    var m := SkipBlanks(s, first.next);
    ConsTidy(first.value, [], false);
    if s[m] == COMMA {
      ParsedElementsAreTidy(s, m + 1, depth);
      ConsTidy(first.value, ParseElements(s, m + 1, depth).value, false);
    }
  }

  lemma {:induction false} ParsedMemberIsTidy(s: bytes, p: nat, depth: nat)
    requires Terminated(s) && p < |s| && depth <= NESTING_LIMIT
    requires ParseMember(s, p, depth).Ok?
    ensures var j := ParseMember(s, p, depth).value;
            Tidy(j, true) && depth + Height(j) <= NESTING_LIMIT
    decreases |s| - p, 1
  {
    hide ParseValue, ParseString, SkipBlanks, NoNul, MaxHeight, Saturate;
    var q := SkipBlanks(s, p);
    StringIsTidy(s, q);
    var c := SkipBlanks(s, ParseString(s, q).next);
    ParsedValueIsTidy(s, SkipBlanks(s, c + 1), depth);
  }

  lemma {:induction false} ParsedMembersAreTidy(s: bytes, p: nat, depth: nat)
    requires Terminated(s) && p < |s| && depth <= NESTING_LIMIT
    requires ParseMembers(s, p, depth).Ok?
    ensures var js := ParseMembers(s, p, depth).value;
            TidyKids(js, true) && depth + MaxHeight(js) <= NESTING_LIMIT
    decreases |s| - p, 2
  {
    hide ParseMember, SkipBlanks, Tidy, Height, MaxHeight;
    ParsedMemberIsTidy(s, p, depth);
    var first := ParseMember(s, p, depth);
    var m := SkipBlanks(s, first.next);
    ConsTidy(first.value, [], true);
    if s[m] == COMMA {
      ParsedMembersAreTidy(s, m + 1, depth);
      ConsTidy(first.value, ParseMembers(s, m + 1, depth).value, true);
    }
  }

  /** Every text the parser accepts, whatever it is, gives a tidy tree nested at most 1000 deep. */
  lemma {:induction false} ParsedIsTidy(text: bytes, requireEnd: bool)
    requires Parse(text, requireEnd).Ok?
    ensures var j := Parse(text, requireEnd).value;
            Tidy(j, false) && Height(j) <= 1000
  {
    hide ParseValue, SkipBlanks, Tidy, Height;
    var s := text + [NUL];
    ParsedValueIsTidy(s, SkipBlanks(s, SkipBom(s)), 0);
  }

  // ----- numbers that survive -----

  /** Every number in the tree prints as a token, and one of the two texts for it denotes it. */
  predicate WellPrinted(f: Sprintf, j: Json)
    decreases j
  {
    && (j.kind == Number ==> NumberToken(NumberText(f, j.num)) && (Reads15(f, j.num) || Reads17(f, j.num)))
    && forall k | 0 <= k < |j.kids| :: WellPrinted(f, j.kids[k])
  }

  /** The 15 digit text of every number denotes it or is not kept. */
  predicate NumbersSurvive(f: Sprintf, j: Json)
    decreases j
  {
    && (j.kind == Number ==> Survives(f, j.num))
    && forall k | 0 <= k < |j.kids| :: NumbersSurvive(f, j.kids[k])
  }

  lemma {:induction false} TidyIsCanonical(f: Sprintf, j: Json, named: bool)
    requires Tidy(j, named) && WellPrinted(f, j)
    ensures Plain(f, j) && Denoted(f, j) && (Canonical(f, j, named) <==> NumbersSurvive(f, j))
    decreases j
  {
    hide NumberToken, NumberText, Reads15, Reads17, Survives, Saturate, NoNul;
    forall k | 0 <= k < |j.kids|
      ensures Plain(f, j.kids[k]) && Denoted(f, j.kids[k])
      ensures Canonical(f, j.kids[k], j.kind == Object) <==> NumbersSurvive(f, j.kids[k])
    {
      TidyIsCanonical(f, j.kids[k], j.kind == Object);
    }
  }

  /**
   Parse, print in either format, and parse again: for every accepted text the tree is the
   same if and only if the 15 digit text of each number denotes it or does not compare equal.
   */
  lemma {:induction false} ParsePrintParse(f: Sprintf, text: bytes, requireEnd: bool, format: bool, again: bool)
    requires Parse(text, requireEnd).Ok? && WellPrinted(f, Parse(text, requireEnd).value)
    ensures var j := Parse(text, requireEnd).value;
            var printed := Render(f, j, format, 0);
            Parse(printed, again) == Ok(j, |printed|) <==> NumbersSurvive(f, j)
  {
    hide Parse, Tidy, Canonical, Plain, Render, NumbersSurvive, WellPrinted, Denoted, Height;
    var j := Parse(text, requireEnd).value;
    ParsedIsTidy(text, requireEnd);
    TidyIsCanonical(f, j, false);
    TidyRoot(j);
    PrintThenParseIdentity(f, j, format, again);
  }

  lemma {:induction false} TidyRoot(j: Json)
    requires Tidy(j, false)
    ensures j.key == None
  {
  }

  /** The numbers in the tree are those of finite doubles. */
  predicate FiniteNumbers(j: Json)
    decreases j
  {
    (j.kind == Number ==> Finite(j.num)) && forall k | 0 <= k < |j.kids| :: FiniteNumbers(j.kids[k])
  }

  /** With a correct C library that covers every accepted text whose numbers do not overflow. */
  lemma {:induction false} CorrectlyPrinted(f: Sprintf, j: Json, named: bool)
    requires Correct(f) && Tidy(j, named) && FiniteNumbers(j)
    ensures WellPrinted(f, j)
    decreases j
  {
    hide Correct, Finite, NumberToken, NumberText, Reads15, Reads17, Saturate, NoNul, IsDouble;
    if j.kind == Number {
      CorrectPrints(f, j.num);
    }
    forall k | 0 <= k < |j.kids| ensures WellPrinted(f, j.kids[k]) {
      CorrectlyPrinted(f, j.kids[k], j.kind == Object);
    }
  }

  /** The number is 0, or was read from a decimal of at most 15 significant digits. */
  ghost predicate IsShort15(d: real) {
    d == 0.0 || exists x: real, m: int, e: int :: IsDecimal15(x, m, e) && Round(x) == d
  }

  /** Integers of at most 15 digits among them. */
  lemma {:induction false} SmallIntegerIsShort(n: int)
    requires -LIMIT_15 < n < LIMIT_15
    ensures IsShort15(n as real)
  {
    hide Round, IsDecimal15;
    if n != 0 {
      IntegerDecimal(n);
    }
  }

  ghost predicate ShortDecimals(j: Json)
    decreases j
  {
    (j.kind == Number ==> IsShort15(j.num)) && forall k | 0 <= k < |j.kids| :: ShortDecimals(j.kids[k])
  }

  /** Numbers written with at most 15 significant digits survive. */
  lemma {:induction false} ShortDecimalsSurvive(f: Sprintf, j: Json, named: bool)
    requires Correct(f) && Tidy(j, named) && FiniteNumbers(j) && ShortDecimals(j)
    ensures WellPrinted(f, j) && NumbersSurvive(f, j)
    decreases j
  {
    hide Correct, Finite, NumberToken, NumberText, Reads15, Reads17, Near15, Saturate, NoNul, IsDouble, IsShort15;
    CorrectlyPrinted(f, j, named);
    if j.kind == Number {
      ShortSurvives(f, j.num);
    }
    forall k | 0 <= k < |j.kids| ensures NumbersSurvive(f, j.kids[k]) {
      ShortDecimalsSurvive(f, j.kids[k], j.kind == Object);
    }
  }

  lemma {:induction false} ShortSurvives(f: Sprintf, d: real)
    requires Correct(f) && IsDouble(d) && Finite(d) && IsShort15(d)
    ensures Reads15(f, d)
  {
    hide Finite, Round, IsDouble, Reads15, IsDecimal15;
    if d == 0.0 {
      ZeroPrints(f);
    } else {
      assert CorrectFor(f, d);
      var x: real, m: int, e: int :| IsDecimal15(x, m, e) && Round(x) == d;
      FifteenDigits(f, x, m, e);
    }
  }

  /** Every number in the tree is an integer of at most 15 digits. */
  predicate SmallIntegers(j: Json)
    decreases j
  {
    && (j.kind == Number ==> j.num == j.num.Floor as real && -LIMIT_15 < j.num.Floor < LIMIT_15)
    && forall k | 0 <= k < |j.kids| :: SmallIntegers(j.kids[k])
  }

  /** Such numbers survive with any C library that writes them as plain decimal. */
  lemma {:induction false} SmallIntegersSurvive(f: Sprintf, j: Json)
    requires PlainIntegers(f) && SmallIntegers(j)
    ensures WellPrinted(f, j) && NumbersSurvive(f, j)
    decreases j
  {
    hide NumberToken, NumberText, RereadNumber, Reads15, Near15;
    if j.kind == Number {
      IntegerPrints(f, j.num.Floor);
    }
    forall k | 0 <= k < |j.kids| ensures WellPrinted(f, j.kids[k]) && NumbersSurvive(f, j.kids[k]) {
      SmallIntegersSurvive(f, j.kids[k]);
    }
  }

  // ----- what is refused -----

  /** The value is refused, or it ends before a number character, which nothing may follow it. */
  predicate Stuck(s: bytes, r: Parsed<Json>) {
    r.Ok? ==> r.next < |s| && InNumber(s[r.next])
  }

  /** The parser can read the document inside `depth` open brackets. */
  predicate Fits(d: Doc, depth: nat) {
    Readable(d) && depth + Depth(d) <= NESTING_LIMIT
  }

  predicate ElemsFit(elems: seq<Elem>, depth: nat) {
    ReadableAll(elems) && depth + ElemsDepth(elems) <= NESTING_LIMIT
  }

  /** The copy of a long run stops after 63 bytes. */
  lemma {:induction false} RunOfLong(s: bytes, i: nat, n: nat, t: bytes)
    requires At(s, i, t) && n <= 63 < |t|
    requires forall k | 0 <= k < |t| :: InNumber(t[k])
    ensures NumberRunFrom(s, i, n) == i + 63
    decreases 63 - n
  {
    if n < 63 {
      AtByte(s, i, t, n);
      RunOfLong(s, i, n + 1, t);
    }
  }

  /** What `parse_number` sees of a run of number characters. */
  function Cut(t: bytes): bytes {
    if |t| > 63 then t[..63] else t
  }

  lemma {:induction false} ParsesCut(s: bytes, i: nat, t: bytes, depth: nat)
    requires Terminated(s) && NumberLike(t) && At(s, i, t) && Stops(s, i + |t|)
    ensures i < |s|
    ensures var scan := Strtod(Cut(t));
            ParseValue(s, i, depth) == if scan.used == 0 then Fail else Ok(NumberItem(scan.value), i + scan.used)
  {
    hide At, Strtod, Saturate, ParseElements, ParseMembers, ParseString, SkipBlanks, NumberRun;
    AtByte(s, i, t, 0);
    NotWord(s, i);
    CutRun(s, i, t);
  }

  lemma {:induction false} CutRun(s: bytes, i: nat, t: bytes)
    requires NumberLike(t) && At(s, i, t) && Stops(s, i + |t|)
    ensures s[i..NumberRun(s, i)] == Cut(t)
  {
    hide At, NumberRunFrom, StartsNumber;
    assert s[i..i + |t|] == t by { AtSlice(s, i, t); }
    if |t| > 63 {
      RunOfLong(s, i, 0, t);
      assert s[i..i + 63] == s[i..i + |t|][..63];
    } else {
      RunOfToken(s, i, 0, t);
    }
  }

  lemma {:induction false} NumberSticks(s: bytes, i: nat, t: bytes, depth: nat)
    requires Terminated(s) && NumberLike(t) && !NumberToken(t) && At(s, i, t) && Stops(s, i + |t|)
    ensures i < |s| && Stuck(s, ParseValue(s, i, depth))
  {
    hide At, Strtod, ParseValue;
    ParsesCut(s, i, t, depth);
    var used := Strtod(Cut(t)).used;
    if used > 0 {
      AtByte(s, i, t, used);
    }
  }

  /** A document the parser cannot read is refused wherever it stands, or ends too early if it is a number. */
  lemma {:induction false} UnreadableFails(s: bytes, i: nat, d: Doc, depth: nat)
    requires Terminated(s) && ValidDoc(d) && At(s, i, Text(d))
    requires depth <= NESTING_LIMIT && !Fits(d, depth)
    requires d.Num? ==> Stops(s, i + |Text(d)|)
    ensures i < |s| && Stuck(s, ParseValue(s, i, depth)) && (!d.Num? ==> ParseValue(s, i, depth) == Fail)
    decreases d, 1
  {
    hide ParseValue, SkipBlanks, Blanks, ElemsDepth, ElemsText, ReadableElem, At, ParseElements, ParseMembers,
      ValidElem;
    FirstByte(d);
    AtByte(s, i, Text(d), 0);
    match d {
      case Word(kind) =>
      case Num(token) => NumberSticks(s, i, token, depth);
      case Str(ps) => ParsesString(s, i, ps, depth);
      case Arr(open, elems) => UnreadableListFails(s, i, d, depth);
      case Obj(open, elems) => UnreadableListFails(s, i, d, depth);
    }
  }

  lemma {:induction false} UnreadableListFails(s: bytes, i: nat, d: Doc, depth: nat)
    requires Terminated(s) && ValidDoc(d) && At(s, i, Text(d)) && (d.Arr? || d.Obj?)
    requires depth <= NESTING_LIMIT && !Fits(d, depth)
    ensures i < |s| && ParseValue(s, i, depth) == Fail
    decreases d, 0
  {
    hide *;
    ListAt(s, i, d);
    ListFits(d, depth);
    BracketStep(s, i, depth);
    if depth < NESTING_LIMIT {
      var close := if d.Arr? then RBRACKET else RBRACE;
      ElementsStart(s, i + 1, d.elems, d.Obj?, close);
      UnreadableElemsFail(s, i + 1, SkipBlanks(s, i + 1), d.elems, d.Obj?, depth + 1);
    }
  }

  lemma {:induction false} ListAt(s: bytes, i: nat, d: Doc)
    requires ValidDoc(d) && (d.Arr? || d.Obj?) && At(s, i, Text(d))
    ensures i < |s| && s[i] == if d.Arr? then LBRACKET else LBRACE
    ensures d.elems != [] ==> At(s, i + 1, ElemsText(d.elems, if d.Arr? then RBRACKET else RBRACE))
    ensures forall e | e in d.elems :: ValidElem(e, d.Obj?)
  {
    hide At, ElemsText, Blanks, ValidElem;
    var close := if d.Arr? then RBRACKET else RBRACE;
    var open := if d.Arr? then LBRACKET else LBRACE;
    var body := if d.elems == [] then d.open + [close] else ElemsText(d.elems, close);
    AtSplit(s, i, [open], body);
    AtByte(s, i, [open], 0);
  }

  /** A list does not fit because of its own bracket or because of its elements. */
  lemma {:induction false} ListFits(d: Doc, depth: nat)
    requires (d.Arr? || d.Obj?) && depth <= NESTING_LIMIT && !Fits(d, depth)
    ensures depth == NESTING_LIMIT || (d.elems != [] && !ElemsFit(d.elems, depth + 1))
  {
    hide ReadableElem, ElemsDepth;
    NoDepth();
  }

  lemma {:induction false} NoDepth()
    ensures ElemsDepth([]) == 0
  {
  }

  lemma {:induction false} UnreadableElemsFail(s: bytes, p: nat, q: nat, elems: seq<Elem>, named: bool, depth: nat)
    requires Terminated(s) && elems != [] && (forall e | e in elems :: ValidElem(e, named))
    requires At(s, p, ElemsText(elems, if named then RBRACE else RBRACKET)) && p < |s|
    requires q == p || q == SkipBlanks(s, p)
    requires depth <= NESTING_LIMIT && !ElemsFit(elems, depth)
    ensures named ==> ParseMembers(s, q, depth) == Fail
    ensures !named ==> ParseElements(s, q, depth) == Fail
    decreases elems, 2
  {
    hide At, ElemsText, ElemText, Text, KeyText, ParseValue, ParseMember, ParseMembers, ParseElements, SkipBlanks,
      Value, ElemValue, ElemsValue, Depth, ElemsDepth, ValidElem, ValidDoc, Blanks, Readable, ReadableAll,
      ReadableElem, Paired;
    var e, close := elems[0], if named then RBRACE else RBRACKET;
    Unfold(elems, named, close);
    DepthCases(elems);
    ReadableParts(elems);
    ElementsStart(s, p, elems, named, close);
    if ReadableElem(e) && depth + Depth(e.doc) <= NESTING_LIMIT {
      ReadableFirst(s, p, q, elems, named, close, depth);
      var m := p + |ElemText(e)|;
      UnreadableElemsFail(s, m + 1, m + 1, elems[1..], named, depth);
    } else {
      UnreadableFirst(s, p, q, elems, named, close, depth);
    }
  }

  lemma {:induction false} DepthCases(elems: seq<Elem>)
    requires elems != []
    ensures ElemsDepth(elems) == Depth(elems[0].doc) || (|elems| > 1 && ElemsDepth(elems) == ElemsDepth(elems[1..]))
    ensures |elems| == 1 ==> elems[1..] == []
  {
    if |elems| == 1 {
      assert elems[1..] == [];
    }
  }

  /** Where the name and the value of the first element lie. */
  lemma {:induction false} FirstAt(s: bytes, p: nat, elems: seq<Elem>, named: bool, close: byte)
    requires elems != [] && (forall e | e in elems :: ValidElem(e, named))
    requires At(s, p, ElemsText(elems, close)) && (close == RBRACE || close == RBRACKET)
    ensures var e := elems[0]; var k := p + |e.before|; var v := k + |KeyText(e.key)|;
            && ValidElem(e, named) && At(s, k, KeyText(e.key)) && At(s, v, Text(e.doc)) && (!named ==> v == k)
            && Stops(s, v + |Text(e.doc)|)
  {
    hide *;
    var e, rest := elems[0], Rest(elems, close);
    Unfold(elems, named, close);
    ElemAt(s, p, e, rest);
    assert ValidElem(e, named);
    AfterIsBlank(e, named);
    AfterNumber(close);
    StopsAfter(s, p + |e.before| + |KeyText(e.key)| + |Text(e.doc)|, e.after, rest);
  }

  lemma {:induction false} AfterNumber(b: byte)
    ensures b == COMMA || b == RBRACE || b == RBRACKET ==> !InNumber(b)
    ensures !InNumber(COMMA)
  {
  }

  lemma {:induction false} AfterIsBlank(e: Elem, named: bool)
    requires ValidElem(e, named)
    ensures Blanks(e.after)
  {
  }

  /** The first element cannot be read, so the list is refused. */
  lemma {:induction false} UnreadableFirst(s: bytes, p: nat, q: nat, elems: seq<Elem>, named: bool, close: byte,
                                           depth: nat)
    requires Terminated(s) && elems != [] && (forall e | e in elems :: ValidElem(e, named))
    requires close == (if named then RBRACE else RBRACKET)
    requires At(s, p, ElemsText(elems, close)) && p < |s|
    requires q < |s| && SkipBlanks(s, q) == p + |elems[0].before|
    requires depth <= NESTING_LIMIT
    requires !(ReadableElem(elems[0]) && depth + Depth(elems[0].doc) <= NESTING_LIMIT)
    ensures named ==> ParseMembers(s, q, depth) == Fail
    ensures !named ==> ParseElements(s, q, depth) == Fail
    decreases elems, 1
  {
    hide *;
    var e := elems[0];
    var k := p + |e.before|;
    var v := k + |KeyText(e.key)|;
    FirstAt(s, p, elems, named, close);
    ElemParts(e, named);
    ReadableParts(elems);
    FitsIs(e.doc, depth);
    if named {
      ParsesName(s, k, e.key, e.doc);
      if Paired(e.key.ps) {
        UnreadableFails(s, v, e.doc, depth);
        StuckMember(s, q, k, e.key, v, depth);
      } else {
        NameFails(s, q, depth);
      }
    } else {
      NoKeyIs(e);
      UnreadableFails(s, v, e.doc, depth);
      StuckElement(s, q, depth);
    }
  }

  lemma {:induction false} NoKeyIs(e: Elem)
    requires ValidElem(e, false)
    ensures !e.key.Key?
  {
  }

  lemma {:induction false} FitsIs(d: Doc, depth: nat)
    ensures Fits(d, depth) <==> Readable(d) && depth + Depth(d) <= NESTING_LIMIT
  {
  }

  lemma {:induction false} StuckElement(s: bytes, q: nat, depth: nat)
    requires Terminated(s) && q < |s| && Stuck(s, ParseValue(s, SkipBlanks(s, q), depth))
    ensures ParseElements(s, q, depth) == Fail
  {
    hide ParseValue, SkipBlanks;
    var r := ParseValue(s, SkipBlanks(s, q), depth);
    if r.Ok? {
      NumberEndsNothing(s, r.next);
    }
  }

  lemma {:induction false} NumberEndsNothing(s: bytes, i: nat)
    requires i < |s| && InNumber(s[i])
    ensures SkipBlanks(s, i) == i && s[i] != COMMA && s[i] != RBRACKET && s[i] != RBRACE && s[i] != NUL
  {
  }

  lemma {:induction false} StuckMember(s: bytes, q: nat, k: nat, key: Key, v: nat, depth: nat)
    requires Terminated(s) && q < |s| && SkipBlanks(s, q) == k && k < |s|
    requires ParseString(s, k).Ok? && v < |s| && Stuck(s, ParseValue(s, v, depth))
    requires var c := SkipBlanks(s, ParseString(s, k).next); c + 1 < |s| && SkipBlanks(s, c + 1) == v
    ensures ParseMembers(s, q, depth) == Fail
  {
    hide ParseValue, ParseString, SkipBlanks;
    var r := ParseMember(s, q, depth);
    if r.Ok? {
      NumberEndsNothing(s, r.next);
    }
  }

  lemma {:induction false} NameFails(s: bytes, q: nat, depth: nat)
    requires Terminated(s) && q < |s| && ParseString(s, SkipBlanks(s, q)) == Fail
    ensures ParseMembers(s, q, depth) == Fail
  {
    hide ParseString, SkipBlanks;
    assert ParseMember(s, q, depth) == Fail;
  }

  /** The first element can be read, so the list is refused if the rest is. */
  lemma {:induction false} ReadableFirst(s: bytes, p: nat, q: nat, elems: seq<Elem>, named: bool, close: byte,
                                         depth: nat)
    requires Terminated(s) && |elems| > 1 && (forall e | e in elems :: ValidElem(e, named))
    requires close == (if named then RBRACE else RBRACKET)
    requires At(s, p, ElemsText(elems, close)) && p < |s|
    requires q < |s| && SkipBlanks(s, q) == p + |elems[0].before|
    requires ReadableElem(elems[0]) && depth + Depth(elems[0].doc) <= NESTING_LIMIT
    ensures var m := p + |ElemText(elems[0])|;
            && m + 1 < |s| && At(s, m + 1, ElemsText(elems[1..], close))
            && (named && ParseMembers(s, m + 1, depth) == Fail ==> ParseMembers(s, q, depth) == Fail)
            && (!named && ParseElements(s, m + 1, depth) == Fail ==> ParseElements(s, q, depth) == Fail)
  {
    hide At, ElemsText, ElemText, Text, KeyText, ParseValue, ParseMember, ParseMembers, ParseElements, SkipBlanks,
      Value, ElemValue, ElemsValue, Depth, ElemsDepth, ValidElem, ValidDoc, Blanks, Readable, ReadableElem,
      ReadableAll, Paired;
    var e := elems[0];
    ReadableParts(elems);
    ElemParts(e, named);
    assert ValidElem(e, named);
    Unfold(elems, named, close);
    ParsesFirst(s, p, elems, named, close, depth);
    RestAt(s, p + |ElemText(e)|, elems, close);
    var v := p + |e.before| + |KeyText(e.key)|;
    if named {
      ParsesMember(s, q, p + |e.before|, e, depth);
      MemberStep(s, q, depth, ElemValue(e, true), v + |Text(e.doc)|);
    } else {
      ElementStep(s, q, depth, Value(e.doc), v + |Text(e.doc)|);
    }
  }

  /**
   A document is accepted if and only if it is nested at most 1000 deep, its surrogates are
   paired and its numbers can be read.  Only a number on its own needs the demand that the
   text end there.
   */
  lemma {:induction false} AcceptedIffReadable(bom: bool, before: bytes, d: Doc, after: bytes, requireEnd: bool)
    requires ValidDoc(d) && Blanks(before) && Blanks(after) && (requireEnd || !d.Num?)
    ensures Parse(Source(bom, before, d, after), requireEnd).Ok? <==> Readable(d) && Depth(d) <= 1000
  {
    hide At, Text, Value, ParseValue, BlankRun, SkipBlanks, SkipBom, ValidDoc, Readable, Depth, Source, Blanks,
      Terminated, Stops, InNumber;
    if Readable(d) && Depth(d) <= NESTING_LIMIT {
      ParsesSource(bom, before, d, after, requireEnd);
    } else {
      var s := Source(bom, before, d, after) + [NUL];
      var i := SourceStart(bom, before, d, after);
      EndsAfter(s, i + |Text(d)|, after);
      UnreadableFails(s, i, d, 0);
      var r := ParseValue(s, i, 0);
      if r.Ok? {
        NumberEndsNothing(s, r.next);
      }
    }
  }

  /** A number on its own, when nothing is demanded of what follows, is read as far as its first 63 bytes go. */
  lemma {:induction false} LoneNumberIsCut(bom: bool, before: bytes, t: bytes, after: bytes)
    requires NumberLike(t) && Blanks(before) && Blanks(after)
    ensures var scan, start := Strtod(Cut(t)), (if bom then 3 else 0) + |before|;
            Parse(Source(bom, before, Num(t), after), false) ==
            if scan.used == 0 then Fail else Ok(NumberItem(scan.value), start + scan.used)
  {
    hide At, ParseValue, BlankRun, SkipBlanks, SkipBom, Source, Blanks, Terminated, Stops, InNumber, Strtod, Saturate,
      NumberLike;
    var s := Source(bom, before, Num(t), after) + [NUL];
    var i := SourceStart(bom, before, Num(t), after);
    SourceLength(bom, before, Num(t), after);
    EndsAfter(s, i + |t|, after);
    ParsesCut(s, i, t, 0);
  }
}
