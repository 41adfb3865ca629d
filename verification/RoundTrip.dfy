/** Printing and parsing undo each other. */
module RoundTrip {
  import opened Bytes
  import opened Numbers
  import opened JsonStrings
  import opened Json
  import opened JsonGrammar
  import opened JsonDocument
  import opened JsonRender

  /** No raw or invalid item, only C strings, and every number prints as a token `strtod` reads whole. */
  predicate Plain(f: Sprintf, j: Json) {
    && j.kind != Invalid && j.kind != Raw
    && NoNulOption(j.str) && NoNulOption(j.key)
    && (j.kind == Number ==> NumberToken(NumberText(f, j.num)))
    && (j.kind == Array || j.kind == Object ==> forall k | 0 <= k < |j.kids| :: Plain(f, j.kids[k]))
  }

  function OrEmpty(s: Option<bytes>): bytes {
    if s.Some? then s.value else []
  }

  // ----- a printed tree is a document -----

  function Layout(f: Sprintf, j: Json, format: bool, depth: nat): Doc
    decreases j
  {
    match j.kind
    case Number => Num(NumberText(f, j.num))
    case String => Str(EscapePieces(OrEmpty(j.str)))
    case Array => Arr([], LayoutElements(f, j.kids, format, depth + 1, true))
    case Object => Obj(LineStart(format, depth), LayoutMembers(f, j.kids, format, depth + 1))
    case _ => Word(j.kind)
  }

  function LineStart(format: bool, depth: nat): bytes {
    When(format, LF) + TabsWhen(format, depth)
  }

  function LayoutElements(f: Sprintf, kids: seq<Json>, format: bool, depth: nat, first: bool): (r: seq<Elem>)
    ensures |r| == |kids|
    decreases kids
  {
    if kids == [] then []
    else
      [Elem(When(format && !first, SPACE), NoKey, Layout(f, kids[0], format, depth), [])] +
      LayoutElements(f, kids[1..], format, depth, false)
  }

  function LayoutMembers(f: Sprintf, kids: seq<Json>, format: bool, depth: nat): (r: seq<Elem>)
    requires depth > 0
    ensures |r| == |kids|
    decreases kids
  {
    if kids == [] then []
    else
      [Elem(LineStart(format, depth), LayoutKey(kids[0].key, format), Layout(f, kids[0], format, depth),
            if |kids| == 1 then LineStart(format, depth - 1) else [])] +
      LayoutMembers(f, kids[1..], format, depth)
  }

  function LayoutKey(key: Option<bytes>, format: bool): Key {
    Key(EscapePieces(OrEmpty(key)), [], When(format, TAB))
  }

  lemma {:induction false} NoNulText(s: Option<bytes>)
    requires NoNulOption(s)
    ensures NoNul(OrEmpty(s))
  {
  }

  lemma {:induction false} LayoutText(f: Sprintf, j: Json, format: bool, depth: nat)
    requires Plain(f, j)
    ensures Text(Layout(f, j, format, depth)) == Render(f, j, format, depth)
    decreases j, 1
  {
    hide PiecesText, EscapeText, ElemsText, LayoutElements, LayoutMembers, RenderElements, RenderMembers, EscapePieces,
      TabsWhen, NoNul, NumberToken, NumberText, ValidPieces;
    match j.kind {
      case String => NoNulText(j.str);
        EscapeSpells(OrEmpty(j.str));
      case Array =>
        if j.kids == [] {
          ListText(f, j.kids, format, depth);
        } else {
          LayoutElementsText(f, j.kids, format, depth + 1, true);
        }
      case Object =>
        if j.kids == [] {
          ListText(f, j.kids, format, depth);
        } else {
          LayoutMembersText(f, j.kids, format, depth + 1);
        }
      case _ =>
    }
  }

  lemma {:induction false} ListText(f: Sprintf, kids: seq<Json>, format: bool, depth: nat)
    requires kids == []
    ensures RenderElements(f, kids, format, depth + 1) == [] && LayoutElements(f, kids, format, depth + 1, true) == []
    ensures RenderMembers(f, kids, format, depth + 1) == [] && LayoutMembers(f, kids, format, depth + 1) == []
  {
  }

  /** The layout of a list is that of its first item and that of the rest. */
  lemma {:induction false} FirstElement(f: Sprintf, kids: seq<Json>, format: bool, depth: nat, first: bool)
    requires kids != []
    ensures var ls := LayoutElements(f, kids, format, depth, first);
            && ElemsText(ls, RBRACKET) ==
               When(format && !first, SPACE) + ([] + (Text(Layout(f, kids[0], format, depth)) + [])) +
               Rest(ls, RBRACKET)
            && ls[1..] == LayoutElements(f, kids[1..], format, depth, false)
  {
  }

  lemma {:induction false} FirstMember(f: Sprintf, kids: seq<Json>, format: bool, depth: nat)
    requires kids != [] && depth > 0
    ensures var ls := LayoutMembers(f, kids, format, depth);
            && ElemsText(ls, RBRACE) ==
               LineStart(format, depth) +
               (KeyText(LayoutKey(kids[0].key, format)) +
                (Text(Layout(f, kids[0], format, depth)) +
                 (if |kids| == 1 then LineStart(format, depth - 1) else []))) +
               Rest(ls, RBRACE)
            && ls[1..] == LayoutMembers(f, kids[1..], format, depth)
  {
  }

  /** The concatenations of an element and what follows it, regrouped. */
  lemma {:induction false} ElementJoin(space: bytes, r: bytes, gap: bytes, rest: bytes, close: bytes)
    ensures space + ([] + (r + [])) + close == space + (r + [] + []) + close
    ensures space + ([] + (r + [])) + ([COMMA] + (gap + rest + close)) == space + (r + ([COMMA] + gap) + rest) + close
  {
  }

  lemma {:induction false} LayoutElementsText(f: Sprintf, kids: seq<Json>, format: bool, depth: nat, first: bool)
    requires kids != [] && forall k | 0 <= k < |kids| :: Plain(f, kids[k])
    ensures ElemsText(LayoutElements(f, kids, format, depth, first), RBRACKET) ==
            When(format && !first, SPACE) + RenderElements(f, kids, format, depth) + [RBRACKET]
    decreases kids, 0
  {
    hide ElemsText, LayoutElements, Layout, Text, Render, Plain, When;
    FirstElement(f, kids, format, depth, first);
    LayoutText(f, kids[0], format, depth);
    var r, space := Render(f, kids[0], format, depth), When(format && !first, SPACE);
    ElementJoin(space, r, When(format, SPACE), RenderElements(f, kids[1..], format, depth), [RBRACKET]);
    if |kids| > 1 {
      LayoutElementsText(f, kids[1..], format, depth, false);
    }
  }

  lemma {:induction false} MemberJoin(lf: bytes, head: bytes, r: bytes, rest: bytes, tabs: bytes, close: bytes)
    ensures lf + (head + (r + (lf + tabs))) + close == lf + (head + r + ([] + lf) + []) + tabs + close
    ensures lf + (head + (r + [])) + ([COMMA] + (lf + rest + tabs + close)) ==
            lf + (head + r + ([COMMA] + lf) + rest) + tabs + close
  {
  }

  lemma {:induction false} LayoutMembersText(f: Sprintf, kids: seq<Json>, format: bool, depth: nat)
    requires depth > 0 && kids != [] && forall k | 0 <= k < |kids| :: Plain(f, kids[k])
    ensures ElemsText(LayoutMembers(f, kids, format, depth), RBRACE) ==
            When(format, LF) + RenderMembers(f, kids, format, depth) + TabsWhen(format, depth - 1) + [RBRACE]
    decreases kids, 0
  {
    hide ElemsText, LayoutMembers, Layout, Text, Render, Plain, LineStart, KeyText, LayoutKey, MemberHead, TabsWhen,
      When, RenderMembers;
    assert Plain(f, kids[0]);
    PlainKey(f, kids[0]);
    FirstMember(f, kids, format, depth);
    LayoutText(f, kids[0], format, depth);
    LineStartIs(format, depth - 1);
    var lf, tabs, r := When(format, LF), TabsWhen(format, depth - 1), Render(f, kids[0], format, depth);
    var rest, head := RenderMembers(f, kids[1..], format, depth), MemberHead(kids[0].key, format, depth);
    RenderMembersFirst(f, kids, format, depth);
    MemberJoin(lf, head, r, rest, tabs, [RBRACE]);
    if |kids| == 1 {
      MemberStart(kids[0].key, format, depth, r + (lf + tabs));
    } else {
      MemberStart(kids[0].key, format, depth, r + []);
      LayoutMembersText(f, kids[1..], format, depth);
    }
  }

  lemma {:induction false} RenderMembersFirst(f: Sprintf, kids: seq<Json>, format: bool, depth: nat)
    requires kids != []
    ensures RenderMembers(f, kids, format, depth) ==
            MemberHead(kids[0].key, format, depth) + Render(f, kids[0], format, depth) +
            ((if |kids| > 1 then [COMMA] else []) + When(format, LF)) + RenderMembers(f, kids[1..], format, depth)
    ensures |kids| == 1 ==> RenderMembers(f, kids[1..], format, depth) == []
  {
    hide Render, MemberHead;
  }

  lemma {:induction false} PlainKey(f: Sprintf, j: Json)
    requires Plain(f, j)
    ensures NoNulOption(j.key)
  {
  }

  lemma {:induction false} LineStartIs(format: bool, depth: nat)
    ensures LineStart(format, depth) == When(format, LF) + TabsWhen(format, depth)
  {
  }

  lemma {:induction false} MemberStart(key: Option<bytes>, format: bool, depth: nat, rest: bytes)
    requires NoNulOption(key)
    ensures LineStart(format, depth) + (KeyText(LayoutKey(key, format)) + rest) ==
            When(format, LF) + (MemberHead(key, format, depth) + rest)
  {
    hide PiecesText, EscapeText, EscapePieces, TabsWhen, Quoted, NoNul, ValidPieces;
    NoNulText(key);
    EscapeSpells(OrEmpty(key));
  }

  // ----- the document denotes the tree read again -----

  /** The tree with every field brought to what the parser sets: its numbers go through their text. */
  function Reread(f: Sprintf, j: Json): Json
    decreases j
  {
    match j.kind
    case Number => NumberItem(RereadNumber(f, j.num))
    case String => StringItem(OrEmpty(j.str))
    case Array => ArrayItem(RereadElements(f, j.kids))
    case Object => ObjectItem(RereadMembers(f, j.kids))
    case True => TrueItem()
    case _ => Blank(j.kind)
  }

  function RereadElements(f: Sprintf, kids: seq<Json>): (r: seq<Json>)
    ensures |r| == |kids|
    decreases kids
  {
    if kids == [] then [] else [Reread(f, kids[0])] + RereadElements(f, kids[1..])
  }

  function RereadMembers(f: Sprintf, kids: seq<Json>): (r: seq<Json>)
    ensures |r| == |kids|
    decreases kids
  {
    if kids == [] then []
    else [Named(Reread(f, kids[0]), OrEmpty(kids[0].key))] + RereadMembers(f, kids[1..])
  }

  lemma {:induction false} LayoutValue(f: Sprintf, j: Json, format: bool, depth: nat)
    requires Plain(f, j)
    ensures ValidDoc(Layout(f, j, format, depth)) && Readable(Layout(f, j, format, depth))
    ensures Value(Layout(f, j, format, depth)) == Reread(f, j)
    ensures Depth(Layout(f, j, format, depth)) == Height(j)
    decreases j, 1
  {
    hide PiecesText, EscapeText, LayoutElements, LayoutMembers, EscapePieces, NoNul, NumberToken, NumberText,
      PiecesValue, RereadElements, RereadMembers, ElemsValue, ElemsDepth, MaxHeight, ValidElem, CString, NumberLike,
      ReadableElem, Paired, ValidPieces;
    match j.kind {
      case Number => TokenIsLike(NumberText(f, j.num));
      case String => NoNulText(j.str);
        EscapeSpells(OrEmpty(j.str));
        CStringOfText(OrEmpty(j.str), []);
        assert OrEmpty(j.str) + [] == OrEmpty(j.str);
      case Array => LayoutElementsValue(f, j.kids, format, depth + 1, true);
      case Object => LayoutMembersValue(f, j.kids, format, depth + 1);
      case _ =>
    }
  }

  lemma {:induction false} LayoutElementsValue(f: Sprintf, kids: seq<Json>, format: bool, depth: nat, first: bool)
    requires forall k | 0 <= k < |kids| :: Plain(f, kids[k])
    ensures var ls := LayoutElements(f, kids, format, depth, first);
            && (forall e | e in ls :: ValidElem(e, false)) && ReadableAll(ls)
            && ElemsValue(ls, false) == RereadElements(f, kids)
            && ElemsDepth(ls) == MaxHeight(kids)
    decreases kids, 0
  {
    hide Layout, ValidDoc, Value, Depth, Height, Reread, Plain;
    if kids != [] {
      LayoutValue(f, kids[0], format, depth);
      LayoutElementsValue(f, kids[1..], format, depth, false);
      var ls := LayoutElements(f, kids, format, depth, first);
      assert ls[1..] == LayoutElements(f, kids[1..], format, depth, false);
    }
  }

  lemma {:induction false} LayoutMembersValue(f: Sprintf, kids: seq<Json>, format: bool, depth: nat)
    requires depth > 0 && forall k | 0 <= k < |kids| :: Plain(f, kids[k])
    ensures var ls := LayoutMembers(f, kids, format, depth);
            && (forall e | e in ls :: ValidElem(e, true)) && ReadableAll(ls)
            && ElemsValue(ls, true) == RereadMembers(f, kids)
            && ElemsDepth(ls) == MaxHeight(kids)
    decreases kids, 0
  {
    hide Layout, ValidDoc, Value, Depth, Height, Reread, Plain, LineStart, PiecesValue, ValidPieces, EscapePieces,
      Blanks, CString;
    if kids != [] {
      LayoutValue(f, kids[0], format, depth);
      LayoutMembersValue(f, kids[1..], format, depth);
      PlainKey(f, kids[0]);
      KeySpells(kids[0].key, format, depth);
      var ls := LayoutMembers(f, kids, format, depth);
      assert ls[1..] == LayoutMembers(f, kids[1..], format, depth);
    }
  }

  lemma {:induction false} KeySpells(key: Option<bytes>, format: bool, depth: nat)
    requires NoNulOption(key) && depth > 0
    ensures ValidPieces(EscapePieces(OrEmpty(key))) && Paired(EscapePieces(OrEmpty(key)))
    ensures CString(PiecesValue(EscapePieces(OrEmpty(key)))) == OrEmpty(key)
    ensures Blanks(LineStart(format, depth)) && Blanks(LineStart(format, depth - 1))
    ensures Blanks(When(format, TAB)) && Blanks([])
  {
    hide Blanks, LineStart, ValidPieces, Paired, EscapePieces, PiecesValue, CString;
    EscapeSpells(OrEmpty(key));
    CStringOfText(OrEmpty(key), []);
    assert OrEmpty(key) + [] == OrEmpty(key);
    BlankStarts(format, depth);
  }

  lemma {:induction false} BlankStarts(format: bool, depth: nat)
    requires depth > 0
    ensures Blanks(LineStart(format, depth)) && Blanks(LineStart(format, depth - 1))
    ensures Blanks(When(format, TAB)) && Blanks([])
  {
  }

  /**
   Main result: what either printer writes for a tree nested at most 1000 deep, parsed
   again, is the tree itself with its numbers read back from their text.
   */
  lemma {:induction false} PrintThenParse(f: Sprintf, j: Json, format: bool, requireEnd: bool)
    requires Plain(f, j) && Height(j) <= 1000
    ensures var text := Render(f, j, format, 0);
            Parse(text, requireEnd) == Ok(Reread(f, j), |text|)
  {
    var d := Layout(f, j, format, 0);
    LayoutText(f, j, format, 0);
    LayoutValue(f, j, format, 0);
    ParsesSource(false, [], d, [], requireEnd);
    assert Source(false, [], d, []) == Text(d);
  }

  // ----- when it is the identity -----

  /** Every number in the tree is a double that one of the two texts for it denotes. */
  predicate Denoted(f: Sprintf, j: Json)
    decreases j
  {
    && (j.kind == Number ==> Reads15(f, j.num) || Reads17(f, j.num))
    && forall k | 0 <= k < |j.kids| :: Denoted(f, j.kids[k])
  }

  /** `print_number` writes the text that denotes the number. */
  predicate Survives(f: Sprintf, d: real) {
    Reads15(f, d) || !Near15(f, d)
  }

  /** An item as the parser leaves it, with numbers whose 15 digit text denotes them or is not kept. */
  predicate Canonical(f: Sprintf, j: Json, named: bool)
    decreases j
  {
    && TidyFields(j, named)
    && (j.kind == Number ==> Survives(f, j.num))
    && forall k | 0 <= k < |j.kids| :: Canonical(f, j.kids[k], j.kind == Object)
  }

  lemma {:induction false} RereadIdentity(f: Sprintf, j: Json, named: bool)
    requires j.kind != Invalid && j.kind != Raw && j.key.Some? == named
    requires Plain(f, j) && Denoted(f, j)
    ensures Canonical(f, j, named) <==> Reread(f, j).(key := j.key) == j
    decreases j, 1
  {
    hide RereadNumber, RereadElements, RereadMembers, NumberToken, NumberText, NoNul, Saturate, Reads15, Reads17,
      Near15;
    if j.kind == Number {
      NumberSurvives(f, j.num);
    }
    if j.kind == Array || j.kind == Object {
      RereadKids(f, j.kids, j.kind == Object);
    }
  }

  lemma {:induction false} RereadKids(f: Sprintf, kids: seq<Json>, named: bool)
    requires forall k | 0 <= k < |kids| :: Plain(f, kids[k]) && Denoted(f, kids[k])
    ensures (forall k | 0 <= k < |kids| :: Canonical(f, kids[k], named)) <==>
            (if named then RereadMembers(f, kids) else RereadElements(f, kids)) == kids
    decreases kids, 0
  {
    hide Canonical, Reread, Plain, Denoted, RereadMembers, RereadElements;
    if kids != [] {
      var first := kids[0];
      RereadKids(f, kids[1..], named);
      KeyOfReread(f, first, named);
      if first.key.Some? == named {
        PlainKind(f, first);
        RereadIdentity(f, first, named);
      } else {
        CanonicalKey(f, first, named);
      }
      RereadFirst(f, kids, named);
    }
  }

  /** The items read again are those there were exactly when the first and the rest are. */
  lemma {:induction false} RereadFirst(f: Sprintf, kids: seq<Json>, named: bool)
    requires kids != []
    ensures var r, rest := if named then RereadMembers(f, kids) else RereadElements(f, kids),
                           if named then RereadMembers(f, kids[1..]) else RereadElements(f, kids[1..]);
            && r[0] == (if named then Named(Reread(f, kids[0]), OrEmpty(kids[0].key)) else Reread(f, kids[0]))
            && (r == kids <==> r[0] == kids[0] && rest == kids[1..])
  {
    hide Reread;
    var r := if named then RereadMembers(f, kids) else RereadElements(f, kids);
    assert r[1..] == if named then RereadMembers(f, kids[1..]) else RereadElements(f, kids[1..]);
    assert r == [r[0]] + r[1..] && kids == [kids[0]] + kids[1..];
  }

  lemma {:induction false} PlainKind(f: Sprintf, j: Json)
    requires Plain(f, j)
    ensures j.kind != Invalid && j.kind != Raw
  {
  }

  lemma {:induction false} CanonicalKey(f: Sprintf, j: Json, named: bool)
    ensures Canonical(f, j, named) ==> j.key.Some? == named
  {
  }

  lemma {:induction false} KeyOfReread(f: Sprintf, j: Json, named: bool)
    ensures Reread(f, j).key == None
    ensures named && j.key.Some? ==> Named(Reread(f, j), OrEmpty(j.key)) == Reread(f, j).(key := j.key)
    ensures Reread(f, j).(key := None) == Reread(f, j)
  {
  }

  /**
   Printing and parsing a tree of doubles is the identity if and only if the tree is as the
   parser leaves trees and each number's 15 digit text denotes it or does not compare equal.
   */
  lemma {:induction false} PrintThenParseIdentity(f: Sprintf, j: Json, format: bool, requireEnd: bool)
    requires Plain(f, j) && Denoted(f, j) && Height(j) <= 1000 && j.key == None
    ensures var text := Render(f, j, format, 0);
            Parse(text, requireEnd) == Ok(j, |text|) <==> Canonical(f, j, false)
  {
    hide Parse, Render, Canonical, Reread, Plain, Height, Denoted;
    PrintThenParse(f, j, format, requireEnd);
    PlainKind(f, j);
    RereadIdentity(f, j, false);
    KeyOfReread(f, j, false);
  }
}
