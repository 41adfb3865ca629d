/**
 The formatted text without the printer: the compact text with line feeds, tabs and spaces
 put in by a scan of its characters that knows nothing of trees.
 */
module Indentation {
  import opened Bytes
  import opened Numbers
  import opened JsonStrings
  import opened Json
  import opened JsonGrammar
  import opened JsonRender
  import opened RoundTrip

  function Code(c: char): byte
    requires c < 128 as char
  {
    c as int
  }

  /** A line feed and `n` tabs. */
  function NewLine(n: nat): bytes {
    [Code('\n')] + seq(n, _ => Code('\t'))
  }

  /** How many bytes of `s`, which starts inside a string literal, belong to it, with the closing quote. */
  function Literal(s: bytes): (n: nat)
    ensures n <= |s|
  {
    if s == [] then 0
    else if s[0] == Code('"') then 1
    else if s[0] == Code('\\') && |s| > 1 then 2 + Literal(s[2..])
    else 1 + Literal(s[1..])
  }

  function Outer(open: seq<bool>): seq<bool> {
    if open == [] then [] else open[..|open| - 1]
  }

  predicate InObject(open: seq<bool>) {
    open != [] && open[|open| - 1]
  }

  /**
   The layout of a compact text: `open` says of each open bracket whether it is a brace.  A brace
   opens a line for each member and one for its closing; a line starts with a tab for every
   bracket that is open; a tab follows a colon and a space a comma between elements.
   */
  function Indent(s: bytes, open: seq<bool>): bytes
    decreases |s|
  {
    if s == [] then []
    else if s[0] == Code('"') then
      var n := 1 + Literal(s[1..]);
      s[..n] + Indent(s[n..], open)
    else if s[0] == Code('{') then
      if |s| > 1 && s[1] == Code('}') then [Code('{')] + NewLine(|open|) + [Code('}')] + Indent(s[2..], open)
      else [Code('{')] + NewLine(|open| + 1) + Indent(s[1..], open + [true])
    else if s[0] == Code('}') then NewLine(|Outer(open)|) + [Code('}')] + Indent(s[1..], Outer(open))
    else if s[0] == Code('[') then [Code('[')] + Indent(s[1..], open + [false])
    else if s[0] == Code(']') then [Code(']')] + Indent(s[1..], Outer(open))
    else if s[0] == Code(',') then
      [Code(',')] + (if InObject(open) then NewLine(|open|) else [Code(' ')]) + Indent(s[1..], open)
    else if s[0] == Code(':') then [Code(':'), Code('\t')] + Indent(s[1..], open)
    else [s[0]] + Indent(s[1..], open)
  }

  /** A byte the scan copies. */
  predicate Inert(b: byte) {
    b != Code('"') && b != Code('{') && b != Code('}') && b != Code('[') && b != Code(']') && b != Code(',') &&
    b != Code(':')
  }

  // ----- the scan, one token at a time -----

  lemma {:induction false} ScanByte(b: byte, x: bytes, open: seq<bool>)
    requires Inert(b)
    ensures Indent([b] + x, open) == [b] + Indent(x, open)
  {
    assert ([b] + x)[1..] == x;
  }

  lemma {:induction false} ScanInert(p: bytes, x: bytes, open: seq<bool>)
    requires forall k | 0 <= k < |p| :: Inert(p[k])
    ensures Indent(p + x, open) == p + Indent(x, open)
  {
    hide Indent, Inert;
    if p == [] {
      assert [] + x == x;
      assert [] + Indent(x, open) == Indent(x, open);
    } else {
      assert p + x == [p[0]] + (p[1..] + x);
      ScanByte(p[0], p[1..] + x, open);
      ScanInert(p[1..], x, open);
      assert p == [p[0]] + p[1..];
    }
  }

  lemma {:induction false} ScanArray(x: bytes, open: seq<bool>)
    ensures Indent([LBRACKET] + x, open) == [LBRACKET] + Indent(x, open + [false])
    ensures Indent([RBRACKET] + x, open) == [RBRACKET] + Indent(x, Outer(open))
  {
    assert ([LBRACKET] + x)[1..] == x && ([RBRACKET] + x)[1..] == x;
  }

  lemma {:induction false} ScanOpen(x: bytes, open: seq<bool>)
    ensures x != [] && x[0] != RBRACE ==>
              Indent([LBRACE] + x, open) == [LBRACE] + NewLine(|open| + 1) + Indent(x, open + [true])
    ensures Indent([LBRACE, RBRACE] + x, open) == [LBRACE] + NewLine(|open|) + [RBRACE] + Indent(x, open)
  {
    assert ([LBRACE] + x)[1..] == x && ([LBRACE, RBRACE] + x)[2..] == x;
  }

  lemma {:induction false} ScanClose(x: bytes, open: seq<bool>)
    ensures Indent([RBRACE] + x, open) == NewLine(|Outer(open)|) + [RBRACE] + Indent(x, Outer(open))
  {
    assert ([RBRACE] + x)[1..] == x;
  }

  lemma {:induction false} ScanComma(x: bytes, open: seq<bool>)
    ensures Indent([COMMA] + x, open) ==
            [COMMA] + (if InObject(open) then NewLine(|open|) else [SPACE]) + Indent(x, open)
  {
    assert ([COMMA] + x)[1..] == x;
  }

  lemma {:induction false} ScanColon(x: bytes, open: seq<bool>)
    ensures Indent([COLON] + x, open) == [COLON, TAB] + Indent(x, open)
  {
    assert ([COLON] + x)[1..] == x;
  }

  /** A printed byte inside a literal. */
  lemma {:induction false} LiteralByte(b: byte, x: bytes)
    requires x != []
    ensures Literal(EscapeByte(b) + x) == |EscapeByte(b)| + Literal(x)
  {
    hide EscapeByte;
    var e := EscapeByte(b);
    var s := e + x;
    EscapeShape(b);
    if |e| == 1 {
      assert s[1..] == x;
    } else {
      assert s[2..] == e[2..] + x;
      LiteralPlain(e[2..], x);
    }
  }

  /** A byte that ends no literal, or a backslash, any byte, and more of that kind. */
  lemma {:induction false} EscapeShape(b: byte)
    ensures var e := EscapeByte(b);
            && (|e| == 1 ==> e[0] != QUOTE && e[0] != BACKSLASH)
            && (|e| > 1 ==> e[0] == BACKSLASH && forall k | 2 <= k < |e| :: e[k] != QUOTE && e[k] != BACKSLASH)
  {
  }

  lemma {:induction false} LiteralPlain(p: bytes, x: bytes)
    requires forall k | 0 <= k < |p| :: p[k] != QUOTE && p[k] != BACKSLASH
    ensures Literal(p + x) == |p| + Literal(x)
  {
    if p == [] {
      assert p + x == x;
    } else {
      assert (p + x)[1..] == p[1..] + x;
      LiteralPlain(p[1..], x);
    }
  }

  lemma {:induction false} LiteralText(s: bytes, x: bytes)
    ensures Literal(EscapeText(s) + ([QUOTE] + x)) == |EscapeText(s)| + 1
  {
    hide Literal, EscapeByte;
    if s == [] {
      assert EscapeText(s) + ([QUOTE] + x) == [QUOTE] + x;
      LiteralEnd(x);
    } else {
      var y := EscapeText(s[1..]) + ([QUOTE] + x);
      assert EscapeText(s) + ([QUOTE] + x) == EscapeByte(s[0]) + y;
      LiteralByte(s[0], y);
      LiteralText(s[1..], x);
    }
  }

  lemma {:induction false} LiteralEnd(x: bytes)
    ensures Literal([QUOTE] + x) == 1
  {
  }

  lemma {:induction false} ScanString(s: Option<bytes>, x: bytes, open: seq<bool>)
    ensures Indent(StringText(s) + x, open) == StringText(s) + Indent(x, open)
  {
    hide Literal, EscapeText;
    var t := EscapeText(OrEmpty(s));
    var all := StringText(s) + x;
    assert all[0] == QUOTE;
    assert all[1..] == t + ([QUOTE] + x);
    LiteralText(OrEmpty(s), x);
    assert all[..|t| + 2] == StringText(s) && all[|t| + 2..] == x;
  }

  // ----- the printed tree -----

  lemma {:induction false} Assoc(a: bytes, b: bytes, c: bytes)
    ensures a + (b + c) == a + b + c
  {
  }

  lemma {:induction false} Assoc4(a: bytes, b: bytes, c: bytes, d: bytes)
    ensures a + b + c + d == a + (b + (c + d))
  {
  }

  lemma {:induction false} IndentWord(f: Sprintf, j: Json, x: bytes, open: seq<bool>)
    requires Plain(f, j) && j.kind != Array && j.kind != Object
    ensures forall format, depth :: Render(f, j, format, depth) == Render(f, j, false, 0)
    ensures Indent(Render(f, j, false, 0) + x, open) == Render(f, j, false, 0) + Indent(x, open)
  {
    hide Indent, Literal, EscapeText, NumberText, Strtod, StringText;
    if j.kind == String {
      ScanString(j.str, x, open);
    } else {
      ScanInert(Render(f, j, false, 0), x, open);
    }
  }

  /** The text of an item, whatever comes after it. */
  lemma {:induction false} IndentItem(f: Sprintf, j: Json, x: bytes, open: seq<bool>)
    requires Plain(f, j)
    ensures Indent(Render(f, j, false, |open|) + x, open) == Render(f, j, true, |open|) + Indent(x, open)
    decreases j, 1
  {
    hide Indent, RenderElements, RenderMembers, TabsWhen, NumberToken, NumberText, StringText, NoNul;
    if j.kind == Array {
      var inner := open + [false];
      IndentElements(f, j.kids, x, inner);
      ArrayText(f, j, false, |open|, x);
      ArrayText(f, j, true, |open|, Indent(x, open));
      ScanArray(RenderElements(f, j.kids, false, |inner|) + ([RBRACKET] + x), open);
      assert Outer(inner) == open;
    } else if j.kind == Object {
      IndentObject(f, j, x, open);
    } else {
      IndentWord(f, j, x, open);
    }
  }

  lemma {:induction false} ArrayText(f: Sprintf, j: Json, format: bool, depth: nat, x: bytes)
    requires j.kind == Array
    ensures Render(f, j, format, depth) + x ==
            [LBRACKET] + (RenderElements(f, j.kids, format, depth + 1) + ([RBRACKET] + x))
  {
    hide RenderElements;
    Assoc4([LBRACKET], RenderElements(f, j.kids, format, depth + 1), [RBRACKET], x);
  }

  lemma {:induction false} ObjectText(f: Sprintf, j: Json, format: bool, depth: nat, x: bytes)
    requires j.kind == Object
    ensures Render(f, j, format, depth) + x ==
            [LBRACE] + When(format, LF) +
            (RenderMembers(f, j.kids, format, depth + 1) + (TabsWhen(format, depth) + ([RBRACE] + x)))
  {
    hide RenderMembers, TabsWhen, When;
    var a, b := [LBRACE] + When(format, LF), RenderMembers(f, j.kids, format, depth + 1);
    assert a + b + TabsWhen(format, depth) + [RBRACE] + x == a + (b + (TabsWhen(format, depth) + ([RBRACE] + x)));
  }

  lemma {:induction false} IndentObject(f: Sprintf, j: Json, x: bytes, open: seq<bool>)
    requires Plain(f, j) && j.kind == Object
    ensures Indent(Render(f, j, false, |open|) + x, open) == Render(f, j, true, |open|) + Indent(x, open)
    decreases j, 0
  {
    hide Indent, RenderElements, RenderMembers, NumberToken, NumberText, StringText, NoNul, Render, Tabs, Plain;
    ObjectText(f, j, false, |open|, x);
    ObjectText(f, j, true, |open|, Indent(x, open));
    var inner := open + [true];
    assert Outer(inner) == open;
    if j.kids == [] {
      NoMembers(f, |inner|);
      ScanOpen(x, open);
      assert [LBRACE] + [] + ([] + ([] + ([RBRACE] + x))) == [LBRACE, RBRACE] + x;
      BraceLine(|open|, Indent(x, open));
    } else {
      var rest := RenderMembers(f, j.kids, false, |inner|) + ([RBRACE] + x);
      assert [LBRACE] + [] + (RenderMembers(f, j.kids, false, |inner|) + ([] + ([RBRACE] + x))) == [LBRACE] + rest;
      PlainKids(f, j);
      MembersStart(f, j.kids, |inner|, [RBRACE] + x);
      ScanOpen(rest, open);
      IndentMembers(f, j.kids, x, inner);
      OpenLine(|inner|, Indent(rest, inner));
    }
  }

  lemma {:induction false} PlainKids(f: Sprintf, j: Json)
    requires Plain(f, j) && j.kind == Object
    ensures forall k | 0 <= k < |j.kids| :: Plain(f, j.kids[k])
  {
  }

  lemma {:induction false} NoMembers(f: Sprintf, depth: nat)
    ensures RenderMembers(f, [], false, depth) == [] && RenderMembers(f, [], true, depth) == []
  {
  }

  /** The same line by the two accounts. */
  lemma {:induction false} NewLineIs(n: nat)
    ensures NewLine(n) == [LF] + Tabs(n)
  {
  }

  lemma {:induction false} BraceLine(n: nat, y: bytes)
    ensures [LBRACE] + NewLine(n) + [RBRACE] + y == [LBRACE] + [LF] + ([] + (Tabs(n) + ([RBRACE] + y)))
  {
    hide Tabs, NewLine;
    NewLineIs(n);
  }

  lemma {:induction false} OpenLine(n: nat, y: bytes)
    ensures [LBRACE] + NewLine(n) + y == [LBRACE] + [LF] + (Tabs(n) + y)
  {
    hide Tabs, NewLine;
    NewLineIs(n);
  }

  lemma {:induction false} MembersStart(f: Sprintf, kids: seq<Json>, depth: nat, x: bytes)
    requires kids != []
    ensures var s := RenderMembers(f, kids, false, depth) + x; s != [] && s[0] == QUOTE
  {
    hide Render;
  }

  /** Elements up to the closing bracket. */
  lemma {:induction false} IndentElements(f: Sprintf, kids: seq<Json>, x: bytes, open: seq<bool>)
    requires (forall k | 0 <= k < |kids| :: Plain(f, kids[k])) && open != [] && !open[|open| - 1]
    ensures Indent(RenderElements(f, kids, false, |open|) + ([RBRACKET] + x), open) ==
            RenderElements(f, kids, true, |open|) + ([RBRACKET] + Indent(x, Outer(open)))
    decreases kids, 0
  {
    hide Indent, RenderElements, Render, Plain, ElementGap;
    ElementsText(f, kids, false, |open|, [RBRACKET] + x);
    ElementsText(f, kids, true, |open|, [RBRACKET] + Indent(x, Outer(open)));
    if kids == [] {
      ScanArray(x, open);
    } else {
      var rest := RenderElements(f, kids[1..], false, |open|) + ([RBRACKET] + x);
      IndentElements(f, kids[1..], x, open);
      IndentGap(rest, open, |kids| > 1);
      IndentItem(f, kids[0], ElementGap(false, |kids| > 1) + rest, open);
    }
  }

  lemma {:induction false} IndentGap(rest: bytes, open: seq<bool>, more: bool)
    requires open != [] && !open[|open| - 1]
    ensures Indent(ElementGap(false, more) + rest, open) == ElementGap(true, more) + Indent(rest, open)
  {
    hide Indent;
    if more {
      ScanComma(rest, open);
      assert [COMMA] + [] + rest == [COMMA] + rest;
    } else {
      assert [] + rest == rest && [] + Indent(rest, open) == Indent(rest, open);
    }
  }

  lemma {:induction false} ElementsText(f: Sprintf, kids: seq<Json>, format: bool, depth: nat, x: bytes)
    ensures RenderElements(f, kids, format, depth) + x ==
            if kids == [] then x
            else
              Render(f, kids[0], format, depth) +
              (ElementGap(format, |kids| > 1) + (RenderElements(f, kids[1..], format, depth) + x))
  {
    hide Render, ElementGap;
    if kids == [] {
      assert [] + x == x;
    } else {
      Assoc4(Render(f, kids[0], format, depth), ElementGap(format, |kids| > 1),
             RenderElements(f, kids[1..], format, depth), x);
    }
  }

  /** Members up to the closing brace; the tabs before the first one are there already. */
  lemma {:induction false} IndentMembers(f: Sprintf, kids: seq<Json>, x: bytes, open: seq<bool>)
    requires (forall k | 0 <= k < |kids| :: Plain(f, kids[k])) && kids != [] && InObject(open)
    ensures Tabs(|open|) + Indent(RenderMembers(f, kids, false, |open|) + ([RBRACE] + x), open) ==
            RenderMembers(f, kids, true, |open|) + (Tabs(|open| - 1) + ([RBRACE] + Indent(x, Outer(open))))
    decreases kids, 1
  {
    hide Indent, RenderMembers, Render, Plain, Tabs, StringText, NewLine;
    var y := Tabs(|open| - 1) + ([RBRACE] + Indent(x, Outer(open)));
    MembersText(f, kids, false, |open|, [RBRACE] + x);
    MembersText(f, kids, true, |open|, y);
    var rest := RenderMembers(f, kids[1..], false, |open|) + ([RBRACE] + x);
    var tail := MemberGap(false, |kids| > 1) + rest;
    IndentTail(f, kids, x, open);
    IndentItem(f, kids[0], tail, open);
    IndentName(kids[0].key, Render(f, kids[0], false, |open|) + tail, open);
    NameLine(kids[0].key, |open|, Render(f, kids[0], true, |open|) + Indent(tail, open));
  }

  /** What comes after a member: a comma and the next one, or the closing brace. */
  lemma {:induction false} IndentTail(f: Sprintf, kids: seq<Json>, x: bytes, open: seq<bool>)
    requires (forall k | 0 <= k < |kids| :: Plain(f, kids[k])) && kids != [] && InObject(open)
    ensures var rest := RenderMembers(f, kids[1..], false, |open|) + ([RBRACE] + x);
            Indent(MemberGap(false, |kids| > 1) + rest, open) ==
            MemberGap(true, |kids| > 1) +
            (RenderMembers(f, kids[1..], true, |open|) + (Tabs(|open| - 1) + ([RBRACE] + Indent(x, Outer(open)))))
    decreases kids, 0
  {
    hide Indent, RenderMembers, Render, Plain, Tabs, NewLine;
    var y := Tabs(|open| - 1) + ([RBRACE] + Indent(x, Outer(open)));
    var rest := RenderMembers(f, kids[1..], false, |open|) + ([RBRACE] + x);
    if |kids| > 1 {
      IndentMembers(f, kids[1..], x, open);
      ScanComma(rest, open);
      assert [COMMA] + [] + rest == [COMMA] + rest;
      NewLineIs(|open|);
      var t := Indent(rest, open);
      assert [COMMA] + ([LF] + Tabs(|open|)) + t == [COMMA] + [LF] + (Tabs(|open|) + t);
    } else {
      NoMembers(f, |open|);
      assert [] + [] + ([] + ([RBRACE] + x)) == [RBRACE] + x;
      ScanClose(x, open);
      NewLineIs(|open| - 1);
      assert [LF] + Tabs(|open| - 1) + [RBRACE] + Indent(x, Outer(open)) == [] + [LF] + ([] + y);
    }
  }

  lemma {:induction false} IndentName(key: Option<bytes>, x: bytes, open: seq<bool>)
    ensures Indent(MemberHead(key, false, |open|) + x, open) == StringText(key) + ([COLON, TAB] + Indent(x, open))
  {
    hide Indent, StringText;
    assert MemberHead(key, false, |open|) + x == StringText(key) + ([COLON] + x);
    ScanString(key, [COLON] + x, open);
    ScanColon(x, open);
  }

  lemma {:induction false} NameLine(key: Option<bytes>, depth: nat, y: bytes)
    ensures Tabs(depth) + (StringText(key) + ([COLON, TAB] + y)) == MemberHead(key, true, depth) + y
  {
    hide StringText, Tabs;
  }

  lemma {:induction false} MembersText(f: Sprintf, kids: seq<Json>, format: bool, depth: nat, x: bytes)
    requires kids != []
    ensures RenderMembers(f, kids, format, depth) + x ==
            MemberHead(kids[0].key, format, depth) +
            (Render(f, kids[0], format, depth) +
             (MemberGap(format, |kids| > 1) + (RenderMembers(f, kids[1..], format, depth) + x)))
  {
    hide Render, MemberGap, MemberHead;
    var a, b := MemberHead(kids[0].key, format, depth), Render(f, kids[0], format, depth);
    var c, d := MemberGap(format, |kids| > 1), RenderMembers(f, kids[1..], format, depth);
    assert a + b + c + d + x == a + (b + (c + (d + x)));
  }

  /** The formatted text is the compact one laid out by its characters. */
  lemma {:induction false} FormattedIsIndented(f: Sprintf, j: Json)
    requires Plain(f, j)
    ensures Render(f, j, true, 0) == Indent(Render(f, j, false, 0), [])
  {
    hide Indent, Render, Plain;
    IndentItem(f, j, [], []);
    NothingIndented();
    assert Render(f, j, true, 0) + [] == Render(f, j, true, 0);
    assert Render(f, j, false, 0) + [] == Render(f, j, false, 0);
  }

  lemma {:induction false} NothingIndented()
    ensures Indent([], []) == []
  {
  }

  // ----- the compact text -----

  /** No blank outside string literals. */
  predicate Solid(s: bytes)
    decreases |s|
  {
    s == [] || if s[0] == Code('"') then Solid(s[1 + Literal(s[1..])..]) else s[0] > 32 && Solid(s[1..])
  }

  lemma {:induction false} SolidToken(p: bytes, x: bytes)
    requires forall k | 0 <= k < |p| :: p[k] > SPACE && p[k] != QUOTE
    ensures Solid(p + x) == Solid(x)
  {
    if p == [] {
      assert [] + x == x;
    } else {
      assert (p + x)[1..] == p[1..] + x;
      SolidToken(p[1..], x);
    }
  }

  lemma {:induction false} SolidString(s: Option<bytes>, x: bytes)
    ensures Solid(StringText(s) + x) == Solid(x)
  {
    hide Literal, EscapeText;
    var t := EscapeText(OrEmpty(s));
    var all := StringText(s) + x;
    assert all[0] == QUOTE && all[1..] == t + ([QUOTE] + x);
    LiteralText(OrEmpty(s), x);
    assert all[|t| + 2..] == x;
  }

  lemma {:induction false} SolidItem(f: Sprintf, j: Json, depth: nat, x: bytes)
    requires Plain(f, j)
    ensures Solid(Render(f, j, false, depth) + x) == Solid(x)
    decreases j
  {
    hide Solid, RenderElements, RenderMembers, NumberText, Strtod, StringText, EscapeText, NoNul;
    if j.kind == Array {
      ArrayText(f, j, false, depth, x);
      SolidToken([LBRACKET], RenderElements(f, j.kids, false, depth + 1) + ([RBRACKET] + x));
      SolidElements(f, j.kids, depth + 1, [RBRACKET] + x);
      SolidToken([RBRACKET], x);
    } else if j.kind == Object {
      ObjectText(f, j, false, depth, x);
      SolidObject(f, j, depth, x);
    } else if j.kind == String {
      SolidString(j.str, x);
    } else {
      SolidToken(Render(f, j, false, depth), x);
    }
  }

  lemma {:induction false} SolidObject(f: Sprintf, j: Json, depth: nat, x: bytes)
    requires Plain(f, j) && j.kind == Object
    ensures Solid(Render(f, j, false, depth) + x) == Solid(x)
    decreases j, 0
  {
    hide Solid, RenderMembers, Render, Plain;
    PlainKids(f, j);
    ObjectText(f, j, false, depth, x);
    var rest := RenderMembers(f, j.kids, false, depth + 1) + ([RBRACE] + x);
    assert [LBRACE] + [] + (RenderMembers(f, j.kids, false, depth + 1) + ([] + ([RBRACE] + x))) == [LBRACE] + rest;
    SolidToken([LBRACE], rest);
    SolidMembers(f, j.kids, depth + 1, [RBRACE] + x);
    SolidToken([RBRACE], x);
  }

  lemma {:induction false} SolidElements(f: Sprintf, kids: seq<Json>, depth: nat, x: bytes)
    requires forall k | 0 <= k < |kids| :: Plain(f, kids[k])
    ensures Solid(RenderElements(f, kids, false, depth) + x) == Solid(x)
    decreases kids
  {
    hide Solid, RenderElements, Render, Plain;
    ElementsText(f, kids, false, depth, x);
    if kids != [] {
      var rest := RenderElements(f, kids[1..], false, depth) + x;
      SolidElements(f, kids[1..], depth, x);
      SolidToken(ElementGap(false, |kids| > 1), rest);
      SolidItem(f, kids[0], depth, ElementGap(false, |kids| > 1) + rest);
    }
  }

  lemma {:induction false} SolidMembers(f: Sprintf, kids: seq<Json>, depth: nat, x: bytes)
    requires forall k | 0 <= k < |kids| :: Plain(f, kids[k])
    ensures Solid(RenderMembers(f, kids, false, depth) + x) == Solid(x)
    decreases kids
  {
    hide Solid, RenderMembers, Render, Plain, StringText;
    if kids != [] {
      MembersText(f, kids, false, depth, x);
      var rest := RenderMembers(f, kids[1..], false, depth) + x;
      var tail := MemberGap(false, |kids| > 1) + rest;
      SolidMembers(f, kids[1..], depth, x);
      SolidToken(MemberGap(false, |kids| > 1), rest);
      SolidItem(f, kids[0], depth, tail);
      var y := Render(f, kids[0], false, depth) + tail;
      assert MemberHead(kids[0].key, false, depth) + y == StringText(kids[0].key) + ([COLON] + y);
      SolidString(kids[0].key, [COLON] + y);
      SolidToken([COLON], y);
    } else {
      NoMembers(f, depth);
      assert [] + x == x;
    }
  }

  /** The compact text has no blank outside its string literals. */
  lemma {:induction false} CompactIsSolid(f: Sprintf, j: Json)
    requires Plain(f, j)
    ensures Solid(Render(f, j, false, 0))
  {
    hide Render, Plain;
    SolidItem(f, j, 0, []);
    assert Render(f, j, false, 0) + [] == Render(f, j, false, 0);
  }
}
