/** When `cJSON_Minify` turns the formatted print of a tree into its unformatted print. */
module MinifyPrint {
  import opened Bytes
  import opened Numbers
  import opened JsonStrings
  import opened Json
  import opened JsonGrammar
  import opened JsonRender
  import opened RoundTrip
  import opened Minify

  // ----- the condition -----

  /** A string after whose text the minifier takes the closing quote for one. */
  predicate Closes(s: Option<bytes>) {
    s.Some? && s.value != [] ==> s.value[|s.value| - 1] != BACKSLASH
  }

  /** No printed string or name in the tree ends in a backslash. */
  predicate Clean(j: Json)
    decreases j
  {
    match j.kind
    case String => Closes(j.str)
    case Array => forall k | 0 <= k < |j.kids| :: Clean(j.kids[k])
    case Object => forall k | 0 <= k < |j.kids| :: Closes(j.kids[k].key) && Clean(j.kids[k])
    case _ => true
  }

  /** The same, but for the last string of the text, when only closing brackets of arrays follow it. */
  predicate Minifies(j: Json)
    decreases j
  {
    match j.kind
    case Array => forall k | 0 <= k < |j.kids| :: if k < |j.kids| - 1 then Clean(j.kids[k]) else Minifies(j.kids[k])
    case Object => Clean(j)
    case _ => true
  }

  // ----- pieces of text -----

  lemma {:induction false} MinifiesBlanks(w: bytes, x: bytes)
    requires forall k | 0 <= k < |w| :: Dropped(w[k])
    ensures Minified(w + x) == Minified(x)
  {
    hide Minified;
    if w == [] {
      assert w + x == x;
    } else {
      assert w + x == [w[0]] + (w[1..] + x);
      Starts(w[0], w[1..] + x);
      MinifiesBlanks(w[1..], x);
    }
  }

  lemma {:induction false} MinifiesPlain(p: bytes, x: bytes)
    requires forall k | 0 <= k < |p| :: p[k] != QUOTE && p[k] != SLASH && !Dropped(p[k])
    ensures Minified(p + x) == p + Minified(x)
  {
    hide Minified;
    if p == [] {
      assert p + x == x;
    } else {
      assert p + x == [p[0]] + (p[1..] + x);
      Starts(p[0], p[1..] + x);
      MinifiesPlain(p[1..], x);
    }
  }

  /** Text inside a string that has no quote of its own. */
  lemma {:induction false} CopiesPlain(p: bytes, x: bytes)
    requires forall k | 0 <= k < |p| :: p[k] != QUOTE
    requires p != [] && x != [] ==> p[|p| - 1] != BACKSLASH || x[0] != QUOTE
    ensures Copied(p + x) == p + Copied(x)
  {
    hide Copied;
    if p == [] {
      assert p + x == x;
    } else {
      assert p + x == [p[0]] + (p[1..] + x);
      Starts(p[0], p[1..] + x);
      CopiesPlain(p[1..], x);
    }
  }

  lemma {:induction false} CopiesByte(b: byte, x: bytes)
    requires b != NUL && (b == BACKSLASH ==> x == [] || x[0] != QUOTE)
    ensures Copied(EscapeByte(b) + x) == EscapeByte(b) + Copied(x)
  {
    hide Copied;
    if b == QUOTE {
      StartsEscaped(x);
    } else {
      CopiesPlain(EscapeByte(b), x);
    }
  }

  /** The rest of a string literal: its quote ends it unless the string ends in a backslash. */
  lemma {:induction false} CopiesString(s: bytes, x: bytes)
    requires NoNul(s)
    ensures Copied(EscapeText(s) + [QUOTE] + x) ==
            EscapeText(s) + [QUOTE] + (if Closes(Some(s)) then Minified(x) else Copied(x))
    decreases |s|
  {
    hide Copied, Minified, EscapeByte, EscapeText;
    if s == [] {
      EscapesNothing();
      assert [] + [QUOTE] + x == [QUOTE] + x;
      Starts(QUOTE, x);
    } else {
      EscapesFirst(s);
      var b, y := s[0], EscapeText(s[1..]) + [QUOTE] + x;
      assert EscapeText(s) + [QUOTE] + x == EscapeByte(b) + y;
      CopiesString(s[1..], x);
      if b == BACKSLASH && |s| == 1 {
        EscapesNothing();
        BackslashCloses(x);
      } else {
        NoQuoteFirst(s[1..], x);
        CopiesByte(b, y);
      }
    }
  }

  lemma {:induction false} EscapesNothing()
    ensures EscapeText([]) == []
  {
  }

  lemma {:induction false} EscapesFirst(s: bytes)
    requires s != []
    ensures EscapeText(s) == EscapeByte(s[0]) + EscapeText(s[1..])
  {
  }

  /** An escaped backslash before the closing quote: the quote is taken for an escaped one. */
  lemma {:induction false} BackslashCloses(x: bytes)
    ensures Copied(EscapeByte(BACKSLASH) + ([] + [QUOTE] + x)) == EscapeByte(BACKSLASH) + [QUOTE] + Copied(x)
  {
    hide Copied;
    var t: bytes := [BACKSLASH, QUOTE] + x;
    assert EscapeByte(BACKSLASH) + ([] + [QUOTE] + x) == [BACKSLASH] + t;
    Starts(BACKSLASH, t);
    StartsEscaped(x);
  }

  lemma {:induction false} NoQuoteFirst(s: bytes, x: bytes)
    ensures s != [] ==> (EscapeText(s) + [QUOTE] + x)[0] != QUOTE
  {
  }

  lemma {:induction false} MinifiesString(s: Option<bytes>, x: bytes)
    requires NoNulOption(s)
    ensures Minified(StringText(s) + x) == StringText(s) + (if Closes(s) then Minified(x) else Copied(x))
  {
    hide Copied, Minified, EscapeText;
    var t := OrEmpty(s);
    CopiesString(t, x);
    assert StringText(s) + x == [QUOTE] + (EscapeText(t) + [QUOTE] + x);
    Starts(QUOTE, EscapeText(t) + [QUOTE] + x);
  }

  // ----- the two prints of a tree -----

  predicate Differ(u: bytes, v: bytes) {
    exists i :: 0 <= i < |u| && i < |v| && u[i] != v[i]
  }

  lemma {:induction false} DifferAfter(p: bytes, u: bytes, v: bytes)
    requires Differ(u, v)
    ensures Differ(p + u, p + v)
  {
    var i :| 0 <= i < |u| && i < |v| && u[i] != v[i];
    assert (p + u)[|p| + i] == u[i] && (p + v)[|p| + i] == v[i];
  }

  /**
   How the minifier takes a formatted text `t` before `x`, compared with the unformatted `u`
   before any `y`: it gives `u` and goes on outside strings; or gives `u` and goes on inside
   one; or has already gone wrong.
   */
  predicate Outcome(t: bytes, u: bytes, x: bytes, y: bytes, clean: bool, fits: bool) {
    && (clean ==> Minified(t + x) == u + Minified(x))
    && (!clean && fits ==> Minified(t + x) == u + Copied(x))
    && (!fits ==> Differ(Minified(t + x), u + y))
  }

  /** An element, a comma with its space, and the rest of the elements. */
  lemma {:induction false} ElementThen(tk: bytes, uk: bytes, tr: bytes, ur: bytes, x: bytes, y: bytes,
                                       cleanK: bool, fitsK: bool, cleanR: bool, fitsR: bool)
    requires Outcome(tk, uk, [COMMA, SPACE] + (tr + x), [COMMA] + (ur + y), cleanK, fitsK)
    requires Outcome(tr, ur, x, y, cleanR, fitsR) && ur != [] && ur[0] != SPACE && (cleanR ==> fitsR)
    ensures Outcome(tk + [COMMA, SPACE] + tr, uk + [COMMA] + ur, x, y, cleanK && cleanR, cleanK && fitsR)
  {
    hide Minified, Copied;
    assert tk + [COMMA, SPACE] + tr + x == tk + ([COMMA, SPACE] + (tr + x));
    assert uk + [COMMA] + ur + y == uk + ([COMMA] + (ur + y)) == uk + [COMMA] + (ur + y);
    SpaceDropped(COMMA, SPACE, tr + x);
    if cleanK {
      if !fitsR {
        DifferAfter(uk + [COMMA], Minified(tr + x), ur + y);
      }
    } else if fitsK {
      StrayBlank(uk, [COMMA], SPACE, Copied(tr + x), ur + y);
    }
  }

  /** A separator and a blank, outside and inside strings. */
  lemma {:induction false} SpaceDropped(b: byte, w: byte, x: bytes)
    requires b == COMMA || b == COLON || b == LBRACE
    requires Dropped(w)
    ensures Minified([b, w] + x) == [b] + Minified(x)
    ensures Copied([b, w] + x) == [b] + ([w] + Copied(x))
  {
    hide Minified, Copied;
    assert [b, w] + x == [b] + ([w] + x);
    Starts(b, [w] + x);
    Starts(w, x);
  }

  /** A blank kept where the unformatted text has none. */
  lemma {:induction false} StrayBlank(p: bytes, sep: bytes, w: byte, u: bytes, v: bytes)
    requires v != [] && v[0] != w
    ensures Differ(p + (sep + ([w] + u)), p + sep + v)
  {
    assert (p + (sep + ([w] + u)))[|p| + |sep|] == w;
    assert (p + sep + v)[|p| + |sep|] == v[0];
  }

  lemma {:induction false} CleanMinifies(j: Json)
    requires Clean(j)
    ensures Minifies(j)
    decreases j
  {
    hide Closes;
    if j.kind == Array && j.kids != [] {
      CleanMinifies(j.kids[|j.kids| - 1]);
    }
  }

  /** The unformatted text of a tree starts with no blank. */
  lemma {:induction false} RenderFirst(f: Sprintf, j: Json, format: bool, depth: nat)
    requires Plain(f, j)
    ensures var t := Render(f, j, format, depth); t != [] && !IsBlank(t[0])
  {
    hide RenderElements, RenderMembers, NumberText, Strtod, EscapeText, NoNul;
  }

  predicate CleanElements(kids: seq<Json>) {
    forall k | 0 <= k < |kids| :: Clean(kids[k])
  }

  predicate TailMinifies(kids: seq<Json>) {
    forall k | 0 <= k < |kids| :: if k < |kids| - 1 then Clean(kids[k]) else Minifies(kids[k])
  }

  predicate CleanMembers(kids: seq<Json>) {
    forall k | 0 <= k < |kids| :: Closes(kids[k].key) && Clean(kids[k])
  }

  /** The conditions on a list, from its first item on. */
  lemma {:induction false} FirstKid(kids: seq<Json>)
    requires kids != []
    ensures CleanElements(kids) <==> Clean(kids[0]) && CleanElements(kids[1..])
    ensures TailMinifies(kids) <==>
            if |kids| == 1 then Minifies(kids[0]) else Clean(kids[0]) && TailMinifies(kids[1..])
    ensures CleanMembers(kids) <==> Closes(kids[0].key) && Clean(kids[0]) && CleanMembers(kids[1..])
    ensures CleanElements(kids) ==> TailMinifies(kids)
  {
    hide Closes, Clean, Minifies;
    assert kids == [kids[0]] + kids[1..];
    if CleanElements(kids) {
      CleanMinifies(kids[|kids| - 1]);
    }
  }

  /** A member's value, what separates it from the next, and the rest of the members. */
  lemma {:induction false} ValueThen(tk: bytes, uk: bytes, more: bool, tr: bytes, ur: bytes, x: bytes, y: bytes,
                                     cleanK: bool, fitsK: bool, cleanR: bool)
    requires Outcome(tk, uk, When(more, COMMA) + [LF] + (tr + x), When(more, COMMA) + (ur + y), cleanK, fitsK)
    requires Outcome(tr, ur, x, y, cleanR, cleanR) && ur + y != [] && (ur + y)[0] != LF
    ensures Outcome(tk + (When(more, COMMA) + [LF]) + tr, uk + When(more, COMMA) + ur, x, y,
                    cleanK && cleanR, cleanK && cleanR)
  {
    hide Minified, Copied;
    var comma := When(more, COMMA);
    assert tk + (comma + [LF]) + tr + x == tk + (comma + [LF] + (tr + x));
    assert uk + comma + ur + y == uk + (comma + (ur + y)) == uk + comma + (ur + y);
    GapDropped(more, tr + x);
    if cleanK {
      if !cleanR {
        DifferAfter(uk + comma, Minified(tr + x), ur + y);
      }
    } else if fitsK {
      StrayBlank(uk, comma, LF, Copied(tr + x), ur + y);
    }
  }

  lemma {:induction false} GapDropped(more: bool, x: bytes)
    ensures Minified(When(more, COMMA) + [LF] + x) == When(more, COMMA) + Minified(x)
    ensures Copied(When(more, COMMA) + [LF] + x) == When(more, COMMA) + ([LF] + Copied(x))
  {
    hide Minified, Copied;
    if more {
      SpaceDropped(COMMA, LF, x);
      assert When(more, COMMA) + [LF] + x == [COMMA, LF] + x;
    } else {
      Starts(LF, x);
      assert When(more, COMMA) + [LF] + x == [LF] + x;
    }
  }

  /** The name before it, with its indentation and colon. */
  lemma {:induction false} NameThen(key: Option<bytes>, depth: nat, t: bytes, u: bytes, x: bytes, y: bytes, clean: bool)
    requires NoNulOption(key) && Outcome(t, u, x, y, clean, clean) && u != [] && !IsBlank(u[0])
    ensures Outcome(MemberHead(key, true, depth) + t, MemberHead(key, false, depth) + u, x, y,
                    Closes(key) && clean, Closes(key) && clean)
  {
    hide Minified, Copied, StringText, Closes, Tabs;
    var name, z := StringText(key), t + x;
    assert MemberHead(key, true, depth) + t + x == Tabs(depth) + (name + ([COLON, TAB] + z));
    assert MemberHead(key, false, depth) + u == name + [COLON] + u;
    assert name + [COLON] + u + y == name + [COLON] + (u + y);
    MinifiesBlanks(Tabs(depth), name + ([COLON, TAB] + z));
    MinifiesString(key, [COLON, TAB] + z);
    SpaceDropped(COLON, TAB, z);
    if Closes(key) {
      assert name + ([COLON] + Minified(z)) == name + [COLON] + Minified(z);
      if !clean {
        DifferAfter(name + [COLON], Minified(z), u + y);
      }
    } else {
      StrayBlank(name, [COLON], TAB, Copied(z), u + y);
    }
  }

  /** What the minifier makes of the formatted text of a tree, whatever follows it. */
  lemma {:induction false} MinifiesRender(f: Sprintf, j: Json, depth: nat, x: bytes, y: bytes)
    requires Plain(f, j)
    ensures Outcome(Render(f, j, true, depth), Render(f, j, false, depth), x, y, Clean(j), Minifies(j))
    decreases j, 1
  {
    hide Minified, Copied, StringText, Closes, NumberText, NumberToken, NoNul, RenderElements, RenderMembers, Outcome;
    match j.kind {
      case String => StringOutcome(j.str, x, y);
      case Array => ArrayOutcome(f, j, depth, x, y);
      case Object => ObjectOutcome(f, j, depth, x, y);
      case _ => ScalarOutcome(f, j, depth, x, y);
    }
  }

  lemma {:induction false} StringOutcome(s: Option<bytes>, x: bytes, y: bytes)
    requires NoNulOption(s)
    ensures Outcome(StringText(s), StringText(s), x, y, Closes(s), true)
  {
    hide Minified, Copied, StringText, Closes;
    MinifiesString(s, x);
  }

  lemma {:induction false} ScalarOutcome(f: Sprintf, j: Json, depth: nat, x: bytes, y: bytes)
    requires Plain(f, j) && j.kind != String && j.kind != Array && j.kind != Object
    ensures Outcome(Render(f, j, true, depth), Render(f, j, false, depth), x, y, Clean(j), Minifies(j))
  {
    hide Minified, Copied, Strtod, NumberText;
    MinifiesPlain(Render(f, j, true, depth), x);
  }

  lemma {:induction false} ArrayOutcome(f: Sprintf, j: Json, depth: nat, x: bytes, y: bytes)
    requires Plain(f, j) && j.kind == Array
    ensures Outcome(Render(f, j, true, depth), Render(f, j, false, depth), x, y, Clean(j), Minifies(j))
    decreases j.kids, 2
  {
    hide Minified, Copied, RenderElements, Clean, Minifies;
    var t, u := RenderElements(f, j.kids, true, depth + 1), RenderElements(f, j.kids, false, depth + 1);
    MinifiesElements(f, j.kids, depth + 1, [RBRACKET] + x, [RBRACKET] + y);
    ArrayClean(j);
    InBrackets(t, u, x, y, Clean(j), Minifies(j));
  }

  lemma {:induction false} ArrayClean(j: Json)
    requires j.kind == Array
    ensures Clean(j) == CleanElements(j.kids) && Minifies(j) == TailMinifies(j.kids)
  {
    hide Closes;
  }

  lemma {:induction false} InBrackets(t: bytes, u: bytes, x: bytes, y: bytes, clean: bool, fits: bool)
    requires Outcome(t, u, [RBRACKET] + x, [RBRACKET] + y, clean, fits)
    ensures Outcome([LBRACKET] + t + [RBRACKET], [LBRACKET] + u + [RBRACKET], x, y, clean, fits)
  {
    hide Minified, Copied;
    assert [LBRACKET] + t + [RBRACKET] + x == [LBRACKET] + (t + ([RBRACKET] + x));
    assert [LBRACKET] + u + [RBRACKET] + y == [LBRACKET] + (u + ([RBRACKET] + y));
    Starts(LBRACKET, t + ([RBRACKET] + x));
    Starts(RBRACKET, x);
    if !fits {
      DifferAfter([LBRACKET], Minified(t + ([RBRACKET] + x)), u + ([RBRACKET] + y));
    }
  }

  lemma {:induction false} MinifiesElements(f: Sprintf, kids: seq<Json>, depth: nat, x: bytes, y: bytes)
    requires forall k | 0 <= k < |kids| :: Plain(f, kids[k])
    ensures Outcome(RenderElements(f, kids, true, depth), RenderElements(f, kids, false, depth), x, y,
                    CleanElements(kids), TailMinifies(kids))
    decreases kids, 0
  {
    hide Minified, Copied, Render, RenderElements, Clean, Minifies, Plain, Outcome, CleanElements, TailMinifies;
    if kids == [] {
      NoElements(f, kids, depth, x, y);
    } else {
      FirstKid(kids);
      ElementsText(f, kids, depth);
      var tr, ur := RenderElements(f, kids[1..], true, depth), RenderElements(f, kids[1..], false, depth);
      if |kids| == 1 {
        MinifiesRender(f, kids[0], depth, x, y);
        NoElements(f, kids[1..], depth, x, y);
      } else {
        MinifiesRender(f, kids[0], depth, [COMMA, SPACE] + (tr + x), [COMMA] + (ur + y));
        MinifiesElements(f, kids[1..], depth, x, y);
        ElementsFirst(f, kids[1..], depth);
        FirstKid(kids[1..]);
        ElementThen(Render(f, kids[0], true, depth), Render(f, kids[0], false, depth), tr, ur, x, y,
                    Clean(kids[0]), Minifies(kids[0]), CleanElements(kids[1..]), TailMinifies(kids[1..]));
      }
    }
  }

  lemma {:induction false} NoElements(f: Sprintf, kids: seq<Json>, depth: nat, x: bytes, y: bytes)
    requires kids == []
    ensures RenderElements(f, kids, true, depth) == [] == RenderElements(f, kids, false, depth)
    ensures CleanElements(kids) && TailMinifies(kids) && Outcome([], [], x, y, true, true)
  {
    assert [] + x == x && [] + Minified(x) == Minified(x);
  }

  /** The two texts of a list of elements, from its first on. */
  lemma {:induction false} ElementsText(f: Sprintf, kids: seq<Json>, depth: nat)
    requires kids != []
    ensures |kids| == 1 ==>
              && RenderElements(f, kids, true, depth) == Render(f, kids[0], true, depth)
              && RenderElements(f, kids, false, depth) == Render(f, kids[0], false, depth)
    ensures |kids| > 1 ==>
              && RenderElements(f, kids, true, depth) ==
                 Render(f, kids[0], true, depth) + [COMMA, SPACE] + RenderElements(f, kids[1..], true, depth)
              && RenderElements(f, kids, false, depth) ==
                 Render(f, kids[0], false, depth) + [COMMA] + RenderElements(f, kids[1..], false, depth)
  {
    hide Render;
  }

  lemma {:induction false} ElementsFirst(f: Sprintf, kids: seq<Json>, depth: nat)
    requires kids != [] && forall k | 0 <= k < |kids| :: Plain(f, kids[k])
    ensures var u := RenderElements(f, kids, false, depth); u != [] && !IsBlank(u[0])
  {
    hide Render, Plain;
    RenderFirst(f, kids[0], false, depth);
  }

  lemma {:induction false} ObjectOutcome(f: Sprintf, j: Json, depth: nat, x: bytes, y: bytes)
    requires Plain(f, j) && j.kind == Object
    ensures Outcome(Render(f, j, true, depth), Render(f, j, false, depth), x, y, Clean(j), Minifies(j))
    decreases j.kids, 2
  {
    hide Minified, Copied, RenderMembers, Clean, Minifies, Tabs;
    var t, u := RenderMembers(f, j.kids, true, depth + 1), RenderMembers(f, j.kids, false, depth + 1);
    MinifiesMembers(f, j.kids, depth + 1, Tabs(depth) + ([RBRACE] + x), [RBRACE] + y);
    ObjectClean(j);
    InBraces(t, u, depth, x, y, Clean(j));
  }

  lemma {:induction false} ObjectClean(j: Json)
    requires j.kind == Object
    ensures Clean(j) == CleanMembers(j.kids) && Minifies(j) == Clean(j)
  {
    hide Closes;
  }

  lemma {:induction false} InBraces(t: bytes, u: bytes, depth: nat, x: bytes, y: bytes, clean: bool)
    requires Outcome(t, u, Tabs(depth) + ([RBRACE] + x), [RBRACE] + y, clean, clean)
    ensures Outcome([LBRACE] + [LF] + t + Tabs(depth) + [RBRACE], [LBRACE] + [] + u + [] + [RBRACE], x, y, clean, clean)
  {
    hide Minified, Copied, Tabs;
    var x' := Tabs(depth) + ([RBRACE] + x);
    assert [LBRACE] + [LF] + t + Tabs(depth) + [RBRACE] + x == [LBRACE, LF] + (t + x');
    assert [LBRACE] + [] + u + [] + [RBRACE] + y == [LBRACE] + (u + ([RBRACE] + y));
    SpaceDropped(LBRACE, LF, t + x');
    MinifiesBlanks(Tabs(depth), [RBRACE] + x);
    Starts(RBRACE, x);
    if !clean {
      DifferAfter([LBRACE], Minified(t + x'), u + ([RBRACE] + y));
    }
  }

  lemma {:induction false} MinifiesMembers(f: Sprintf, kids: seq<Json>, depth: nat, x: bytes, y: bytes)
    requires forall k | 0 <= k < |kids| :: Plain(f, kids[k])
    requires y != [] && y[0] != LF
    ensures Outcome(RenderMembers(f, kids, true, depth), RenderMembers(f, kids, false, depth), x, y,
                    CleanMembers(kids), CleanMembers(kids))
    decreases kids, 0
  {
    hide Minified, Copied, Render, RenderMembers, Clean, Minifies, Plain, Outcome, CleanMembers, MemberHead, Closes,
      When;
    if kids == [] {
      NoMembers(f, kids, depth, x, y);
    } else {
      var k, more := kids[0], |kids| > 1;
      FirstKid(kids);
      MembersText(f, kids, depth);
      PlainKey(f, k);
      RenderFirst(f, k, false, depth);
      var tr, ur := RenderMembers(f, kids[1..], true, depth), RenderMembers(f, kids[1..], false, depth);
      var tk, uk := Render(f, k, true, depth), Render(f, k, false, depth);
      MinifiesRender(f, k, depth, When(more, COMMA) + [LF] + (tr + x), When(more, COMMA) + (ur + y));
      MinifiesMembers(f, kids[1..], depth, x, y);
      MembersFirst(f, kids[1..], depth, y);
      ValueThen(tk, uk, more, tr, ur, x, y, Clean(k), Minifies(k), CleanMembers(kids[1..]));
      NameThen(k.key, depth, tk + (When(more, COMMA) + [LF]) + tr, uk + When(more, COMMA) + ur, x, y,
               Clean(k) && CleanMembers(kids[1..]));
    }
  }

  lemma {:induction false} NoMembers(f: Sprintf, kids: seq<Json>, depth: nat, x: bytes, y: bytes)
    requires kids == []
    ensures RenderMembers(f, kids, true, depth) == [] == RenderMembers(f, kids, false, depth)
    ensures CleanMembers(kids) && Outcome([], [], x, y, true, true)
  {
    assert [] + x == x && [] + Minified(x) == Minified(x);
  }

  /** The two texts of a list of members, from its first on. */
  lemma {:induction false} MembersText(f: Sprintf, kids: seq<Json>, depth: nat)
    requires kids != []
    ensures var k, more := kids[0], |kids| > 1;
            && RenderMembers(f, kids, true, depth) ==
               MemberHead(k.key, true, depth) +
               (Render(f, k, true, depth) + (When(more, COMMA) + [LF]) + RenderMembers(f, kids[1..], true, depth))
            && RenderMembers(f, kids, false, depth) ==
               MemberHead(k.key, false, depth) +
               (Render(f, k, false, depth) + When(more, COMMA) + RenderMembers(f, kids[1..], false, depth))
  {
    hide Render, MemberHead;
    assert MemberGap(false, |kids| > 1) == When(|kids| > 1, COMMA);
  }

  /** After a member comes the quote of the next name, or the closing brace. */
  lemma {:induction false} MembersFirst(f: Sprintf, kids: seq<Json>, depth: nat, y: bytes)
    requires y != [] && y[0] != LF
    ensures var v := RenderMembers(f, kids, false, depth) + y; v != [] && v[0] != LF
  {
    hide Render, EscapeText;
  }

  /**
   Main result: minifying the formatted print of a tree gives its unformatted print exactly
   when no string or name that ends in a backslash is followed by anything but the closing
   brackets of arrays.
   */
  lemma {:induction false} MinifiesPrint(f: Sprintf, j: Json)
    requires Plain(f, j)
    ensures Minified(Render(f, j, true, 0)) == Render(f, j, false, 0) <==> Minifies(j)
  {
    hide Minified, Copied, Render, Clean, Minifies, Plain;
    var t, u := Render(f, j, true, 0), Render(f, j, false, 0);
    MinifiesRender(f, j, 0, [], []);
    assert t + [] == t && u + [] == u;
    NothingLeft();
    if Clean(j) {
      CleanMinifies(j);
    }
  }

  lemma {:induction false} NothingLeft()
    ensures Minified([]) == [] && Copied([]) == []
  {
  }

  /** In particular it does whenever no string and no name ends in a backslash. */
  lemma {:induction false} CleanPrintsMinify(f: Sprintf, j: Json)
    requires Plain(f, j) && Clean(j)
    ensures Minified(Render(f, j, true, 0)) == Render(f, j, false, 0)
  {
    hide Minified, Render, Clean, Minifies, Plain;
    CleanMinifies(j);
    MinifiesPrint(f, j);
  }
}
