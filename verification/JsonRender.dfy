/** What the printers write, formatted or not, as a function of the tree. */
module JsonRender {
  import opened Bytes
  import opened Numbers
  import opened JsonStrings
  import opened Json
  import opened JsonGrammar

  function When(b: bool, c: byte): (r: bytes) {
    if b then [c] else []
  }

  function Tabs(n: nat): (r: bytes)
    ensures |r| == n
    ensures forall k | 0 <= k < n :: r[k] == TAB
  {
    seq(n, _ => TAB)
  }

  function TabsWhen(b: bool, n: nat): (r: bytes)
    ensures |r| == if b then n else 0
  {
    if b then Tabs(n) else []
  }

  /** A C string, or NULL, which prints as the empty string. */
  function StringText(s: Option<bytes>): bytes {
    Quoted(EscapeText(if s.Some? then s.value else []))
  }

  /** `print_value` can print the tree: no invalid item, no raw item without text, no long number. */
  predicate Printable(f: Sprintf, j: Json) {
    match j.kind
    case Invalid => false
    case Number => PrintableNumber(f, j.num)
    case Raw => j.str.Some?
    case Array => forall k | 0 <= k < |j.kids| :: Printable(f, j.kids[k])
    case Object => forall k | 0 <= k < |j.kids| :: Printable(f, j.kids[k])
    case _ => true
  }

  predicate AllPrintable(f: Sprintf, kids: seq<Json>) {
    forall k | 0 <= k < |kids| :: Printable(f, kids[k])
  }

  /** The text of an item inside `depth` open brackets. */
  function Render(f: Sprintf, j: Json, format: bool, depth: nat): bytes
    decreases j
  {
    match j.kind
    case Invalid => []
    case Null => NULL_TEXT
    case False => FALSE_TEXT
    case True => TRUE_TEXT
    case Number => NumberText(f, j.num)
    case Raw => if j.str.Some? then j.str.value else []
    case String => StringText(j.str)
    case Array => [LBRACKET] + RenderElements(f, j.kids, format, depth + 1) + [RBRACKET]
    case Object =>
      [LBRACE] + When(format, LF) + RenderMembers(f, j.kids, format, depth + 1) + TabsWhen(format, depth) + [RBRACE]
  }

  /** Elements separated by a comma, and a space when formatted. */
  function RenderElements(f: Sprintf, kids: seq<Json>, format: bool, depth: nat): bytes
    decreases kids
  {
    if kids == [] then []
    else
      Render(f, kids[0], format, depth) + ElementGap(format, |kids| > 1) + RenderElements(f, kids[1..], format, depth)
  }

  function ElementGap(format: bool, more: bool): bytes {
    if more then [COMMA] + When(format, SPACE) else []
  }

  /** Members, each on its own line when formatted. */
  function RenderMembers(f: Sprintf, kids: seq<Json>, format: bool, depth: nat): bytes
    decreases kids
  {
    if kids == [] then []
    else
      MemberHead(kids[0].key, format, depth) + Render(f, kids[0], format, depth) + MemberGap(format, |kids| > 1) +
      RenderMembers(f, kids[1..], format, depth)
  }

  /** Indentation, name and colon. */
  function MemberHead(key: Option<bytes>, format: bool, depth: nat): bytes {
    TabsWhen(format, depth) + StringText(key) + [COLON] + When(format, TAB)
  }

  function MemberGap(format: bool, more: bool): bytes {
    When(more, COMMA) + When(format, LF)
  }

  // ----- no NUL in the text -----

  lemma {:induction false} RenderNoNul(f: Sprintf, j: Json, format: bool, depth: nat)
    requires CStrings(j)
    ensures NoNul(Render(f, j, format, depth))
    decreases j
  {
    hide RenderElements, RenderMembers, NumberText, EscapeText, TabsWhen;
    match j.kind {
      case Array => ElementsNoNul(f, j.kids, format, depth + 1);
      case Object =>
        MembersNoNul(f, j.kids, format, depth + 1);
        TabsNoNul(format, depth);
      case String => StringNoNul(j.str);
      case _ =>
    }
  }

  lemma {:induction false} TabsNoNul(format: bool, depth: nat)
    ensures NoNul(TabsWhen(format, depth))
  {
  }

  lemma {:induction false} StringNoNul(s: Option<bytes>)
    requires NoNulOption(s)
    ensures NoNul(StringText(s))
  {
    EscapeNoNul(if s.Some? then s.value else []);
  }

  lemma {:induction false} HeadNoNul(key: Option<bytes>, format: bool, depth: nat)
    requires NoNulOption(key)
    ensures NoNul(MemberHead(key, format, depth))
  {
    StringNoNul(key);
  }

  lemma {:induction false} ElementsNoNul(f: Sprintf, kids: seq<Json>, format: bool, depth: nat)
    requires forall k | 0 <= k < |kids| :: CStrings(kids[k])
    ensures NoNul(RenderElements(f, kids, format, depth))
    decreases kids
  {
    if kids != [] {
      RenderNoNul(f, kids[0], format, depth);
      ElementsNoNul(f, kids[1..], format, depth);
    }
  }

  lemma {:induction false} NoNulJoin(a: bytes, b: bytes)
    requires NoNul(a) && NoNul(b)
    ensures NoNul(a + b)
  {
  }

  lemma {:induction false} NoNulNothing()
    ensures NoNul([])
  {
  }

  lemma {:induction false} GapsNoNul(format: bool, more: bool)
    ensures NoNul(MemberGap(format, more)) && NoNul(ElementGap(format, more))
  {
  }

  lemma {:induction false} KeyHeld(j: Json)
    requires CStrings(j)
    ensures NoNulOption(j.key)
  {
  }

  lemma {:induction false} MembersNoNul(f: Sprintf, kids: seq<Json>, format: bool, depth: nat)
    requires forall k | 0 <= k < |kids| :: CStrings(kids[k])
    ensures NoNul(RenderMembers(f, kids, format, depth))
    decreases kids
  {
    hide MemberHead, Render, CStrings, NoNul;
    if kids != [] {
      KeyHeld(kids[0]);
      HeadNoNul(kids[0].key, format, depth);
      RenderNoNul(f, kids[0], format, depth);
      MembersNoNul(f, kids[1..], format, depth);
      GapsNoNul(format, |kids| > 1);
      var head, r := MemberHead(kids[0].key, format, depth), Render(f, kids[0], format, depth);
      NoNulJoin(head, r);
      NoNulJoin(head + r, MemberGap(format, |kids| > 1));
      NoNulJoin(head + r + MemberGap(format, |kids| > 1), RenderMembers(f, kids[1..], format, depth));
    } else {
      NoNulNothing();
    }
  }
}
