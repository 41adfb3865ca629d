/** What `cJSON_Minify` keeps of a text, said of the pieces the text is made of. */
module MinifyText {
  import opened Bytes
  import opened Minify

  /**
   A piece: a blank, a comment with its end, a slash that begins none, a string with its quotes,
   another byte; and at the end of a text a comment or a string that is not closed.
   */
  datatype Part =
    | Blank(b: byte)
    | Line(text: bytes)
    | Block(text: bytes)
    | Slash
    | Quoted(text: bytes)
    | Other(b: byte)
    | OpenLine(text: bytes)
    | OpenBlock(text: bytes)
    | OpenQuoted(text: bytes)

  predicate Unclosed(p: Part) {
    p.OpenLine? || p.OpenBlock? || p.OpenQuoted?
  }

  function PartText(p: Part): (r: bytes)
    ensures |r| > 0
  {
    match p
    case Blank(b) => [b]
    case Line(text) => ['/' as int, '/' as int] + text + ['\n' as int]
    case Block(text) => ['/' as int, '*' as int] + text + ['*' as int, '/' as int]
    case Slash => ['/' as int]
    case Quoted(text) => ['"' as int] + text + ['"' as int]
    case Other(b) => [b]
    case OpenLine(text) => ['/' as int, '/' as int] + text
    case OpenBlock(text) => ['/' as int, '*' as int] + text
    case OpenQuoted(text) => ['"' as int] + text
  }

  /** Strings and other bytes are kept, blanks, comments and slashes dropped. */
  function PartKept(p: Part): bytes {
    if p.Quoted? || p.Other? || p.OpenQuoted? then PartText(p) else []
  }

  function SourceText(ps: seq<Part>): bytes {
    if ps == [] then [] else PartText(ps[0]) + SourceText(ps[1..])
  }

  function Kept(ps: seq<Part>): bytes {
    if ps == [] then [] else PartKept(ps[0]) + Kept(ps[1..])
  }

  predicate IsSpace(b: byte) {
    b == ' ' as int || b == '\t' as int || b == '\r' as int || b == '\n' as int
  }

  /** No `*` and `/` in a row. */
  predicate NoClosing(s: bytes) {
    forall k | 0 <= k && k + 1 < |s| :: !(s[k] == '*' as int && s[k + 1] == '/' as int)
  }

  /** Every quote comes right after a backslash. */
  predicate Escaped(s: bytes) {
    forall k | 0 <= k < |s| && s[k] == '"' as int :: k > 0 && s[k - 1] == '\\' as int
  }

  predicate ValidPart(p: Part) {
    match p
    case Blank(b) => IsSpace(b)
    case Line(text) => '\n' as int !in text
    case Block(text) => NoClosing(text + ['*' as int])
    case Slash => true
    case Quoted(text) => Escaped(text) && (text != [] ==> text[|text| - 1] != '\\' as int)
    case Other(b) => !IsSpace(b) && b != '/' as int && b != '"' as int
    case OpenLine(text) => '\n' as int !in text
    case OpenBlock(text) => NoClosing(text)
    case OpenQuoted(text) => Escaped(text)
  }

  /** A slash alone is followed by neither of the bytes that would make it a comment; what is not closed is last. */
  predicate ValidParts(ps: seq<Part>) {
    ps == [] ||
    (&& ValidPart(ps[0]) && ValidParts(ps[1..]) && (Unclosed(ps[0]) ==> |ps| == 1)
     && (ps[0].Slash? && |ps| > 1 ==> PartText(ps[1])[0] != '/' as int && PartText(ps[1])[0] != '*' as int))
  }

  // ----- one part -----

  lemma {:induction false} LineEnds(text: bytes, x: bytes)
    requires '\n' as int !in text
    ensures AfterLine(text + ([LF] + x)) == x && AfterLine(text) == []
  {
    if text == [] {
      assert [] + ([LF] + x) == [LF] + x && ([LF] + x)[1..] == x;
    } else {
      assert (text + ([LF] + x))[1..] == text[1..] + ([LF] + x);
      LineEnds(text[1..], x);
    }
  }

  lemma {:induction false} BlockEnds(text: bytes, x: bytes)
    requires NoClosing(text + [STAR])
    ensures AfterBlock(text + ([STAR, SLASH] + x)) == x
  {
    var s := text + ([STAR, SLASH] + x);
    if text == [] {
      assert s[2..] == x;
    } else {
      assert s[1..] == text[1..] + ([STAR, SLASH] + x);
      assert (text + [STAR])[0] == s[0] && (text + [STAR])[1] == s[1];
      var t := text + [STAR];
      assert text[1..] + [STAR] == t[1..];
      assert forall k | 0 <= k < |t[1..]| :: t[1..][k] == t[k + 1];
      BlockEnds(text[1..], x);
    }
  }

  lemma {:induction false} BlockNeverEnds(text: bytes)
    requires NoClosing(text)
    ensures AfterBlock(text) == []
  {
    if text != [] {
      assert forall k | 0 <= k < |text[1..]| :: text[1..][k] == text[k + 1];
      BlockNeverEnds(text[1..]);
    }
  }

  /** A string up to its quote, or up to the end. */
  lemma {:induction false} InsideIs(text: bytes, x: bytes)
    requires Escaped(text)
    ensures Inside(text) == |text|
    ensures (text != [] ==> text[|text| - 1] != BACKSLASH) ==> Inside(text + ([QUOTE] + x)) == |text| + 1
  {
    var s := text + ([QUOTE] + x);
    if text == [] {
      assert s == [QUOTE] + x;
    } else {
      var m := if text[0] == BACKSLASH && |text| > 1 && text[1] == QUOTE then 2 else 1;
      assert forall k | 0 <= k < |text[m..]| :: text[m..][k] == text[k + m];
      assert s[m..] == text[m..] + ([QUOTE] + x);
      InsideIs(text[m..], x);
      assert s[0] == text[0];
      assert |text| > 1 ==> s[1] == text[1];
    }
  }

  lemma {:induction false} MinifiesBlank(p: Part, x: bytes)
    requires ValidPart(p) && (p.Blank? || p.Other? || p.Slash?)
    requires p.Slash? && x != [] ==> x[0] != SLASH && x[0] != STAR
    ensures Minified(PartText(p) + x) == PartKept(p) + Minified(x)
  {
    var s := PartText(p) + x;
    assert s[1..] == x;
    assert [] + Minified(x) == Minified(x);
  }

  lemma {:induction false} CommentStarts(t: bytes)
    ensures Minified([SLASH, SLASH] + t) == Minified(AfterLine(t))
    ensures Minified([SLASH, STAR] + t) == Minified(AfterBlock(t))
  {
    hide AfterLine, AfterBlock;
    assert ([SLASH, SLASH] + t)[2..] == t && ([SLASH, STAR] + t)[2..] == t;
  }

  lemma {:induction false} MinifiesComment(p: Part, x: bytes)
    requires ValidPart(p) && (p.Line? || p.Block? || (x == [] && (p.OpenLine? || p.OpenBlock?)))
    ensures Minified(PartText(p) + x) == Minified(x)
  {
    hide AfterLine, AfterBlock, NoClosing, Minified;
    match p {
      case Line(text) =>
        assert PartText(p) + x == [SLASH, SLASH] + (text + ([LF] + x));
        CommentStarts(text + ([LF] + x));
        LineEnds(text, x);
      case Block(text) =>
        assert PartText(p) + x == [SLASH, STAR] + (text + ([STAR, SLASH] + x));
        CommentStarts(text + ([STAR, SLASH] + x));
        BlockEnds(text, x);
      case OpenLine(text) =>
        assert PartText(p) + x == [SLASH, SLASH] + text;
        CommentStarts(text);
        LineEnds(text, x);
      case OpenBlock(text) =>
        assert PartText(p) + x == [SLASH, STAR] + text;
        CommentStarts(text);
        BlockNeverEnds(text);
    }
  }

  lemma {:induction false} QuoteStarts(t: bytes, n: nat)
    requires Inside(t) == n
    ensures Minified([QUOTE] + t) == [QUOTE] + (t[..n] + Minified(t[n..]))
  {
    hide Minified, Inside, Copied;
    var s := [QUOTE] + t;
    StringStarts(s, 0);
    assert s[0..] == s && s[1..] == t;
    CopiedIs(t, n);
  }

  lemma {:induction false} MinifiesQuoted(p: Part, x: bytes)
    requires ValidPart(p) && (p.Quoted? || (x == [] && p.OpenQuoted?))
    ensures Minified(PartText(p) + x) == PartKept(p) + Minified(x)
  {
    hide Inside, Escaped, Minified;
    InsideIs(p.text, x);
    if p.Quoted? {
      var t := p.text + ([QUOTE] + x);
      assert PartText(p) + x == [QUOTE] + t;
      QuoteStarts(t, |p.text| + 1);
      Halves(p.text + [QUOTE], x);
      assert t == p.text + [QUOTE] + x;
    } else {
      assert PartText(p) + x == [QUOTE] + p.text;
      QuoteStarts(p.text, |p.text|);
      Halves(p.text, x);
      assert p.text + [] == p.text;
    }
  }

  lemma {:induction false} Halves(a: bytes, b: bytes)
    ensures (a + b)[..|a|] == a && (a + b)[|a|..] == b
  {
  }

  /** The minified text is what is kept of the parts. */
  lemma {:induction false} MinifiesParts(ps: seq<Part>)
    requires ValidParts(ps)
    ensures Minified(SourceText(ps)) == Kept(ps)
  {
    hide Minified, PartText, PartKept, ValidPart;
    if ps != [] {
      MinifiesParts(ps[1..]);
      var x := SourceText(ps[1..]);
      FirstByte(ps[1..]);
      match ps[0] {
        case Blank(_) => MinifiesBlank(ps[0], x);
        case Other(_) => MinifiesBlank(ps[0], x);
        case Slash => MinifiesBlank(ps[0], x);
        case Quoted(_) => MinifiesQuoted(ps[0], x);
        case OpenQuoted(_) => MinifiesQuoted(ps[0], x);
        case _ => MinifiesComment(ps[0], x);
          NothingKept(ps[0], x);
      }
    } else {
      MinifiesNothing();
    }
  }

  lemma {:induction false} NothingKept(p: Part, x: bytes)
    requires p.Line? || p.Block? || p.OpenLine? || p.OpenBlock?
    ensures PartKept(p) + Minified(x) == Minified(x)
  {
    hide Minified;
    assert [] + Minified(x) == Minified(x);
  }

  lemma {:induction false} MinifiesNothing()
    ensures Minified([]) == []
  {
  }

  lemma {:induction false} FirstByte(ps: seq<Part>)
    ensures SourceText(ps) != [] ==> ps != [] && SourceText(ps)[0] == PartText(ps[0])[0]
  {
    hide PartText;
  }

  // ----- every text is made of such parts -----

  lemma {:induction false} LineSplit(s: bytes) returns (text: bytes, closed: bool, rest: bytes)
    ensures s == text + (if closed then [LF] + rest else []) && '\n' as int !in text
    ensures !closed ==> rest == []
  {
    if s == [] {
      text, closed, rest := [], false, [];
    } else if s[0] == LF {
      text, closed, rest := [], true, s[1..];
    } else {
      text, closed, rest := LineSplit(s[1..]);
      text := [s[0]] + text;
    }
  }

  lemma {:induction false} BlockSplit(s: bytes) returns (text: bytes, closed: bool, rest: bytes)
    ensures s == text + (if closed then [STAR, SLASH] + rest else [])
    ensures if closed then NoClosing(text + [STAR]) else NoClosing(text) && rest == []
  {
    if s == [] {
      text, closed, rest := [], false, [];
    } else if |s| > 1 && s[0] == STAR && s[1] == SLASH {
      text, closed, rest := [], true, s[2..];
    } else {
      var t;
      t, closed, rest := BlockSplit(s[1..]);
      text := [s[0]] + t;
      var u := if closed then t + [STAR] else t;
      assert u != [] ==> s[1] == u[0];
      LongerBlock(s[0], u);
      assert [s[0]] + (t + [STAR]) == text + [STAR];
    }
  }

  lemma {:induction false} LongerBlock(b: byte, u: bytes)
    requires NoClosing(u) && (u != [] && b == STAR ==> u[0] != SLASH)
    ensures NoClosing([b] + u)
  {
    var v := [b] + u;
    forall k | 0 <= k && k + 1 < |v| ensures !(v[k] == STAR && v[k + 1] == SLASH) {
      assert k > 0 ==> v[k] == u[k - 1] && v[k + 1] == u[k];
    }
  }

  function Before(last: byte, s: bytes, k: nat): byte
    requires k <= |s|
  {
    if k == 0 then last else s[k - 1]
  }

  /** From inside a string whose last byte before `s` is `last`. */
  lemma {:induction false} QuoteSplit(s: bytes, last: byte) returns (text: bytes, closed: bool, rest: bytes)
    ensures s == text + (if closed then [QUOTE] + rest else [])
    ensures forall k | 0 <= k < |text| && text[k] == QUOTE :: Before(last, text, k) == BACKSLASH
    ensures closed ==> (if text == [] then last else text[|text| - 1]) != BACKSLASH
    ensures !closed ==> rest == []
  {
    if s == [] {
      text, closed, rest := [], false, [];
    } else if s[0] == QUOTE && last != BACKSLASH {
      text, closed, rest := [], true, s[1..];
    } else {
      var t;
      t, closed, rest := QuoteSplit(s[1..], s[0]);
      text := [s[0]] + t;
      forall k | 0 <= k < |text| && text[k] == QUOTE ensures Before(last, text, k) == BACKSLASH {
        if k > 0 {
          assert t[k - 1] == QUOTE;
          assert Before(s[0], t, k - 1) == BACKSLASH;
        }
      }
    }
  }

  lemma {:induction false} FirstPart(s: bytes) returns (p: Part, rest: bytes)
    requires s != []
    ensures ValidPart(p) && s == PartText(p) + rest && (Unclosed(p) ==> rest == [])
    ensures p.Slash? && rest != [] ==> rest[0] != '/' as int && rest[0] != '*' as int
  {
    hide NoClosing, Escaped;
    if IsSpace(s[0]) {
      p, rest := Blank(s[0]), s[1..];
    } else if s[0] == QUOTE {
      p, rest := FirstQuoted(s);
    } else if s[0] != SLASH {
      p, rest := Other(s[0]), s[1..];
    } else if |s| > 1 && (s[1] == SLASH || s[1] == STAR) {
      p, rest := FirstComment(s);
    } else {
      p, rest := Slash, s[1..];
    }
  }

  lemma {:induction false} FirstQuoted(s: bytes) returns (p: Part, rest: bytes)
    requires s != [] && s[0] == QUOTE
    ensures ValidPart(p) && s == PartText(p) + rest && (p.Quoted? || (p.OpenQuoted? && rest == []))
  {
    var text, closed;
    text, closed, rest := QuoteSplit(s[1..], QUOTE);
    p := if closed then Quoted(text) else OpenQuoted(text);
    assert Escaped(text) by {
      forall k | 0 <= k < |text| && text[k] == QUOTE ensures k > 0 && text[k - 1] == BACKSLASH {
        assert Before(QUOTE, text, k) == BACKSLASH;
      }
    }
    assert s == [QUOTE] + s[1..];
  }

  lemma {:induction false} FirstComment(s: bytes) returns (p: Part, rest: bytes)
    requires |s| > 1 && s[0] == SLASH && (s[1] == SLASH || s[1] == STAR)
    ensures ValidPart(p) && s == PartText(p) + rest && (Unclosed(p) ==> rest == []) && !p.Slash?
  {
    hide NoClosing;
    var text, closed;
    assert s == [s[0], s[1]] + s[2..];
    if s[1] == SLASH {
      text, closed, rest := LineSplit(s[2..]);
      p := if closed then Line(text) else OpenLine(text);
    } else {
      text, closed, rest := BlockSplit(s[2..]);
      p := if closed then Block(text) else OpenBlock(text);
    }
  }

  /** Every text whatever. */
  lemma {:induction false} Partition(s: bytes) returns (ps: seq<Part>)
    ensures ValidParts(ps) && SourceText(ps) == s
    decreases |s|
  {
    hide PartText, ValidPart;
    if s == [] {
      ps := [];
    } else {
      var p, rest := FirstPart(s);
      var others := Partition(rest);
      ps := [p] + others;
      assert ps[1..] == others;
      FirstByte(others);
    }
  }

  /** What is left of any text: its strings and other bytes, in their order, whatever parts it is read as. */
  lemma {:induction false} MinifiesText(s: bytes) returns (ps: seq<Part>)
    ensures ValidParts(ps) && SourceText(ps) == s && Minified(s) == Kept(ps)
  {
    hide Minified, ValidParts, SourceText, Kept;
    ps := Partition(s);
    MinifiesParts(ps);
  }
}
