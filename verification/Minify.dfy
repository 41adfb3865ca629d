/** `cJSON_Minify`: in place, against an out-of-place specification. */
module Minify {
  import opened Bytes
  import opened Numbers
  import opened JsonStrings
  import opened Json
  import opened JsonGrammar
  import opened JsonRender
  import opened RoundTrip

  // ----- the specification -----

  /** The blanks `cJSON_Minify` drops. */
  predicate Dropped(b: byte) {
    b == SPACE || b == TAB || b == CR || b == LF
  }

  /** What is left after a line comment whose slashes are gone: from after its line feed. */
  function AfterLine(s: bytes): (r: bytes)
    ensures |r| <= |s| && r == s[|s| - |r|..]
  {
    if s == [] then [] else if s[0] == LF then s[1..] else AfterLine(s[1..])
  }

  /** What is left after a block comment whose opening is gone: from after its closing. */
  function AfterBlock(s: bytes): (r: bytes)
    ensures |r| <= |s|
  {
    if s == [] then [] else if |s| > 1 && s[0] == STAR && s[1] == SLASH then s[2..] else AfterBlock(s[1..])
  }

  lemma {:induction false} AfterBlockIs(s: bytes)
    ensures AfterBlock(s) == s[|s| - |AfterBlock(s)|..]
  {
    if s != [] && !(|s| > 1 && s[0] == STAR && s[1] == SLASH) {
      AfterBlockIs(s[1..]);
    }
  }

  /** How many bytes of `s`, which starts inside a string, belong to it, with its closing quote. */
  function Inside(s: bytes): (n: nat)
    ensures n <= |s|
    ensures s != [] ==> n > 0
  {
    if s == [] then 0
    else if s[0] == QUOTE then 1
    else if s[0] == BACKSLASH && |s| > 1 && s[1] == QUOTE then 2 + Inside(s[2..])
    else 1 + Inside(s[1..])
  }

  /** The minified text. */
  function Minified(s: bytes): (r: bytes)
    ensures |r| <= |s|
    decreases |s|, 1
  {
    if s == [] then []
    else if Dropped(s[0]) then Minified(s[1..])
    else if s[0] == SLASH then
      if |s| > 1 && s[1] == SLASH then Minified(AfterLine(s[2..]))
      else if |s| > 1 && s[1] == STAR then Minified(AfterBlock(s[2..]))
      else Minified(s[1..])
    else if s[0] == QUOTE then [QUOTE] + Copied(s[1..])
    else [s[0]] + Minified(s[1..])
  }

  /** The minified rest of a text that starts inside a string. */
  function Copied(s: bytes): (r: bytes)
    ensures |r| <= |s|
    decreases |s|, 2
  {
    s[..Inside(s)] + Minified(s[Inside(s)..])
  }

  // ----- the method -----

  lemma {:induction false} LineStep(s: bytes, i: nat)
    requires i <= |s|
    ensures AfterLine(s[i..]) ==
            if i == |s| || s[i] == LF then s[if i == |s| then i else i + 1..] else AfterLine(s[i + 1..])
  {
    if i < |s| {
      assert s[i..][1..] == s[i + 1..];
    }
  }

  lemma {:induction false} BlockStep(s: bytes, i: nat)
    requires i <= |s|
    ensures AfterBlock(s[i..]) ==
            if i == |s| then s[i..]
            else if i + 1 < |s| && s[i] == STAR && s[i + 1] == SLASH then s[i + 2..]
            else AfterBlock(s[i + 1..])
  {
    if i < |s| {
      assert s[i..][1..] == s[i + 1..];
      assert i + 1 < |s| ==> s[i..][2..] == s[i + 2..];
    }
  }

  lemma {:induction false} TextAt(json: array<byte>, i: nat, s: bytes, k: nat)
    requires Text(json, i, s) && i <= k
    ensures i <= |s| < json.Length
    ensures k < |s| ==> json[k] == s[k] && s[k] != NUL
    ensures k == |s| ==> json[k] == NUL
  {
  }

  /** `skip_oneline_comment` from `i`. */
  method SkipOnelineComment(json: array<byte>, i: nat, ghost s: bytes) returns (next: nat)
    requires i + 2 <= |s| && Text(json, i, s)
    ensures i < next <= |s| && s[next..] == AfterLine(s[i + 2..])
  {
    hide AfterLine;
    next := i + 2;
    while json[next] != NUL
      invariant i + 2 <= next <= |s| && AfterLine(s[next..]) == AfterLine(s[i + 2..])
      decreases |s| - next
    {
      LineStep(s, next);
      if json[next] == LF {
        return next + 1;
      }
      next := next + 1;
    }
    LineStep(s, next);
  }

  /** `skip_multiline_comment` from `i`. */
  method SkipMultilineComment(json: array<byte>, i: nat, ghost s: bytes) returns (next: nat)
    requires i + 2 <= |s| && Text(json, i, s)
    ensures i < next <= |s| && s[next..] == AfterBlock(s[i + 2..])
  {
    hide AfterBlock, Text;
    next := i + 2;
    TextAt(json, i, s, next);
    while json[next] != NUL
      invariant i + 2 <= next <= |s| && AfterBlock(s[next..]) == AfterBlock(s[i + 2..])
      decreases |s| - next
    {
      TextAt(json, i, s, next);
      TextAt(json, i, s, next + 1);
      BlockStep(s, next);
      if json[next] == STAR && json[next + 1] == SLASH {
        return next + 2;
      }
      next := next + 1;
    }
    TextAt(json, i, s, next);
    BlockStep(s, next);
  }

  /** From `i` on the array still holds the text `s` and the NUL after it. */
  ghost predicate Text(json: array<byte>, i: nat, s: bytes)
    reads json
  {
    && i <= |s| < json.Length && json[|s|] == NUL && NoNul(s)
    && forall k | i <= k < |s| :: json[k] == s[k]
  }

  /** One turn of the loop of `minify_string`: one byte, or an escaped quote, goes from `i` to `w`. */
  method CopyStringByte(json: array<byte>, i: nat, w: nat, ghost s: bytes) returns (n: nat, closed: bool)
    requires w <= i < |s| && Text(json, i, s)
    modifies json
    ensures n == (if EscapedQuote(s, i) then 2 else 1) && i + n <= |s| && (closed <==> s[i] == QUOTE)
    ensures json[..w + n] == old(json[..w]) + s[i..i + n] && Text(json, i + n, s)
    ensures json[|s|..] == old(json[|s|..])
  {
    n, closed := 1, false;
    json[w] := json[i];
    if json[i] == QUOTE {
      json[w] := QUOTE;
      closed := true;
    } else if json[i] == BACKSLASH && json[i + 1] == QUOTE {
      json[w + 1] := json[i + 1];
      n := 2;
    }
  }

  /** The same turn, against what is still to be copied. */
  method CopyStringTurn(json: array<byte>, i: nat, w: nat, ghost s: bytes) returns (n: nat, closed: bool)
    requires w <= i < |s| && Text(json, i, s)
    modifies json
    ensures 0 < n && i + n <= |s| < json.Length && Text(json, i + n, s)
    ensures json[..w + n] + (if closed then Minified(s[i + n..]) else Copied(s[i + n..])) ==
            old(json[..w]) + Copied(s[i..])
    ensures json[|s|..] == old(json[|s|..])
  {
    hide Minified, Copied, EscapedQuote, Text;
    TextAt(json, i, s, i);
    CopiedTurn(json[..w], s, i);
    n, closed := CopyStringByte(json, i, w, s);
    TextAt(json, i + n, s, i + n);
  }

  /** The opening quote goes from `i` to `w`. */
  method CopyQuote(json: array<byte>, i: nat, w: nat, ghost s: bytes)
    requires w <= i < |s| && Text(json, i, s) && s[i] == QUOTE
    modifies json
    ensures json.Length > |s| && json[..w + 1] == old(json[..w]) + [QUOTE] && Text(json, i + 1, s)
    ensures json[|s|..] == old(json[|s|..])
  {
    json[w] := json[i];
  }

  predicate EscapedQuote(s: bytes, i: nat)
    requires i < |s|
  {
    s[i] == BACKSLASH && i + 1 < |s| && s[i + 1] == QUOTE
  }

  /** `minify_string`: the string at `i` is copied to `w`. */
  method MinifyString(json: array<byte>, i: nat, w: nat, ghost s: bytes) returns (next: nat, w': nat)
    requires w <= i < |s| && Text(json, i, s) && s[i] == QUOTE
    modifies json
    ensures w' <= next && i < next && Text(json, next, s)
    ensures json[..w'] + Minified(s[next..]) == old(json[..w]) + Minified(s[i..])
    ensures json[|s|..] == old(json[|s|..])
  {
    hide Minified, Copied, Inside, EscapedQuote, Text;
    CopyQuote(json, i, w, s);
    next, w' := i + 1, w + 1;
    ghost var all := old(json[..w]) + Minified(s[i..]);
    StringOpens(old(json[..w]), s, i);
    TextAt(json, next, s, next);
    while json[next] != NUL
      invariant i < next <= |s| < json.Length && w' <= next && Text(json, next, s)
      invariant json[..w'] + Copied(s[next..]) == all
      invariant json[|s|..] == old(json[|s|..])
      decreases |s| - next
    {
      TextAt(json, next, s, next);
      var n, closed := CopyStringTurn(json, next, w', s);
      next, w' := next + n, w' + n;
      TextAt(json, next, s, next);
      if closed {
        return;
      }
    }
    TextAt(json, next, s, next);
    CopiedEnd(s);
  }

  lemma {:induction false} CopiedEnd(s: bytes)
    ensures Copied(s[|s|..]) == [] && Minified(s[|s|..]) == []
  {
  }

  lemma {:induction false} StringStarts(s: bytes, i: nat)
    requires i < |s| && s[i] == QUOTE
    ensures Minified(s[i..]) == [QUOTE] + Copied(s[i + 1..])
  {
    assert s[i..][1..] == s[i + 1..];
  }

  lemma {:induction false} StringOpens(done: bytes, s: bytes, i: nat)
    requires i < |s| && s[i] == QUOTE
    ensures done + Minified(s[i..]) == done + [QUOTE] + Copied(s[i + 1..])
  {
    hide Minified, Copied;
    StringStarts(s, i);
    Assoc(done, [QUOTE], Copied(s[i + 1..]));
  }

  /** A turn moves bytes from what is still to be copied to what is `done`. */
  lemma {:induction false} CopiedTurn(done: bytes, s: bytes, i: nat)
    requires i < |s|
    ensures var n := if EscapedQuote(s, i) then 2 else 1;
            && i + n <= |s|
            && done + Copied(s[i..]) ==
               done + s[i..i + n] + if s[i] == QUOTE then Minified(s[i + n..]) else Copied(s[i + n..])
  {
    hide Minified, Copied, Inside;
    CopiedStep(s, i);
    var n := if EscapedQuote(s, i) then 2 else 1;
    Assoc(done, s[i..i + n], if s[i] == QUOTE then Minified(s[i + n..]) else Copied(s[i + n..]));
  }

  lemma {:induction false} CopiedStep(s: bytes, i: nat)
    requires i < |s|
    ensures var n := if EscapedQuote(s, i) then 2 else 1;
            Copied(s[i..]) == s[i..i + n] + (if s[i] == QUOTE then Minified(s[i + n..]) else Copied(s[i + n..]))
  {
    hide Minified, Inside, Copied, EscapedQuote;
    InsideStep(s, i);
    var m := if EscapedQuote(s, i) then 2 else 1;
    var n := if s[i] == QUOTE then 0 else Inside(s[i + m..]);
    CopiedIs(s[i..], m + n);
    Slices(s, i, m, n);
    if s[i] == QUOTE {
      NoMore(s[i..i + m], s[i + m..]);
    } else {
      CopiedIs(s[i + m..], n);
      Assoc(s[i..i + m], s[i + m..][..n], Minified(s[i + m..][n..]));
    }
  }

  lemma {:induction false} CopiedIs(t: bytes, n: nat)
    requires Inside(t) == n
    ensures Copied(t) == t[..n] + Minified(t[n..])
  {
  }

  lemma {:induction false} NoMore(a: bytes, b: bytes)
    ensures a + b[..0] == a && b[0..] == b
  {
  }

  lemma {:induction false} InsideStep(s: bytes, i: nat)
    requires i < |s|
    ensures var m := if EscapedQuote(s, i) then 2 else 1;
            && (s[i] == QUOTE ==> m == 1)
            && i + m <= |s| && Inside(s[i..]) == m + if s[i] == QUOTE then 0 else Inside(s[i + m..])
  {
    var t := s[i..];
    assert t[0] == s[i] && t[1..] == s[i + 1..];
    if EscapedQuote(s, i) {
      assert t[1] == s[i + 1] && t[2..] == s[i + 2..];
    }
  }

  lemma {:induction false} Slices(s: bytes, i: nat, m: nat, n: nat)
    requires i + m + n <= |s|
    ensures s[i..][..m + n] == s[i..i + m] + s[i + m..][..n]
    ensures s[i..][m + n..] == s[i + m..][n..]
  {
  }

  lemma {:induction false} Assoc(a: bytes, b: bytes, c: bytes)
    ensures a + (b + c) == a + b + c
  {
  }

  lemma {:induction false} TextOfCString(json: array<byte>)
    requires |CString(json[..])| < json.Length
    ensures Text(json, 0, CString(json[..]))
    ensures [] + Minified(CString(json[..])[0..]) == Minified(CString(json[..]))
  {
    hide Minified;
    assert CString(json[..])[0..] == CString(json[..]);
  }

  /**
   `cJSON_Minify`: the array holds the minified text; the write position never passes the
   read position, and nothing after the old final NUL is touched.
   */
  method MinifyInPlace(json: array?<byte>)
    requires json != null ==> |CString(json[..])| < json.Length
    modifies if json == null then {} else {json}
    ensures json != null ==>
              && CString(json[..]) == Minified(old(CString(json[..])))
              && json[|old(CString(json[..]))|..] == old(json[|CString(json[..])|..])
  {
    if json == null {
      return;
    }
    hide Minified, CString, Text;
    ghost var s := CString(json[..]);
    var i: nat, w: nat := 0, 0;
    TextOfCString(json);
    TextAt(json, i, s, i);
    while json[i] != NUL
      invariant w <= i <= |s| < json.Length && Text(json, i, s)
      invariant json[..w] + Minified(s[i..]) == Minified(s)
      invariant json[|s|..] == old(json[|s|..])
      decreases |s| - i
    {
      TextAt(json, i, s, i);
      i, w := MinifyTurn(json, i, w, s);
      TextAt(json, i, s, i);
    }
    TextAt(json, i, s, i);
    CopiedEnd(s);
    json[w] := NUL;
    EndsAt(json[..], w, s);
  }

  /** The `switch` of `cJSON_Minify`. */
  method MinifyTurn(json: array<byte>, i: nat, w: nat, ghost s: bytes) returns (next: nat, w': nat)
    requires w <= i < |s| && Text(json, i, s)
    modifies json
    ensures w' <= next && i < next && Text(json, next, s)
    ensures json[..w'] + Minified(s[next..]) == old(json[..w]) + Minified(s[i..])
    ensures json[|s|..] == old(json[|s|..])
  {
    hide Minified, AfterLine, AfterBlock;
    if s[i] != QUOTE {
      MinifiedStep(s, i);
    }
    next, w' := i + 1, w;
    if json[i] == SPACE || json[i] == TAB || json[i] == CR || json[i] == LF {
    } else if json[i] == SLASH {
      if json[i + 1] == SLASH {
        next := SkipOnelineComment(json, i, s);
      } else if json[i + 1] == STAR {
        next := SkipMultilineComment(json, i, s);
      }
    } else if json[i] == QUOTE {
      next, w' := MinifyString(json, i, w, s);
    } else {
      json[w] := json[i];
      w' := w + 1;
      assert json[..w'] == old(json[..w]) + [s[i]];
    }
  }

  lemma {:induction false} MinifiedStep(s: bytes, i: nat)
    requires i < |s|
    requires s[i] != QUOTE
    ensures Minified(s[i..]) ==
              if Dropped(s[i]) then Minified(s[i + 1..])
              else if s[i] == SLASH then
                if i + 1 < |s| && s[i + 1] == SLASH then Minified(AfterLine(s[i + 2..]))
                else if i + 1 < |s| && s[i + 1] == STAR then Minified(AfterBlock(s[i + 2..]))
                else Minified(s[i + 1..])
              else [s[i]] + Minified(s[i + 1..])
  {
    hide AfterLine, AfterBlock;
    var t := s[i..];
    assert t[1..] == s[i + 1..];
    if i + 1 < |s| {
      assert t[2..] == s[i + 2..];
    }
  }

  /** A NUL written after the minified text ends the C string there. */
  lemma {:induction false} EndsAt(a: bytes, w: nat, s: bytes)
    requires w < |a| && a[w] == NUL && a[..w] == Minified(s) && NoNul(s)
    ensures CString(a) == Minified(s)
  {
    MinifiedNoNul(s);
    CStringCut(a[..w], a);
    CStringOfText(a[..w], []);
    assert a[..w] + [] == a[..w];
  }

  lemma {:induction false} MinifiedNoNul(s: bytes)
    requires NoNul(s)
    ensures NoNul(Minified(s)) && NoNul(Copied(s))
    decreases |s|
  {
    hide AfterLine, AfterBlock, Inside, Minified, Copied;
    if s == [] {
      CopiedEnd(s);
    } else {
      MinifiedNoNul(s[1..]);
      CopiedStep(s, 0);
      assert s[0..] == s;
      if EscapedQuote(s, 0) {
        MinifiedNoNul(s[2..]);
      }
      if s[0] == QUOTE {
        StringStarts(s, 0);
      } else {
        MinifiedStep(s, 0);
        if |s| > 1 {
          MinifiedNoNul(AfterLine(s[2..]));
          AfterBlockIs(s[2..]);
          MinifiedNoNul(AfterBlock(s[2..]));
        }
      }
    }
  }

  // ----- minifying again -----

  lemma {:induction false} CopiedFirst(s: bytes)
    requires s != []
    ensures Copied(s) != [] && Copied(s)[0] == s[0]
  {
    hide Minified, Copied, Inside;
    CopiedStep(s, 0);
    assert s[0..] == s;
  }

  /** The first byte of a minified text, or of the rest of a string, and what follows it. */
  lemma {:induction false} Starts(b: byte, x: bytes)
    ensures b == QUOTE ==> Minified([b] + x) == [b] + Copied(x) && Copied([b] + x) == [b] + Minified(x)
    ensures b != QUOTE && b != SLASH && !Dropped(b) ==> Minified([b] + x) == [b] + Minified(x)
    ensures Dropped(b) ==> Minified([b] + x) == Minified(x)
    ensures b != QUOTE && !(b == BACKSLASH && x != [] && x[0] == QUOTE) ==> Copied([b] + x) == [b] + Copied(x)
  {
    hide Minified, Copied, AfterLine, AfterBlock, Inside;
    var s := [b] + x;
    assert s[0..] == s && s[1..] == x && s[0..1] == [b];
    CopiedStep(s, 0);
    if b == QUOTE {
      StringStarts(s, 0);
    } else {
      MinifiedStep(s, 0);
    }
  }

  lemma {:induction false} StartsEscaped(x: bytes)
    ensures Copied([BACKSLASH, QUOTE] + x) == [BACKSLASH, QUOTE] + Copied(x)
  {
    hide Minified, Copied, Inside;
    var s := [BACKSLASH, QUOTE] + x;
    assert s[0..] == s && s[2..] == x && s[0..2] == [BACKSLASH, QUOTE];
    CopiedStep(s, 0);
  }

  /** Minifying twice is minifying once. */
  lemma {:induction false} Idempotent(s: bytes)
    ensures Minified(Minified(s)) == Minified(s)
    ensures Copied(Copied(s)) == Copied(s)
    decreases |s|
  {
    hide Minified, Copied, AfterLine, AfterBlock, Inside;
    if s == [] {
      CopiedEnd(s);
    } else {
      var b, x := s[0], s[1..];
      assert s == [b] + x && s[0..] == s;
      Idempotent(x);
      Starts(b, x);
      Starts(b, Minified(x));
      Starts(b, Copied(x));
      if x != [] {
        CopiedFirst(x);
      }
      if EscapedQuote(s, 0) {
        assert s == [BACKSLASH, QUOTE] + x[1..];
        Idempotent(x[1..]);
        StartsEscaped(x[1..]);
        StartsEscaped(Copied(x[1..]));
      }
      if b == SLASH {
        IdempotentSlash(s);
      }
    }
  }

  lemma {:induction false} IdempotentSlash(s: bytes)
    requires s != [] && s[0] == SLASH
    ensures Minified(Minified(s)) == Minified(s)
    decreases |s|, 0
  {
    hide Minified, AfterLine, AfterBlock;
    MinifiedStep(s, 0);
    assert s[0..] == s;
    Idempotent(s[1..]);
    if |s| > 1 {
      Idempotent(AfterLine(s[2..]));
      Idempotent(AfterBlock(s[2..]));
    }
  }
}
