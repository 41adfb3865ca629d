/** Bytes, the ASCII codes the JSON code tests for, and C strings. */
module Bytes {

  type byte = b: int | 0 <= b < 256

  type bytes = seq<byte>

  const NUL: byte := 0
  const BACKSPACE: byte := 8
  const TAB: byte := 9
  const LF: byte := 10
  const FF: byte := 12
  const CR: byte := 13
  const SPACE: byte := 32
  const QUOTE: byte := 34
  const STAR: byte := 42
  const PLUS: byte := 43
  const COMMA: byte := 44
  const MINUS: byte := 45
  const DOT: byte := 46
  const SLASH: byte := 47
  const ZERO: byte := 48
  const COLON: byte := 58
  const UPPER_E: byte := 69
  const LBRACKET: byte := 91
  const BACKSLASH: byte := 92
  const RBRACKET: byte := 93
  const LOWER_B: byte := 98
  const LOWER_E: byte := 101
  const LOWER_F: byte := 102
  const LOWER_N: byte := 110
  const LOWER_R: byte := 114
  const LOWER_T: byte := 116
  const LOWER_U: byte := 117
  const LBRACE: byte := 123
  const RBRACE: byte := 125

  /** A string of ASCII characters as bytes. */
  function Ascii(s: string): (r: bytes)
    ensures |r| == |s|
    ensures forall k | 0 <= k < |s| && s[k] < 128 as char :: r[k] == s[k] as int
  {
    seq(|s|, k requires 0 <= k < |s| => if s[k] < 128 as char then s[k] as int else 0)
  }

  datatype Option<+T> = None | Some(value: T)

  /** No NUL inside: the contents of a C string. */
  predicate NoNul(s: bytes) {
    forall k | 0 <= k < |s| :: s[k] != NUL
  }

  /** What a C string function sees of a buffer: everything before the first NUL. */
  function CString(s: bytes): (r: bytes)
    ensures NoNul(r)
    ensures r <= s
    ensures |r| < |s| ==> s[|r|] == NUL
  {
    if s == [] || s[0] == NUL then [] else
      var tail := CString(s[1..]);
      [s[0]] + tail
  }

  /** The bytes of a C string are no NULs and the one after them is. */
  lemma {:induction false} CStringBytes(s: bytes)
    ensures forall k | 0 <= k < |CString(s)| :: s[k] != NUL
    ensures |CString(s)| < |s| ==> s[|CString(s)|] == NUL
    ensures CString(s) == s[..|CString(s)|]
  {
    assert forall k | 0 <= k < |CString(s)| :: CString(s)[k] == s[k];
  }

  lemma {:induction false} CStringOfText(text: bytes, rest: bytes)
    requires NoNul(text)
    requires rest == [] || rest[0] == NUL
    ensures CString(text + rest) == text
  {
    if text != [] {
      assert (text + rest)[1..] == text[1..] + rest;
      CStringOfText(text[1..], rest);
    } else {
      assert text + rest == rest;
    }
  }

  /** A C string does not depend on what follows a NUL. */
  lemma {:induction false} CStringCut(x: bytes, s: bytes)
    requires |x| < |s| && s[..|x|] == x && s[|x|] == NUL
    ensures CString(s) == CString(x)
  {
    if x != [] && x[0] != NUL {
      assert s[1..][..|x| - 1] == x[1..];
      CStringCut(x[1..], s[1..]);
    }
  }

  /** `text` occurs in `s` at offset `i`. */
  predicate At(s: bytes, i: nat, text: bytes): (r: bool)
    ensures r ==> i + |text| <= |s|
  {
    i + |text| <= |s| && s[i..i + |text|] == text
  }

  lemma {:induction false} AtSplit(s: bytes, i: nat, a: bytes, b: bytes)
    ensures At(s, i, a + b) <==> At(s, i, a) && At(s, i + |a|, b)
  {
    if At(s, i, a + b) {
      assert s[i..i + |a|] == (a + b)[..|a|];
      assert s[i + |a|..i + |a| + |b|] == (a + b)[|a|..];
    }
    if At(s, i, a) && At(s, i + |a|, b) {
      assert s[i..i + |a| + |b|] == s[i..i + |a|] + s[i + |a|..i + |a| + |b|];
    }
  }

  lemma {:induction false} AtByte(s: bytes, i: nat, text: bytes, k: nat)
    requires At(s, i, text) && k < |text|
    ensures s[i + k] == text[k]
  {
    assert s[i..i + |text|][k] == s[i + k];
  }
}
