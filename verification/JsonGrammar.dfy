/**
 What the recursive-descent parser accepts, as functions of the text: the branches, limits
 and offsets of `parse_value`, `parse_array`, `parse_object`, `parse_number`.
 */
module JsonGrammar {
  import opened Bytes
  import opened Numbers
  import opened JsonStrings
  import opened Json

  const NESTING_LIMIT: nat := 1000

  const NULL_TEXT: bytes := [110, 117, 108, 108]
  const FALSE_TEXT: bytes := [102, 97, 108, 115, 101]
  const TRUE_TEXT: bytes := [116, 114, 117, 101]
  const BOM: bytes := [0xEF, 0xBB, 0xBF]

  /** The buffer ends with a NUL, as `cJSON_ParseWithOpts` hands it over. */
  predicate Terminated(s: bytes) {
    |s| > 0 && s[|s| - 1] == NUL
  }

  predicate IsBlank(b: byte) {
    b <= SPACE
  }

  function BlankRun(s: bytes, i: nat): (r: nat)
    requires i <= |s|
    ensures i <= r <= |s|
    ensures forall k | i <= k < r :: IsBlank(s[k])
    ensures r < |s| ==> !IsBlank(s[r])
    decreases |s| - i
  {
    if i < |s| && IsBlank(s[i]) then BlankRun(s, i + 1) else i
  }

  /** `buffer_skip_whitespace`: past the blanks, but back on the last byte when all of them are. */
  function SkipBlanks(s: bytes, i: nat): (r: nat)
    requires i < |s|
    ensures i <= r < |s|
    ensures Terminated(s) && s[r] == NUL ==> r == |s| - 1
  {
    var r := BlankRun(s, i);
    if r == |s| then r - 1 else r
  }

  /** The bytes `parse_number` copies: number characters, at most 63 of them. */
  function NumberRun(s: bytes, i: nat): (r: nat)
    requires i <= |s|
    ensures i <= r <= |s| && r <= i + 63
    ensures forall k | i <= k < r :: InNumber(s[k])
    ensures r < |s| && r < i + 63 ==> !InNumber(s[r])
  {
    NumberRunFrom(s, i, 0)
  }

  function NumberRunFrom(s: bytes, i: nat, n: nat): (r: nat)
    requires i + n <= |s| && n <= 63
    ensures i + n <= r <= |s| && r <= i + 63
    ensures forall k | i + n <= k < r :: InNumber(s[k])
    ensures r < |s| && r < i + 63 ==> !InNumber(s[r])
    decreases 63 - n
  {
    if n < 63 && i + n < |s| && InNumber(s[i + n]) then NumberRunFrom(s, i, n + 1) else i + n
  }

  function ParseNumber(s: bytes, i: nat): (r: Parsed<Json>)
    requires i < |s|
    ensures r.Ok? ==> i < r.next <= NumberRun(s, i)
  {
    var scan := Strtod(s[i..NumberRun(s, i)]);
    if scan.used == 0 then Fail else Ok(NumberItem(scan.value), i + scan.used)
  }

  /** The offset after a keyword, which never reaches the final NUL. */
  function AfterWord(s: bytes, i: nat, text: bytes): (r: nat)
    requires Terminated(s) && At(s, i, text) && text != [] && NoNul(text)
    ensures r == i + |text| < |s|
  {
    AtByte(s, i, text, |text| - 1);
    i + |text|
  }

  /** The three keywords. */
  function ParseWord(s: bytes, i: nat): (r: Parsed<Json>)
    requires Terminated(s) && i < |s|
    ensures r.Ok? ==> i < r.next < |s|
  {
    if At(s, i, NULL_TEXT) then Ok(Blank(Null), AfterWord(s, i, NULL_TEXT))
    else if At(s, i, FALSE_TEXT) then Ok(Blank(False), AfterWord(s, i, FALSE_TEXT))
    else if At(s, i, TRUE_TEXT) then Ok(TrueItem(), AfterWord(s, i, TRUE_TEXT))
    else Fail
  }

  /** `parse_value` at `i`, inside `depth` open brackets. */
  function ParseValue(s: bytes, i: nat, depth: nat): (r: Parsed<Json>)
    requires Terminated(s) && i < |s|
    ensures r.Ok? ==> i < r.next < |s|
    decreases |s| - i, 1
  {
    var word := ParseWord(s, i);
    if word.Ok? then word
    else if s[i] == QUOTE then
      match ParseString(s, i)
      case Fail => Fail
      case Ok(text, next) => Ok(StringItem(text), next)
    else if StartsNumber(s[i]) then ParseNumber(s, i)
    else if s[i] == LBRACKET then
      if depth >= NESTING_LIMIT then Fail
      else
        var p := SkipBlanks(s, i + 1);
        if s[p] == RBRACKET then Ok(ArrayItem([]), p + 1)
        else match ParseElements(s, p, depth + 1)
          case Fail => Fail
          case Ok(kids, next) => Ok(ArrayItem(kids), next)
    else if s[i] == LBRACE then
      if depth >= NESTING_LIMIT then Fail
      else
        var p := SkipBlanks(s, i + 1);
        if s[p] == RBRACE then Ok(ObjectItem([]), p + 1)
        else match ParseMembers(s, p, depth + 1)
          case Fail => Fail
          case Ok(kids, next) => Ok(ObjectItem(kids), next)
    else Fail
  }

  /** Array elements from just after `[` or a comma, up to and including `]`. */
  function ParseElements(s: bytes, p: nat, depth: nat): (r: Parsed<seq<Json>>)
    requires Terminated(s) && p < |s|
    ensures r.Ok? ==> p < r.next < |s|
    decreases |s| - p, 2
  {
    var q := SkipBlanks(s, p);
    match ParseValue(s, q, depth)
    case Fail => Fail
    case Ok(v, next) =>
      var m := SkipBlanks(s, next);
      if s[m] == COMMA then
        match ParseElements(s, m + 1, depth)
        case Fail => Fail
        case Ok(rest, end) => Ok([v] + rest, end)
      else if s[m] == RBRACKET then Ok([v], m + 1)
      else Fail
  }

  /** Object members from just after `{` or a comma, up to and including `}`. */
  function ParseMembers(s: bytes, p: nat, depth: nat): (r: Parsed<seq<Json>>)
    requires Terminated(s) && p < |s|
    ensures r.Ok? ==> p < r.next < |s|
    decreases |s| - p, 2
  {
    match ParseMember(s, p, depth)
    case Fail => Fail
    case Ok(v, next) =>
      var m := SkipBlanks(s, next);
      if s[m] == COMMA then
        match ParseMembers(s, m + 1, depth)
        case Fail => Fail
        case Ok(rest, end) => Ok([v] + rest, end)
      else if s[m] == RBRACE then Ok([v], m + 1)
      else Fail
  }

  /** One member: its name, the colon, its value. */
  function ParseMember(s: bytes, p: nat, depth: nat): (r: Parsed<Json>)
    requires Terminated(s) && p < |s|
    ensures r.Ok? ==> p < r.next < |s|
    decreases |s| - p, 1
  {
    match ParseString(s, SkipBlanks(s, p))
    case Fail => Fail
    case Ok(key, next) =>
      var c := SkipBlanks(s, next);
      if s[c] != COLON then Fail
      else match ParseValue(s, SkipBlanks(s, c + 1), depth)
        case Fail => Fail
        case Ok(v, end) => Ok(Named(v, key), end)
  }

  /** `skip_utf8_bom` at offset 0. */
  function SkipBom(s: bytes): nat
    ensures SkipBom(s) < |s| || SkipBom(s) == 0
  {
    if 4 < |s| && s[..3] == BOM then 3 else 0
  }

  /** `cJSON_ParseWithOpts` on a C string: the tree and the offset of `return_parse_end`. */
  function Parse(text: bytes, requireEnd: bool): Parsed<Json>
  {
    var s := text + [NUL];
    match ParseValue(s, SkipBlanks(s, SkipBom(s)), 0)
    case Fail => Fail
    case Ok(v, next) =>
      if !requireEnd then Ok(v, next)
      else
        var e := SkipBlanks(s, next);
        if s[e] == NUL then Ok(v, e) else Fail
  }
}
