/**
 The codec between DDS samples and JSON text: what the two conversions compute, and what
 survives a conversion there and back.
 */
module Bridge {
  import opened Bytes
  import opened Doubles
  import opened Numbers
  import opened PrintedDigits
  import opened JsonStrings
  import opened Json
  import opened JsonGrammar
  import opened JsonRender
  import opened RoundTrip
  import opened Compare

  type int8 = x: int | -0x80 <= x < 0x80
  type uint8 = x: int | 0 <= x < 0x100
  type int16 = x: int | -0x8000 <= x < 0x8000
  type uint16 = x: int | 0 <= x < 0x10000
  type int32 = x: int | -0x80000000 <= x < 0x80000000
  type uint32 = x: int | 0 <= x < 0x100000000
  type int64 = x: int | -0x8000000000000000 <= x < 0x8000000000000000
  type uint64 = x: int | 0 <= x < 0x10000000000000000

  const MESSAGE_SIZE: nat := 256

  /** struct example_struct. */
  datatype Sample = Sample(int8Test: int8, uint8Test: uint8, int16Test: int16, uint16Test: uint16, int32Test: int32,
                           uint32Test: uint32, int64Test: int64, uint64Test: uint64, message: bytes,
                           exampleEnum: int32, struMessage: bytes)

  /** Both messages fill their arrays and are NUL terminated in them. */
  predicate Sound(m: Sample) {
    Message(m.message) && Message(m.struMessage)
  }

  predicate Message(s: bytes) {
    |s| == MESSAGE_SIZE && |CString(s)| < MESSAGE_SIZE
  }

  // ----- the names -----

  const INT8: string := "int8_test"
  const UINT8: string := "uint8_test"
  const INT16: string := "int16_test"
  const UINT16: string := "uint16_test"
  const INT32: string := "int32_test"
  const UINT32: string := "uint32_test"
  const INT64: string := "int64_test"
  const UINT64: string := "uint64_test"
  const MESSAGE: string := "message"
  const ENUM: string := "example_enum"
  const STRU: string := "example_stru"

  const NAMES: seq<string> := [INT8, UINT8, INT16, UINT16, INT32, UINT32, INT64, UINT64, MESSAGE, ENUM, STRU]

  lemma {:induction false} Eleven()
    ensures |NAMES| == 11
  {
  }

  predicate LowerAscii(s: string) {
    forall k | 0 <= k < |s| :: s[k] < 128 as char && !('A' <= s[k] <= 'Z') && s[k] != 0 as char
  }

  lemma {:induction false} NamesAreLower(i: nat)
    requires i < |NAMES|
    ensures LowerAscii(NAMES[i])
  {
  }

  lemma {:induction false} NamesDiffer(i: nat, k: nat)
    requires i < k < |NAMES|
    ensures NAMES[i] != NAMES[k]
  {
  }

  // ----- a sample as a tree -----

  function Key(i: nat): (r: bytes)
    requires i < |NAMES|
    ensures NoNul(r)
  {
    NamesAreLower(i);
    Ascii(NAMES[i])
  }

  /** An integer passed as a `double`. */
  function IntItem(n: int): Json {
    NumberItem(Round(n as real))
  }

  /** The value of the `i`th member. */
  function FieldItem(m: Sample, i: nat): Json
    requires i < |NAMES|
  {
    match i
    case 8 => StringItem(CString(m.message))
    case 10 => StruItem(m)
    case _ => IntItem(FieldInt(m, i))
  }

  /** The integer of a number field. */
  function FieldInt(m: Sample, i: nat): int {
    match i
    case 0 => m.int8Test
    case 1 => m.uint8Test
    case 2 => m.int16Test
    case 3 => m.uint16Test
    case 4 => m.int32Test
    case 5 => m.uint32Test
    case 6 => m.int64Test
    case 7 => m.uint64Test
    case _ => m.exampleEnum
  }

  function StruItem(m: Sample): Json {
    ObjectItem([Named(StringItem(CString(m.struMessage)), Key(8))])
  }

  function Members(m: Sample): (r: seq<Json>)
    ensures |r| == |NAMES|
    ensures forall i | 0 <= i < |NAMES| :: r[i] == Named(FieldItem(m, i), Key(i))
  {
    seq(|NAMES|, i requires 0 <= i < |NAMES| => Named(FieldItem(m, i), Key(i)))
  }

  /** The tree `HelloWorld_to_MQTT` builds. */
  function SampleJson(m: Sample): Json {
    ObjectItem(Members(m))
  }

  // ----- a tree as a sample -----

  function Member(j: Json, name: bytes): Option<Json> {
    match Find(j.kids, Some(name), false)
    case None => None
    case Some(k) => Some(j.kids[k])
  }

  predicate FitsMessage(s: Option<bytes>) {
    s.Some? && |s.value| < MESSAGE_SIZE
  }

  /** `MQTT_to_HelloWorld` can read the tree: every member is there and the messages fit. */
  predicate Complete(j: Json) {
    && (forall i | 0 <= i < |NAMES| :: Member(j, Key(i)).Some?)
    && FitsMessage(Member(j, Key(8)).value.str)
    && Member(Member(j, Key(10)).value, Key(8)).Some?
    && FitsMessage(Member(Member(j, Key(10)).value, Key(8)).value.str)
  }

  /** `valueint` of the `i`th member. */
  function IntAt(j: Json, i: nat): int
    requires Complete(j) && i < |NAMES|
  {
    Member(j, Key(i)).value.valueint
  }

  /** `strcpy` into an array: the string, its NUL, and what was behind. */
  function Copy(dest: bytes, s: bytes): (r: bytes)
    requires |s| < |dest|
    ensures |r| == |dest|
  {
    s + [NUL] + dest[|s| + 1..]
  }

  // The conversions of an `int` to the types of the fields.

  function ToInt8(x: int): (r: int8)
    ensures -0x80 <= x < 0x80 ==> r == x
  {
    (x + 0x80) % 0x100 - 0x80
  }

  function ToUint8(x: int): (r: uint8)
    ensures 0 <= x < 0x100 ==> r == x
  {
    x % 0x100
  }

  function ToInt16(x: int): (r: int16)
    ensures -0x8000 <= x < 0x8000 ==> r == x
  {
    (x + 0x8000) % 0x10000 - 0x8000
  }

  function ToUint16(x: int): (r: uint16)
    ensures 0 <= x < 0x10000 ==> r == x
  {
    x % 0x10000
  }

  function ToInt32(x: int): (r: int32)
    ensures INT_MIN <= x <= INT_MAX ==> r == x
  {
    (x + 0x80000000) % 0x100000000 - 0x80000000
  }

  function ToUint32(x: int): (r: uint32)
    ensures 0 <= x < 0x100000000 ==> r == x
  {
    x % 0x100000000
  }

  function ToInt64(x: int): (r: int64)
    ensures INT_MIN <= x <= INT_MAX ==> r == x
  {
    (x + 0x8000000000000000) % 0x10000000000000000 - 0x8000000000000000
  }

  function ToUint64(x: int): (r: uint64)
    ensures 0 <= x <= INT_MAX ==> r == x
  {
    x % 0x10000000000000000
  }

  /** Each takes the one value of its type that differs from the `int` by a multiple of the size of the type. */
  lemma {:induction false} Conversions(x: int)
    ensures (ToInt8(x) - x) % 0x100 == 0 && (ToUint8(x) - x) % 0x100 == 0
    ensures (ToInt16(x) - x) % 0x10000 == 0 && (ToUint16(x) - x) % 0x10000 == 0
    ensures (ToInt32(x) - x) % 0x100000000 == 0 && (ToUint32(x) - x) % 0x100000000 == 0
    ensures (ToInt64(x) - x) % 0x10000000000000000 == 0 && (ToUint64(x) - x) % 0x10000000000000000 == 0
  {
    Wraps(x, 0x80, 0x100);
    Wraps(x, 0, 0x100);
    Wraps(x, 0x8000, 0x10000);
    Wraps(x, 0, 0x10000);
    Wraps(x, 0x80000000, 0x100000000);
    Wraps(x, 0, 0x100000000);
    Wraps(x, 0x8000000000000000, 0x10000000000000000);
    Wraps(x, 0, 0x10000000000000000);
  }

  lemma {:induction false} Wraps(x: int, h: int, n: int)
    requires n > 0
    ensures ((x + h) % n - h - x) % n == 0
  {
    var q := (x + h) / n;
    assert (x + h) % n - h - x == n * -q;
    Multiple(n, -q);
  }

  lemma {:induction false} Multiple(n: int, q: int)
    requires n > 0
    ensures n * q % n == 0
  {
    var a := n * q;
    NoRest(n, a, q, a / n, a % n);
  }

  lemma {:induction false} NoRest(n: int, a: int, q: int, d: int, r: int)
    requires n > 0 && a == n * q && a == n * d + r && 0 <= r < n
    ensures r == 0
  {
    var k := q - d;
    assert n * k == r;
    assert k >= 1 ==> n * k >= n;
    assert k <= -1 ==> n * k <= -n;
  }

  /** What `MQTT_to_HelloWorld` leaves in the struct, which was `was`. */
  function Filled(j: Json, was: Sample): Sample
    requires Complete(j) && |was.message| == |was.struMessage| == MESSAGE_SIZE
  {
    Sample(
      ToInt8(IntAt(j, 0)), ToUint8(IntAt(j, 1)), ToInt16(IntAt(j, 2)), ToUint16(IntAt(j, 3)),
      ToInt32(IntAt(j, 4)), ToUint32(IntAt(j, 5)), ToInt64(IntAt(j, 6)), ToUint64(IntAt(j, 7)),
      Copy(was.message, Member(j, Key(8)).value.str.value),
      ToInt32(IntAt(j, 9)),
      Copy(was.struMessage, Member(Member(j, Key(10)).value, Key(8)).value.str.value))
  }

  // ----- the names, one by one -----

  lemma {:induction false} KeysAre()
    ensures |NAMES| == 11 && Key(0) == Ascii("int8_test") && Key(1) == Ascii("uint8_test")
    ensures Key(2) == Ascii("int16_test") && Key(3) == Ascii("uint16_test")
    ensures Key(4) == Ascii("int32_test") && Key(5) == Ascii("uint32_test")
    ensures Key(6) == Ascii("int64_test") && Key(7) == Ascii("uint64_test")
    ensures Key(8) == Ascii("message") && Key(9) == Ascii("example_enum") && Key(10) == Ascii("example_stru")
  {
  }

  /** Which field goes under which name, and in which order. */
  lemma {:induction false} SampleMembers(m: Sample)
    ensures SampleJson(m) ==
            ObjectItem([
              Named(IntItem(m.int8Test), Ascii("int8_test")), Named(IntItem(m.uint8Test), Ascii("uint8_test")),
              Named(IntItem(m.int16Test), Ascii("int16_test")), Named(IntItem(m.uint16Test), Ascii("uint16_test")),
              Named(IntItem(m.int32Test), Ascii("int32_test")), Named(IntItem(m.uint32Test), Ascii("uint32_test")),
              Named(IntItem(m.int64Test), Ascii("int64_test")), Named(IntItem(m.uint64Test), Ascii("uint64_test")),
              Named(StringItem(CString(m.message)), Ascii("message")),
              Named(IntItem(m.exampleEnum), Ascii("example_enum")),
              Named(ObjectItem([Named(StringItem(CString(m.struMessage)), Ascii("message"))]), Ascii("example_stru"))])
  {
    hide Key, IntItem, CString, Ascii;
    KeysAre();
  }

  /** The member of an object under a name of the interface. */
  function Under(j: Json, name: string): Option<Json> {
    Member(j, Ascii(name))
  }

  /** `valueint` of the member under the name, if it is there. */
  function NumberUnder(j: Json, name: string): Option<int> {
    match Under(j, name) case None => None case Some(item) => Some(item.valueint)
  }

  /** The string of the member under the name. */
  function TextUnder(j: Json, name: string): Option<bytes> {
    match Under(j, name) case None => None case Some(item) => item.str
  }

  /** The eleven members and the inner one are there, and the two messages have at most 255 bytes. */
  predicate HasEleven(j: Json) {
    && Under(j, "int8_test").Some? && Under(j, "uint8_test").Some? && Under(j, "int16_test").Some?
    && Under(j, "uint16_test").Some? && Under(j, "int32_test").Some? && Under(j, "uint32_test").Some?
    && Under(j, "int64_test").Some? && Under(j, "uint64_test").Some? && Under(j, "example_enum").Some?
    && TextUnder(j, "message").Some? && |TextUnder(j, "message").value| <= 255
    && Under(j, "example_stru").Some?
    && var stru := Under(j, "example_stru").value;
       TextUnder(stru, "message").Some? && |TextUnder(stru, "message").value| <= 255
  }

  /** Each field comes from the member under its own name, converted to the type of the field. */
  predicate FilledFrom(r: Sample, j: Json) {
    && HasEleven(j)
    && r.int8Test == ToInt8(NumberUnder(j, "int8_test").value)
    && r.uint8Test == ToUint8(NumberUnder(j, "uint8_test").value)
    && r.int16Test == ToInt16(NumberUnder(j, "int16_test").value)
    && r.uint16Test == ToUint16(NumberUnder(j, "uint16_test").value)
    && r.int32Test == ToInt32(NumberUnder(j, "int32_test").value)
    && r.uint32Test == ToUint32(NumberUnder(j, "uint32_test").value)
    && r.int64Test == ToInt64(NumberUnder(j, "int64_test").value)
    && r.uint64Test == ToUint64(NumberUnder(j, "uint64_test").value)
    && r.exampleEnum == ToInt32(NumberUnder(j, "example_enum").value)
    && |r.message| == 256 && TextUnder(j, "message").value + [0] <= r.message
    && |r.struMessage| == 256 && TextUnder(Under(j, "example_stru").value, "message").value + [0] <= r.struMessage
  }

  lemma {:induction false} CompleteIff(j: Json)
    ensures Complete(j) <==> HasEleven(j)
  {
    hide Key, Member, Ascii;
    KeysAre();
  }

  lemma {:induction false} FilledByName(j: Json, was: Sample)
    requires Complete(j) && |was.message| == |was.struMessage| == MESSAGE_SIZE
    ensures FilledFrom(Filled(j, was), j)
  {
    hide Key, Member, Ascii, Complete, ToInt8, ToUint8, ToInt16, ToUint16, ToInt32, ToUint32, ToInt64, ToUint64;
    CompleteIff(j);
    KeysAre();
  }

  // ----- there and back -----

  function Clamp(n: int): (r: int)
    ensures INT_MIN <= r <= INT_MAX
    ensures r == n <==> INT_MIN <= n <= INT_MAX
  {
    if n > INT_MAX then INT_MAX else if n < INT_MIN then INT_MIN else n
  }

  /** The integers of at most 64 bits, with a sign or without. */
  predicate Wide(n: int) {
    -0x8000000000000000 <= n < 0x10000000000000000
  }

  /** An integer of 16 digits or more is no nearer to 0 as a double. */
  lemma {:induction false} WideRound(n: int)
    ensures n >= LIMIT_15 ==> Round(n as real) >= LIMIT_15 as real
    ensures n <= -LIMIT_15 ==> Round(n as real) <= -LIMIT_15 as real
  {
    hide Round, IsDouble;
    IntegersAreDoubles(LIMIT_15);
    if n >= LIMIT_15 {
      Nearest(n as real, LIMIT_15 as real);
    } else if n <= -LIMIT_15 {
      Nearest((-n) as real, LIMIT_15 as real);
      Opposite((-n) as real);
      assert -((-n) as real) == n as real;
    }
  }

  /** What compares equal to a number outside the range of `int` lies outside on the same side. */
  lemma {:induction false} NearIsOutside(v: real, d: real)
    requires CompareDouble(v, d)
    ensures d >= LIMIT_15 as real ==> v >= INT_MAX as real
    ensures d <= -LIMIT_15 as real ==> v <= INT_MIN as real
  {
    var max := if Abs(v) > Abs(d) then Abs(v) else Abs(d);
    assert max * EPSILON <= max / 2.0;
  }

  /** An integer of at most 64 bits is a finite double. */
  lemma {:induction false} WideIsFinite(n: int)
    requires Wide(n)
    ensures IsDouble(Round(n as real)) && Finite(Round(n as real))
  {
    hide Round, IsDouble, Pow2;
    RoundIsDouble(n as real);
    if -LIMIT_15 < n < LIMIT_15 {
      SmallIsFinite(n);
    } else {
      var x := if n < 0 then (-n) as real else n as real;
      TwoTo64();
      Representable(Pow2(64), 1, 64);
      Nearest(x, Pow2(64));
      WideRound(n);
      Opposite((-n) as real);
      assert -((-n) as real) == n as real;
    }
  }

  lemma {:induction false} SmallIsFinite(n: int)
    requires -LIMIT_15 < n < LIMIT_15
    ensures Round(n as real) == n as real && Finite(n as real)
  {
    hide Round, IsDouble, Pow2;
    if n != 0 {
      IntegerDecimal(n);
    } else {
      ZeroIsDouble();
      FixedByRound(0.0);
    }
  }

  lemma {:induction false} TwoTo64()
    ensures Pow2(64) == 18446744073709551616.0 && 4.0 * Pow2(64) <= Pow2(1024)
  {
    hide Pow2;
    assert Pow2(0) == 1.0 by { PowZero(); }
    Pow53(0);
    Eight(53);
    Pow2Next(61);
    Pow2Next(62);
    Pow2Next(63);
    Pow2Next(64);
    Pow2Next(65);
    Pow2Grows(66, 1024);
  }

  /** A number there and back is clamped to the range of `int`. */
  lemma {:induction false} NumberThereAndBack(f: Sprintf, n: int)
    requires Correct(f) && Wide(n)
    ensures var d := Round(n as real);
            && NumberToken(NumberText(f, d)) && PrintableNumber(f, d)
            && Saturate(RereadNumber(f, d)) == Clamp(n)
  {
    hide NumberToken, NumberText, RereadNumber, Truncate, Round, IsDouble, Reads15, Reads17, CompareDouble, Correct,
      CorrectFor, Finite, IsDecimal15;
    var d := Round(n as real);
    WideIsFinite(n);
    CorrectPrints(f, d);
    if -LIMIT_15 < n < LIMIT_15 {
      SmallThereAndBack(f, n);
      SaturateInteger(n);
    } else {
      RereadIsNear(f, d);
      WideRound(n);
      NearIsOutside(RereadNumber(f, d), d);
    }
  }

  lemma {:induction false} SmallThereAndBack(f: Sprintf, n: int)
    requires Correct(f) && -LIMIT_15 < n < LIMIT_15
    ensures RereadNumber(f, Round(n as real)) == n as real
  {
    hide RereadNumber, Round, IsDouble, CorrectFor, Finite, IsDecimal15;
    SmallIsFinite(n);
    if n == 0 {
      ZeroPrints(f);
    } else {
      IntegerDecimal(n);
      IntegersAreDoubles(n);
      assert CorrectFor(f, n as real);
      LibraryWrites15(f, n as real);
      FifteenDigits(f, n as real, n, 0);
    }
  }

  lemma {:induction false} LibraryWrites15(f: Sprintf, d: real)
    requires CorrectFor(f, d)
    ensures Writes15(CString(f.g15(d)), d)
  {
  }

  /** The sample after the journey: the wide integers are clamped, and the messages copied over the old ones. */
  function Arrived(m: Sample, was: Sample): Sample
    requires Sound(m) && |was.message| == |was.struMessage| == MESSAGE_SIZE
  {
    m.(uint32Test := Clamp(m.uint32Test), int64Test := Clamp(m.int64Test), uint64Test := Clamp(m.uint64Test),
       message := Copy(was.message, CString(m.message)), struMessage := Copy(was.struMessage, CString(m.struMessage)))
  }

  // ----- what the printed text denotes -----

  lemma {:induction false} RereadAt(f: Sprintf, kids: seq<Json>, i: nat)
    requires i < |kids|
    ensures RereadMembers(f, kids)[i] == Named(Reread(f, kids[i]), OrEmpty(kids[i].key))
    decreases |kids|
  {
    hide Reread;
    if i > 0 {
      RereadAt(f, kids[1..], i - 1);
    }
  }

  /** The `i`th member of the tree read again. */
  lemma {:induction false} RereadMember(f: Sprintf, m: Sample, i: nat)
    requires i < |NAMES|
    ensures |RereadMembers(f, Members(m))| == |NAMES|
    ensures RereadMembers(f, Members(m))[i] == Named(Reread(f, FieldItem(m, i)), Key(i))
  {
    hide FieldItem, Key;
    RereadAt(f, Members(m), i);
    RereadUnnamed(f, FieldItem(m, i), Key(i));
  }

  /** The name of an item does not matter to how its value is read again. */
  lemma {:induction false} RereadUnnamed(f: Sprintf, j: Json, name: bytes)
    ensures Reread(f, Named(j, name)) == Reread(f, j)
  {
  }

  lemma {:induction false} KeysDiffer(i: nat, k: nat)
    requires i < k < |NAMES|
    ensures !Match(Some(Key(i)), Some(Key(k)), false)
  {
    KeyFolds(i);
    KeyFolds(k);
    NamesDiffer(i, k);
    NamesAreLower(i);
    NamesAreLower(k);
    AsciiInjective(NAMES[i], NAMES[k]);
  }

  lemma {:induction false} KeyFolds(i: nat)
    requires i < |NAMES|
    ensures Fold(Key(i)) == Key(i)
  {
    NamesAreLower(i);
  }

  lemma {:induction false} AsciiInjective(s: string, t: string)
    requires LowerAscii(s) && LowerAscii(t)
    ensures Ascii(s) == Ascii(t) ==> s == t
  {
    if Ascii(s) == Ascii(t) {
      forall k | 0 <= k < |s| ensures s[k] == t[k] {
        assert Ascii(s)[k] == Ascii(t)[k];
      }
    }
  }

  /** Look-up in a list that has the names of a sample, in their order. */
  lemma {:induction false} FindsMember(kids: seq<Json>, i: nat)
    requires |kids| == |NAMES| && forall k | 0 <= k < |NAMES| :: kids[k].key == Some(Key(k))
    requires i < |NAMES|
    ensures Member(ObjectItem(kids), Key(i)) == Some(kids[i])
  {
    hide Key, Find, Table, Match, Canon;
    forall a, b | 0 <= a < b < |kids| ensures !Match(kids[a].key, kids[b].key, false) {
      KeysDiffer(a, b);
    }
    FindTable(kids, Key(i), false);
    TableOwn(kids, false, i);
  }

  /** Every item of the sample's tree prints as a token the parser takes whole. */
  lemma {:induction false} SamplePlain(f: Sprintf, m: Sample)
    requires Correct(f)
    ensures Plain(f, SampleJson(m)) && Height(SampleJson(m)) <= 1000
  {
    hide Correct, NumberToken, NumberText, Key;
    forall i | 0 <= i < |NAMES| ensures Plain(f, Members(m)[i]) && Height(Members(m)[i]) <= 1 {
      FieldPlain(f, m, i);
      PlainNamed(f, FieldItem(m, i), Key(i));
    }
    LowHeight(Members(m));
  }

  lemma {:induction false} LowHeight(js: seq<Json>)
    requires forall k | 0 <= k < |js| :: Height(js[k]) <= 1
    ensures MaxHeight(js) <= 1
  {
    hide Height;
    if js != [] {
      LowHeight(js[1..]);
    }
  }

  lemma {:induction false} PlainNamed(f: Sprintf, j: Json, name: bytes)
    requires Plain(f, j) && NoNul(name)
    ensures Plain(f, Named(j, name)) && Height(Named(j, name)) == Height(j)
  {
  }

  lemma {:induction false} FieldIsWide(m: Sample, i: nat)
    ensures Wide(FieldInt(m, i))
  {
  }

  lemma {:induction false} FieldPlain(f: Sprintf, m: Sample, i: nat)
    requires Correct(f) && i < |NAMES|
    ensures Plain(f, FieldItem(m, i)) && Height(FieldItem(m, i)) <= 1
  {
    hide Correct, NumberToken, NumberText, Key, CString;
    if i < 8 || i == 9 {
      FieldIsWide(m, i);
      NumberThereAndBack(f, FieldInt(m, i));
    } else if i == 10 {
      StruPlain(f, m);
    }
  }

  lemma {:induction false} StruPlain(f: Sprintf, m: Sample)
    ensures Plain(f, StruItem(m)) && Height(StruItem(m)) <= 1
    ensures Reread(f, StruItem(m)) == StruItem(m)
  {
    hide Key, CString;
    var k := Named(StringItem(CString(m.struMessage)), Key(8));
    assert Plain(f, k) && Height(k) == 0;
    assert MaxHeight([k]) == 0 by {
      assert [k][1..] == [];
    }
    RereadAt(f, [k], 0);
    assert RereadMembers(f, [k]) == [k];
  }

  /** What each member becomes: its number clamped, its string the same. */
  lemma {:induction false} FieldReread(f: Sprintf, m: Sample, i: nat)
    requires Correct(f) && i < |NAMES|
    ensures var r := Reread(f, FieldItem(m, i));
            && (i < 8 || i == 9 ==> r.valueint == Clamp(FieldInt(m, i)))
            && (i == 8 ==> r.str == Some(CString(m.message)))
            && (i == 10 ==> r == StruItem(m))
  {
    hide Correct, NumberToken, RereadNumber, Key, CString, Saturate;
    if i < 8 || i == 9 {
      FieldIsWide(m, i);
      NumberThereAndBack(f, FieldInt(m, i));
    } else if i == 10 {
      StruPlain(f, m);
    }
  }

  /** What the parser makes of the text of a sample. */
  function Back(f: Sprintf, m: Sample): Json {
    ObjectItem(RereadMembers(f, Members(m)))
  }

  lemma {:induction false} BackMember(f: Sprintf, m: Sample, i: nat)
    requires i < |NAMES|
    ensures Member(Back(f, m), Key(i)) == Some(Named(Reread(f, FieldItem(m, i)), Key(i)))
  {
    hide Key, Reread, FieldItem, Member, NAMES;
    forall k | 0 <= k < |NAMES| ensures RereadMembers(f, Members(m))[k].key == Some(Key(k)) {
      RereadMember(f, m, k);
    }
    RereadMember(f, m, i);
    FindsMember(RereadMembers(f, Members(m)), i);
  }

  lemma {:induction false} StruMember(m: Sample)
    ensures Member(StruItem(m), Key(8)) == Some(StruItem(m).kids[0])
  {
    hide Key, CString;
    assert Match(Some(Key(8)), Some(Key(8)), false);
  }

  /** A member's value under its name has the same number, string and members. */
  lemma {:induction false} MemberOfNamed(j: Json, name: bytes, inner: bytes)
    ensures Named(j, name).valueint == j.valueint && Named(j, name).str == j.str
    ensures Member(Named(j, name), inner) == Member(j, inner)
  {
    hide Find;
  }

  /** What is read at each place of the tree. */
  lemma {:induction false} BackReads(f: Sprintf, m: Sample)
    requires Correct(f) && Sound(m)
    ensures Complete(Back(f, m))
    ensures forall i | 0 <= i < |NAMES| && i != 8 && i != 10 :: IntAt(Back(f, m), i) == Clamp(FieldInt(m, i))
    ensures Member(Back(f, m), Key(8)).value.str.value == CString(m.message)
    ensures Member(Member(Back(f, m), Key(10)).value, Key(8)).value.str.value == CString(m.struMessage)
  {
    hide Key, Reread, FieldItem, FieldInt, Member, Correct, CString, Back;
    var j := Back(f, m);
    forall i | 0 <= i < |NAMES|
      ensures Member(j, Key(i)).Some?
      ensures i != 8 && i != 10 ==> Member(j, Key(i)).value.valueint == Clamp(FieldInt(m, i))
    {
      BackMember(f, m, i);
      FieldReread(f, m, i);
      MemberOfNamed(Reread(f, FieldItem(m, i)), Key(i), Key(8));
    }
    BackMember(f, m, 8);
    FieldReread(f, m, 8);
    BackMember(f, m, 10);
    FieldReread(f, m, 10);
    MemberOfNamed(StruItem(m), Key(10), Key(8));
    StruMember(m);
  }

  /**
   Main result: a sample converted to text and back keeps its messages, its enumeration and
   every integer of at most 32 bits but the unsigned 32 bit one; that one and the 64 bit
   integers are clamped to the range of `int`.
   */
  lemma {:induction false} ThereAndBack(f: Sprintf, m: Sample, was: Sample)
    requires Correct(f) && Sound(m) && |was.message| == |was.struMessage| == MESSAGE_SIZE
    ensures var text := Render(f, SampleJson(m), true, 0);
            Parse(text, false) == Ok(Back(f, m), |text|)
    ensures Complete(Back(f, m)) && Filled(Back(f, m), was) == Arrived(m, was)
  {
    hide *;
    SamplePlain(f, m);
    PrintThenParse(f, SampleJson(m), true, false);
    BackIs(f, m);
    BackReads(f, m);
    Eleven();
    ArrivedIs(Back(f, m), m, was);
  }

  lemma {:induction false} ArrivedIs(j: Json, m: Sample, was: Sample)
    requires Complete(j) && Sound(m) && |was.message| == |was.struMessage| == MESSAGE_SIZE && |NAMES| == 11
    requires forall i | 0 <= i < |NAMES| && i != 8 && i != 10 :: IntAt(j, i) == Clamp(FieldInt(m, i))
    requires Member(j, Key(8)).value.str.value == CString(m.message)
    requires Member(Member(j, Key(10)).value, Key(8)).value.str.value == CString(m.struMessage)
    ensures Filled(j, was) == Arrived(m, was)
  {
    hide Key, Member, CString, Complete, NAMES, IntAt, Copy;
    SmallInts(j, m);
    WideInts(j, m);
  }

  lemma {:induction false} SmallInts(j: Json, m: Sample)
    requires Complete(j) && |NAMES| == 11
    requires forall i | 0 <= i < |NAMES| && i != 8 && i != 10 :: IntAt(j, i) == Clamp(FieldInt(m, i))
    ensures IntAt(j, 0) == m.int8Test && IntAt(j, 1) == m.uint8Test && IntAt(j, 2) == m.int16Test
    ensures IntAt(j, 3) == m.uint16Test && IntAt(j, 4) == m.int32Test && IntAt(j, 9) == m.exampleEnum
  {
    hide Complete, NAMES, IntAt;
  }

  lemma {:induction false} WideInts(j: Json, m: Sample)
    requires Complete(j) && |NAMES| == 11
    requires forall i | 0 <= i < |NAMES| && i != 8 && i != 10 :: IntAt(j, i) == Clamp(FieldInt(m, i))
    ensures IntAt(j, 5) == Clamp(m.uint32Test) && IntAt(j, 6) == Clamp(m.int64Test)
    ensures IntAt(j, 7) == Clamp(m.uint64Test)
  {
    hide Complete, NAMES, IntAt, Clamp;
  }

  lemma {:induction false} BackIs(f: Sprintf, m: Sample)
    ensures Reread(f, SampleJson(m)) == Back(f, m)
  {
    hide Key;
  }

  /** Two samples a reader of their fields and C strings cannot tell apart. */
  predicate SameSample(a: Sample, b: Sample) {
    a.(message := [], struMessage := []) == b.(message := [], struMessage := [])
    && CString(a.message) == CString(b.message) && CString(a.struMessage) == CString(b.struMessage)
  }

  /** The journey changes nothing exactly when the three wide integers are in the range of `int`. */
  lemma {:induction false} UnchangedIffNarrow(f: Sprintf, m: Sample, was: Sample)
    requires Correct(f) && Sound(m) && |was.message| == |was.struMessage| == MESSAGE_SIZE
    ensures Complete(Back(f, m))
    ensures SameSample(Filled(Back(f, m), was), m) <==>
              m.uint32Test <= INT_MAX && INT_MIN <= m.int64Test <= INT_MAX && m.uint64Test <= INT_MAX
  {
    hide Key, Member, Correct, CString, Back, Complete, Filled;
    ThereAndBack(f, m, was);
    CopiedText(was.message, CString(m.message));
    CopiedText(was.struMessage, CString(m.struMessage));
  }

  lemma {:induction false} CopiedText(dest: bytes, s: bytes)
    requires |s| < |dest| && NoNul(s)
    ensures CString(Copy(dest, s)) == s
  {
    CStringOfText(s, [NUL] + dest[|s| + 1..]);
    assert Copy(dest, s) == s + ([NUL] + dest[|s| + 1..]);
  }

  // ----- the text can be printed -----

  lemma {:induction false} EscapeBound(s: bytes)
    ensures |EscapeText(s)| <= 6 * |s|
  {
    if s != [] {
      EscapeBound(s[1..]);
    }
  }

  lemma {:induction false} KeyBound(i: nat)
    requires i < |NAMES|
    ensures |Key(i)| <= 12
  {
  }

  /** A member's text is short when its value's is. */
  lemma {:induction false} MemberBound(f: Sprintf, j: Json, i: nat, depth: nat, more: bool)
    requires i < |NAMES| && j.key == Some(Key(i)) && depth <= 2
    ensures |MemberHead(j.key, true, depth) + Render(f, j, true, depth) + MemberGap(true, more)| <=
            |Render(f, j, true, depth)| + 80
  {
    hide Key, Render;
    KeyBound(i);
    EscapeBound(Key(i));
  }

  lemma {:induction false} FieldBound(f: Sprintf, m: Sample, i: nat)
    requires Correct(f) && Sound(m) && i < |NAMES|
    ensures Printable(f, Named(FieldItem(m, i), Key(i)))
    ensures |Render(f, Named(FieldItem(m, i), Key(i)), true, 1)| <= 2000
  {
    hide Correct, NumberText, Key, CString, EscapeText;
    if i < 8 || i == 9 {
      FieldIsWide(m, i);
      NumberThereAndBack(f, FieldInt(m, i));
    } else if i == 8 {
      EscapeBound(CString(m.message));
    } else {
      StruBound(f, m);
    }
  }

  lemma {:induction false} StruBound(f: Sprintf, m: Sample)
    requires Sound(m)
    ensures var j := Named(StruItem(m), Key(10)); Printable(f, j) && |Render(f, j, true, 1)| <= 2000
  {
    hide Key, CString, EscapeText, MemberHead;
    var k := Named(StringItem(CString(m.struMessage)), Key(8));
    EscapeBound(CString(m.struMessage));
    MemberBound(f, k, 8, 2, false);
    assert |Render(f, k, true, 2)| <= 6 * 255 + 2;
    OneMember(f, k, 2);
  }

  lemma {:induction false} OneMember(f: Sprintf, k: Json, depth: nat)
    ensures RenderMembers(f, [k], true, depth) ==
            MemberHead(k.key, true, depth) + Render(f, k, true, depth) + MemberGap(true, false)
  {
    hide Render, MemberHead;
    assert [k][1..] == [];
  }

  lemma {:induction false} MembersBound(f: Sprintf, kids: seq<Json>, n: nat)
    requires n + |kids| == |NAMES|
    requires forall k | 0 <= k < |kids| :: kids[k].key == Some(Key(n + k)) && |Render(f, kids[k], true, 1)| <= 2000
    ensures |RenderMembers(f, kids, true, 1)| <= 2080 * |kids|
    decreases |kids|
  {
    hide Key, Render, MemberHead, MemberGap, NAMES;
    if kids != [] {
      assert kids[0].key == Some(Key(n));
      MemberBound(f, kids[0], n, 1, |kids| > 1);
      assert forall k | 0 <= k < |kids[1..]| :: kids[1..][k] == kids[k + 1];
      MembersBound(f, kids[1..], n + 1);
    }
  }

  /** Every sample prints, in any buffer the printer may allocate. */
  lemma {:induction false} SamplePrints(f: Sprintf, m: Sample)
    requires Correct(f) && Sound(m)
    ensures Printable(f, SampleJson(m)) && |Render(f, SampleJson(m), true, 0)| + 2 <= INT_MAX
  {
    hide Correct, Key, FieldItem, Sound, RenderMembers;
    forall i | 0 <= i < |NAMES|
      ensures Printable(f, Members(m)[i]) && |Render(f, Members(m)[i], true, 1)| <= 2000
    {
      FieldBound(f, m, i);
    }
    MembersBound(f, Members(m), 0);
  }
}
