/** The payload of a sample, written out: the JSON text subscribers of the MQTT topic see. */
module Payload {
  import opened Bytes
  import opened Doubles
  import opened Numbers
  import opened JsonStrings
  import opened Json
  import opened JsonRender
  import opened Bridge

  /** One line for each member: its name and the text of its value. */
  function Lines(members: seq<(string, bytes)>): bytes {
    if members == [] then []
    else
      Ascii("\t\"") + Ascii(members[0].0) + Ascii("\":\t") + members[0].1 +
      Ascii(if |members| > 1 then ",\n" else "\n") + Lines(members[1..])
  }

  /** The text of an integer field. */
  function Digits(f: Sprintf, n: int): bytes {
    NumberText(f, Round(n as real))
  }

  /** A message as a string literal. */
  function Literal(message: bytes): bytes {
    Ascii("\"") + EscapeText(CString(message)) + Ascii("\"")
  }

  function PayloadText(f: Sprintf, m: Sample): bytes {
    Ascii("{\n") +
    Lines([
      ("int8_test", Digits(f, m.int8Test)), ("uint8_test", Digits(f, m.uint8Test)),
      ("int16_test", Digits(f, m.int16Test)), ("uint16_test", Digits(f, m.uint16Test)),
      ("int32_test", Digits(f, m.int32Test)), ("uint32_test", Digits(f, m.uint32Test)),
      ("int64_test", Digits(f, m.int64Test)), ("uint64_test", Digits(f, m.uint64Test)),
      ("message", Literal(m.message)), ("example_enum", Digits(f, m.exampleEnum)),
      ("example_stru", Ascii("{\n\t\t\"message\":\t") + Literal(m.struMessage) + Ascii("\n\t}"))]) +
    Ascii("}")
  }

  /** A name of letters, digits and underscores prints as itself. */
  lemma {:induction false} PlainText(s: bytes)
    requires forall k | 0 <= k < |s| :: s[k] > 31 && s[k] != QUOTE && s[k] != BACKSLASH
    ensures EscapeText(s) == s
  {
    if s != [] {
      PlainText(s[1..]);
    }
  }

  predicate PlainName(name: string) {
    forall k | 0 <= k < |name| :: ' ' <= name[k] <= '~' && name[k] != '"' && name[k] != '\\'
  }

  lemma {:induction false} HeadIs(name: string, depth: nat)
    requires PlainName(name)
    ensures MemberHead(Some(Ascii(name)), true, depth) ==
            Tabs(depth) + ([QUOTE] + Ascii(name) + [QUOTE]) + [COLON] + [TAB]
  {
    PlainText(Ascii(name));
  }

  lemma {:induction false} Marks()
    ensures Ascii("\"") == [QUOTE] && Ascii("}") == [RBRACE] && Ascii("{\n") == [LBRACE, LF]
    ensures Ascii("\t\"") == [TAB, QUOTE] && Ascii("\":\t") == [QUOTE, COLON, TAB]
    ensures Ascii(",\n") == [COMMA, LF] && Ascii("\n") == [LF]
  {
  }

  lemma {:induction false} OneTab()
    ensures Tabs(1) == [TAB] && Tabs(2) == [TAB, TAB] && Tabs(0) == []
  {
  }

  /** A member on its line. */
  lemma {:induction false} LineIs(name: string, text: bytes, more: bool, rest: bytes)
    requires PlainName(name)
    ensures MemberHead(Some(Ascii(name)), true, 1) + text + MemberGap(true, more) + rest ==
            Ascii("\t\"") + Ascii(name) + Ascii("\":\t") + text + Ascii(if more then ",\n" else "\n") + rest
  {
    hide MemberHead, Ascii, Tabs, PlainName;
    HeadIs(name, 1);
    OneTab();
    Marks();
  }

  lemma {:induction false} MembersAre(f: Sprintf, kids: seq<Json>, members: seq<(string, bytes)>)
    requires |kids| == |members|
    requires forall k | 0 <= k < |kids| ::
               && PlainName(members[k].0) && kids[k].key == Some(Ascii(members[k].0))
               && Render(f, kids[k], true, 1) == members[k].1
    ensures RenderMembers(f, kids, true, 1) == Lines(members)
    decreases |kids|
  {
    hide MemberHead, MemberGap, Render, Ascii, PlainName;
    if kids != [] {
      MembersAre(f, kids[1..], members[1..]);
      LineIs(members[0].0, members[0].1, |kids| > 1, Lines(members[1..]));
    }
  }

  lemma {:induction false} NumberRenders(f: Sprintf, n: int, key: bytes)
    ensures Render(f, Named(IntItem(n), key), true, 1) == Digits(f, n)
  {
    hide NumberText, Round;
  }

  lemma {:induction false} MessageRenders(f: Sprintf, message: bytes, key: bytes, depth: nat)
    ensures Render(f, Named(StringItem(CString(message)), key), true, depth) == Literal(message)
  {
    hide CString, EscapeText, Ascii;
    Marks();
  }

  lemma {:induction false} StruRenders(f: Sprintf, message: bytes, key: bytes)
    ensures Render(f, Named(ObjectItem([Named(StringItem(CString(message)), Ascii("message"))]), key), true, 1) ==
            Ascii("{\n\t\t\"message\":\t") + Literal(message) + Ascii("\n\t}")
  {
    hide CString, Literal, MemberHead, MemberGap, Ascii, Tabs, PlainName, RenderMembers, Render;
    var k := Named(StringItem(CString(message)), Ascii("message"));
    OneMember(f, k, 2);
    MessageRenders(f, message, Ascii("message"), 2);
    PlainNames();
    HeadIs("message", 2);
    OneTab();
    InnerMarks();
    InnerObject(f, k, key);
    InnerLines(Ascii("message"), Literal(message));
  }

  lemma {:induction false} InnerObject(f: Sprintf, k: Json, key: bytes)
    ensures Render(f, Named(ObjectItem([k]), key), true, 1) ==
            [LBRACE] + [LF] + RenderMembers(f, [k], true, 2) + [TAB] + [RBRACE]
  {
    hide RenderMembers;
    OneTab();
  }

  lemma {:induction false} InnerLines(name: bytes, text: bytes)
    ensures [LBRACE] + [LF] +
            ([TAB, TAB] + ([QUOTE] + name + [QUOTE]) + [COLON] + [TAB] + text + MemberGap(true, false)) +
            [TAB] + [RBRACE] ==
            [LBRACE, LF, TAB, TAB, QUOTE] + name + [QUOTE, COLON, TAB] + text + [LF, TAB, RBRACE]
  {
  }

  lemma {:induction false} InnerMarks()
    ensures Ascii("{\n\t\t\"message\":\t") == [LBRACE, LF, TAB, TAB, QUOTE] + Ascii("message") + [QUOTE, COLON, TAB]
    ensures Ascii("\n\t}") == [LF, TAB, RBRACE]
  {
  }

  lemma {:induction false} PlainNames()
    ensures PlainName("int8_test") && PlainName("uint8_test") && PlainName("int16_test") && PlainName("uint16_test")
    ensures PlainName("int32_test") && PlainName("uint32_test") && PlainName("int64_test") && PlainName("uint64_test")
    ensures PlainName("message") && PlainName("example_enum") && PlainName("example_stru")
  {
  }

  /** The formatted text of a sample, byte for byte. */
  lemma {:induction false} PayloadIs(f: Sprintf, m: Sample)
    ensures Render(f, SampleJson(m), true, 0) == PayloadText(f, m)
  {
    hide Ascii, PlainName, Digits, Literal, Render, IntItem, CString, RenderMembers, Lines, NAMES;
    SampleMembers(m);
    NumberRenders(f, m.int8Test, Ascii("int8_test"));
    NumberRenders(f, m.uint8Test, Ascii("uint8_test"));
    NumberRenders(f, m.int16Test, Ascii("int16_test"));
    NumberRenders(f, m.uint16Test, Ascii("uint16_test"));
    NumberRenders(f, m.int32Test, Ascii("int32_test"));
    NumberRenders(f, m.uint32Test, Ascii("uint32_test"));
    NumberRenders(f, m.int64Test, Ascii("int64_test"));
    NumberRenders(f, m.uint64Test, Ascii("uint64_test"));
    MessageRenders(f, m.message, Ascii("message"), 1);
    NumberRenders(f, m.exampleEnum, Ascii("example_enum"));
    StruRenders(f, m.struMessage, Ascii("example_stru"));
    PlainNames();
    var members := [
      ("int8_test", Digits(f, m.int8Test)), ("uint8_test", Digits(f, m.uint8Test)),
      ("int16_test", Digits(f, m.int16Test)), ("uint16_test", Digits(f, m.uint16Test)),
      ("int32_test", Digits(f, m.int32Test)), ("uint32_test", Digits(f, m.uint32Test)),
      ("int64_test", Digits(f, m.int64Test)), ("uint64_test", Digits(f, m.uint64Test)),
      ("message", Literal(m.message)), ("example_enum", Digits(f, m.exampleEnum)),
      ("example_stru", Ascii("{\n\t\t\"message\":\t") + Literal(m.struMessage) + Ascii("\n\t}"))];
    MembersAre(f, SampleJson(m).kids, members);
    ObjectRenders(f, SampleJson(m));
    Marks();
  }

  lemma {:induction false} ObjectRenders(f: Sprintf, j: Json)
    requires j.kind == Object
    ensures Render(f, j, true, 0) == [LBRACE, LF] + RenderMembers(f, j.kids, true, 1) + [RBRACE]
  {
    hide RenderMembers;
    OneTab();
  }
}
