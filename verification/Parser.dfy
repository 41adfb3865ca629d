/** The recursive-descent parser on its buffer and on the heap. */
module Parser {
  import opened Bytes
  import opened Numbers
  import opened Unicode
  import opened JsonStrings
  import opened Json
  import opened JsonGrammar
  import Grammar = JsonGrammar
  import Doc = JsonDocument
  import opened Heap
  import opened HeapLists

  class ParseBuffer {
    const content: bytes
    const heap: Allocator
    var offset: nat
    var depth: nat

    constructor (content: bytes, heap: Allocator)
      ensures this.content == content && this.heap == heap && offset == 0 && depth == 0
    {
      this.content, this.heap := content, heap;
      offset, depth := 0, 0;
    }

    method SkipWhitespace()
      requires offset <= |content|
      modifies this`offset
      ensures old(offset) < |content| ==> offset == SkipBlanks(content, old(offset))
      ensures old(offset) == |content| ==> offset == old(offset)
    {
      if offset >= |content| {
        return;
      }
      while offset < |content| && content[offset] <= SPACE
        invariant old(offset) <= offset <= |content|
        invariant BlankRun(content, offset) == BlankRun(content, old(offset))
      {
        offset := offset + 1;
      }
      if offset == |content| {
        offset := offset - 1;
      }
    }

    /** At offset 0 only, as its one caller has it. */
    method SkipUtf8Bom()
      requires offset == 0
      modifies this`offset
      ensures offset == SkipBom(content)
    {
      if 4 < |content| && content[..3] == BOM {
        offset := offset + 3;
      }
    }

    /** The loop that fills `number_c_string`, here with the final NUL left off the result. */
    method CopyNumber() returns (text: bytes)
      requires offset < |content|
      ensures text == content[offset..NumberRun(content, offset)]
    {
      hide NumberRunFrom;
      var copy := new byte[64];
      var i := 0;
      RunStarts(content, offset);
      while i < 63 && offset + i < |content| && InNumber(content[offset + i])
        invariant i <= 63 && offset + i <= |content|
        invariant NumberRunFrom(content, offset, i) == NumberRun(content, offset)
        invariant copy[..i] == content[offset..offset + i]
      {
        RunGoesOn(content, offset, i);
        copy[i] := content[offset + i];
        assert copy[..i + 1] == copy[..i] + [content[offset + i]];
        assert content[offset..offset + i + 1] == content[offset..offset + i] + [content[offset + i]];
        i := i + 1;
      }
      RunEnds(content, offset, i);
      copy[i] := NUL;
      text := copy[..i];
    }

    method ParseNumber(item: Item) returns (ok: bool)
      requires offset < |content|
      modifies this`offset, item`kind, item`valuedouble, item`valueint
      ensures ok <==> Grammar.ParseNumber(content, old(offset)).Ok?
      ensures ok ==>
                var r := Grammar.ParseNumber(content, old(offset));
                offset == r.next && item.kind == r.value.kind && item.valuedouble == r.value.num &&
                item.valueint == r.value.valueint && AsInt(item.valueint, item.valuedouble)
      ensures !ok ==> unchanged(this) && unchanged(item)
    {
      hide Strtod, NumberRun, Truncate, AsInt;
      var text := CopyNumber();
      var scan := Strtod(text);
      ValueInt(scan.value, Saturate(scan.value));
      if scan.used == 0 {
        return false;
      }
      item.valuedouble := scan.value;
      if scan.value >= INT_MAX as real {
        item.valueint := INT_MAX;
      } else if scan.value <= INT_MIN as real {
        item.valueint := INT_MIN;
      } else {
        item.valueint := Truncate(scan.value);
      }
      item.kind := Number;
      offset := offset + scan.used;
      ok := true;
    }

    /** `parse_hex4` on the four bytes at `p`. */
    method ParseHex4(p: nat) returns (h: nat)
      requires p + 4 <= |content|
      ensures h == Hex4(content[p..p + 4])
    {
      hide Hex4;
      ghost var g := content[p..p + 4];
      h := 0;
      var i := 0;
      while i < 4
        invariant i <= 4
        invariant forall k | 0 <= k < i :: HexDigit(g[k]) >= 0
        invariant h == HexPrefix(g, i)
      {
        assert g[i] == content[p + i];
        var d := HexDigit(content[p + i]);
        if d < 0 {
          HexPrefixIsHex4(g);
          return 0;
        }
        h := h + d;
        if i < 3 {
          h := h * 16;
        }
        i := i + 1;
      }
      HexPrefixIsHex4(g);
    }
  
    /** The end of `utf16_literal_to_utf8`: writes the code point at `output[o..]`, last byte first. */
    method EncodeUtf8(codepoint: nat, output: array<byte>, o: nat) returns (length: nat)
      requires codepoint <= 0x10FFFF && o + |Utf8(codepoint)| <= output.Length
      modifies output
      ensures length == |Utf8(codepoint)|
      ensures output[..o + length] == old(output[..o]) + Utf8(codepoint)
    {
      hide Utf8;
      Utf8Bytes(codepoint);
      length := Utf8Length(codepoint);
      var c := codepoint;
      var position := length - 1;
      while position > 0
        invariant 0 <= position < length && c == Shifted(codepoint, length - 1 - position)
        invariant output[..o] == old(output[..o])
        invariant forall q {:trigger Utf8(codepoint)[q]} | position < q < length :: output[o + q] == Utf8(codepoint)[q]
      {
        output[o + position] := 0x80 + c % 0x40;
        c := c / 0x40;
        position := position - 1;
      }
      output[o] := Mark(length) + c;
      assert output[o] == Utf8(codepoint)[0];
      assert forall q {:trigger Utf8(codepoint)[q]} | 0 <= q < length :: output[o..o + length][q] == Utf8(codepoint)[q];
      assert output[o..o + length] == Utf8(codepoint);
      assert output[..o + length] == output[..o] + output[o..o + length];
    }

    method Utf8Length(codepoint: nat) returns (length: nat)
      requires codepoint <= 0x10FFFF
      ensures length == |Utf8(codepoint)|
    {
      if codepoint < 0x80 {
        length := 1;
      } else if codepoint < 0x800 {
        length := 2;
      } else if codepoint < 0x10000 {
        length := 3;
      } else {
        length := 4;
      }
    }

    /** Decodes the escape at `p` into `output[o..]`; a length of 0 means failure. */
    method Utf16LiteralToUtf8(p: nat, end: nat, output: array<byte>, o: nat) returns (used: nat, written: nat)
      requires p < end < |content|
      requires Utf16Literal(content, p, end).Some? ==> o + |Utf16Literal(content, p, end).value.out| <= output.Length
      modifies output
      ensures used > 0 <==> Utf16Literal(content, p, end).Some?
      ensures used > 0 ==>
                var c := Utf16Literal(content, p, end).value;
                used == c.used && written == |c.out| && output[..o + written] == old(output[..o]) + c.out
    {
      hide Utf8, Hex4;
      if end - p < 6 {
        return 0, 0;
      }
      var first := ParseHex4(p + 2);
      if 0xDC00 <= first <= 0xDFFF {
        return 0, 0;
      }
      var codepoint := first;
      used := 6;
      if 0xD800 <= first <= 0xDBFF {
        used := 12;
        if end - (p + 6) < 6 {
          return 0, 0;
        }
        if content[p + 6] != BACKSLASH || content[p + 7] != LOWER_U {
          return 0, 0;
        }
        var second := ParseHex4(p + 8);
        if second < 0xDC00 || second > 0xDFFF {
          return 0, 0;
        }
        SurrogatesDecode(first, second);
        codepoint := FromSurrogates(first, second);
      }
      written := EncodeUtf8(codepoint, output, o);
    }

    /** One turn of the second pass: writes what `Step` says at `output[o..]`. */
    method DecodeStep(p: nat, end: nat, output: array<byte>, o: nat) returns (ok: bool, used: nat, written: nat)
      requires p < end < |content|
      requires Step(content, p, end).Some? ==> o + |Step(content, p, end).value.out| <= output.Length
      modifies output
      ensures ok <==> Step(content, p, end).Some?
      ensures ok ==>
                var c := Step(content, p, end).value;
                used == c.used && written == |c.out| && output[..o + written] == old(output[..o]) + c.out
    {
      hide Utf16Literal;
      ok, used, written := true, 2, 1;
      if content[p] != BACKSLASH {
        output[o] := content[p];
        used := 1;
      } else {
        var c := content[p + 1];
        if c == LOWER_B {
          output[o] := BACKSPACE;
        } else if c == LOWER_F {
          output[o] := FF;
        } else if c == LOWER_N {
          output[o] := LF;
        } else if c == LOWER_R {
          output[o] := CR;
        } else if c == LOWER_T {
          output[o] := TAB;
        } else if c == QUOTE || c == BACKSLASH || c == SLASH {
          output[o] := c;
        } else if c == LOWER_U {
          used, written := Utf16LiteralToUtf8(p, end, output, o);
          ok := used != 0;
        } else {
          ok := false;
        }
      }
    }
  
    /** The first pass: the closing quote of the literal at `offset` and the number of escapes. */
    method FindStringEnd() returns (found: bool, end: nat, skipped: nat)
      requires offset < |content|
      ensures found <==> StringEnd(content, offset + 1).Some?
      ensures found ==> end == StringEnd(content, offset + 1).value && skipped == Skips(content, offset + 1, end)
    {
      end, skipped := offset + 1, 0;
      ghost var quote := StringEnd(content, offset + 1);
      ghost var limit := if quote.Some? then quote.value else |content|;
      while end < |content| && content[end] != QUOTE
        invariant offset < end <= |content| && StringEnd(content, end) == quote
        invariant quote.Some? ==> Skips(content, offset + 1, limit) == skipped + Skips(content, end, limit)
        decreases |content| - end
      {
        if content[end] == BACKSLASH {
          if end + 1 >= |content| {
            return false, end, skipped;
          }
          skipped := skipped + 1;
          end := end + 1;
        }
        end := end + 1;
      }
      found := end < |content|;
    }

    /** The second pass over the literal that starts at `offset` and closes at `end`. */
    method DecodeLiteral(end: nat, output: array<byte>) returns (ok: bool, written: nat)
      requires offset < end < |content| && content[end] == QUOTE
      requires output.Length == Allocated(content, offset + 1, end)
      modifies output
      ensures ok <==> JsonStrings.Decode(content, offset + 1, end).Some?
      ensures ok ==> written < output.Length && output[written] == NUL
      ensures ok ==> JsonStrings.Decode(content, offset + 1, end) == Some(output[..written])
    {
      hide Step, Skips, Allocated, JsonStrings.Decode;
      var p, j := offset + 1, offset + 1;
      written := 0;
      DecodeStart(content, j, end);
      while p < end
        invariant j <= p <= end + 1 && written + Skips(content, j, p) <= p - j
        invariant written < output.Length
        invariant JsonStrings.Decode(content, j, end) == After(output[..written], JsonStrings.Decode(content, p, end))
        decreases end - p
      {
        DecodeUnfold(content, p, end, output[..written]);
        if JsonStrings.Step(content, p, end).Some? {
          StepFits(content, j, p, end);
          var c := JsonStrings.Step(content, p, end).value;
          WrittenFits(content, j, p + c.used, end, written + |c.out|);
        }
        var used, more;
        ok, used, more := DecodeStep(p, end, output, written);
        if !ok {
          return;
        }
        p := p + used;
        written := written + more;
      }
      DecodeEnd(content, p, end, output[..written]);
      output[written] := NUL;
      ok := true;
    }
  
    /**
     `parse_string`: on success the item is a string holding the decoded bytes in one new
     cell; on failure, which an unaccepted literal or a refused allocation causes and
     nothing else, the item is as it was and every cell is released.
     */
    method ParseString(item: Item) returns (ok: bool)
      requires offset < |content|
      modifies this`offset, item`kind, item`valuestring, heap`requests, heap`live
      ensures heap.requests >= old(heap.requests)
      ensures ok <==> JsonStrings.ParseString(content, old(offset)).Ok? && !heap.RefusedSince(old(heap.requests))
      ensures ok ==>
                var r := JsonStrings.ParseString(content, old(offset));
                && offset == r.next && item.kind == String
                && item.valuestring != null && fresh(item.valuestring) && Holds(item.valuestring, Some(r.value))
                && heap.live == old(heap.live) + {item.valuestring}
      ensures !ok ==> unchanged(item`kind) && unchanged(item`valuestring) && heap.live == old(heap.live)
    {
      hide StringEnd, JsonStrings.Decode, Skips, CString;
      if content[offset] != QUOTE {
        return false;
      }
      var found, end, skipped := FindStringEnd();
      if !found {
        return false;
      }
      assert skipped <= end - (offset + 1);
      var allocation := end - offset - skipped;
      var output := heap.NewBytes(allocation + 1);
      if output == null {
        return false;
      }
      var written;
      ok, written := DecodeLiteral(end, output);
      if !ok {
        heap.Deallocate(output);
        return;
      }
      CStringCut(output[..written], output[..]);
      item.kind := String;
      item.valuestring := output;
      offset := end + 1;
    }
  
    /** The parser stands on a byte of a NUL-terminated text, within the nesting limit. */
    ghost predicate Ready()
      reads this`offset, this`depth
    {
      Terminated(content) && offset < |content| && depth <= NESTING_LIMIT
    }

    /**
     One turn of the loop of `parse_array`: `offset` is on the byte before the element.  On
     success the list has one more item, which holds the parsed value; on failure the list,
     with the new item if there is one, can be released.
     */
    method NextElement(head: Item?, last: Item?, ghost ts: seq<Tree>, ghost js: seq<Json>)
      returns (ok: bool, first: Item?, newLast: Item?, ghost ts': seq<Tree>)
      requires Ready() && offset + 1 < |content|
      requires Building(head, last, ts, js) && CellsOf(ts) <= heap.live
      modifies this`offset, this`depth, heap`requests, heap`live, Opt(last)`next
      ensures heap.requests > old(heap.requests)
      ensures ok <==> Grammar.ParseValue(content, SkipBlanks(content, old(offset) + 1), old(depth)).Ok? &&
                      !heap.RefusedSince(old(heap.requests))
      ensures ok ==>
                var r := Grammar.ParseValue(content, SkipBlanks(content, old(offset) + 1), old(depth));
                && offset == SkipBlanks(content, r.next) && depth == old(depth)
                && Building(first, newLast, ts', js + [r.value])
      ensures Deletable(first, ts') && CellsOf(ts) <= CellsOf(ts') && fresh(CellsOf(ts') - CellsOf(ts))
      ensures heap.live == old(heap.live) + CellsOf(ts')
      decreases |content| - offset, 2
    {
      hide Building, Deletable, Pending, CellsOf, Grammar.ParseValue, SkipBlanks, Terminated;
      var item;
      first, item := AddItem(heap, head, last, ts, js);
      newLast := item;
      if item == null {
        BuildingDeletable(head, last, ts, js);
        return false, first, last, ts;
      }
      ok, ts' := FillElement(first, item, ts, js);
    }

    /** The item added last is filled with the element after `offset`. */
    method FillElement(first: Item?, item: Item, ghost ts: seq<Tree>, ghost js: seq<Json>)
      returns (ok: bool, ghost ts': seq<Tree>)
      requires Ready() && offset + 1 < |content|
      requires Pending(first, item, ts, js) && item.Unfilled() && item.name == null
      requires CellsOf(ts) + {item} <= heap.live
      modifies this`offset, this`depth, heap`requests, heap`live
      modifies item`kind, item`child, item`valuestring, item`valueint, item`valuedouble
      ensures heap.requests >= old(heap.requests)
      ensures ok <==> Grammar.ParseValue(content, SkipBlanks(content, old(offset) + 1), old(depth)).Ok? &&
                      !heap.RefusedSince(old(heap.requests))
      ensures ok ==>
                var r := Grammar.ParseValue(content, SkipBlanks(content, old(offset) + 1), old(depth));
                && offset == SkipBlanks(content, r.next) && depth == old(depth)
                && Building(first, item, ts', js + [r.value])
      ensures Deletable(first, ts') && CellsOf(ts) + {item} <= CellsOf(ts')
      ensures fresh(CellsOf(ts') - CellsOf(ts) - {item}) && heap.live == old(heap.live) + CellsOf(ts')
      decreases |content| - offset, 1
    {
      hide Building, Deletable, CellsOf, Cells, Inner, Models, Body, Owned, Apart, ApartAll, Grammar.ParseValue,
        SkipBlanks, NextChain, PrevChain, Distinct, Terminated;
      PendingOutside(first, item, ts, js);
      Outside(item, ts);
      Outside(heap, ts);
      Within(ts);
      offset := offset + 1;
      SkipWhitespace();
      ghost var t;
      ok, t := ParseValue(item);
      assert Pending(first, item, ts, js);
      if !ok {
        AbandonedBlank(first, item, ts, js);
        return false, ts + [Tree(item, null, null, [])];
      }
      ghost var v := Grammar.ParseValue(content, SkipBlanks(content, old(offset) + 1), old(depth)).value;
      FilledUnnamed(first, t, v, ts, js);
      ts' := ts + [t];
      SkipWhitespace();
    }

    /** The loop of `parse_array`, from the byte before the first element to the closing bracket. */
    method ElementsLoop() returns (ok: bool, head: Item?, last: Item?, ghost ts: seq<Tree>, ghost js: seq<Json>)
      requires Ready() && offset + 1 < |content|
      modifies this`offset, this`depth, heap`requests, heap`live
      ensures heap.requests >= old(heap.requests)
      ensures ok <==> Grammar.ParseElements(content, old(offset) + 1, old(depth)).Ok? &&
                      !heap.RefusedSince(old(heap.requests))
      ensures ok ==>
                && Grammar.ParseElements(content, old(offset) + 1, old(depth)) == Ok(js, offset + 1)
                && offset + 1 < |content| && depth == old(depth) && js != []
                && Building(head, last, ts, js) && fresh(CellsOf(ts)) && heap.live == old(heap.live) + CellsOf(ts)
      ensures !ok ==> heap.live == old(heap.live)
      decreases |content| - offset, 3
    {
      hide Building, Deletable, CellsOf, Cells, Inner, Models, Body, Owned, Apart, ApartAll, Grammar.ParseValue,
        Grammar.ParseElements, SkipBlanks, NextChain, PrevChain, Distinct;
      ghost var all := Grammar.ParseElements(content, offset + 1, depth);
      head, last, ts, js := null, null, [], [];
      NothingBuilt();
      NothingJoined(all);
      var more := true;
      while more
        invariant Ready() && old(offset) <= offset && depth == old(depth)
        invariant heap.requests >= old(heap.requests) && !heap.RefusedSince(old(heap.requests))
        invariant Building(head, last, ts, js) && fresh(CellsOf(ts)) && heap.live == old(heap.live) + CellsOf(ts)
        invariant more ==>
                    offset + 1 < |content| && all == Joined(js, Grammar.ParseElements(content, offset + 1, depth))
        invariant !more ==> js != [] && all == if content[offset] == RBRACKET then Ok(js, offset + 1) else Fail
        decreases |content| - offset, more
      {
        ghost var p := offset + 1;
        ElementTurn(content, p, depth, js);
        EndsIn(head, last, ts, js);
        ok, head, last, ts := NextElement(head, last, ts, js);
        if !ok {
          Delete(heap, head, ts);
          return;
        }
        js := js + [Grammar.ParseValue(content, SkipBlanks(content, p), depth).value];
        more := content[offset] == COMMA;
      }
      ok := content[offset] == RBRACKET;
      if !ok {
        BuildingDeletable(head, last, ts, js);
        Delete(heap, head, ts);
      }
    }

    /** One turn of the loop of `parse_object`, likewise. */
    method NextMember(head: Item?, last: Item?, ghost ts: seq<Tree>, ghost js: seq<Json>)
      returns (ok: bool, first: Item?, newLast: Item?, ghost ts': seq<Tree>)
      requires Ready() && offset + 1 < |content|
      requires Building(head, last, ts, js) && CellsOf(ts) <= heap.live
      modifies this`offset, this`depth, heap`requests, heap`live, Opt(last)`next
      ensures heap.requests > old(heap.requests)
      ensures ok <==> Grammar.ParseMember(content, old(offset) + 1, old(depth)).Ok? &&
                      !heap.RefusedSince(old(heap.requests))
      ensures ok ==>
                var r := Grammar.ParseMember(content, old(offset) + 1, old(depth));
                && offset == SkipBlanks(content, r.next) && depth == old(depth)
                && Building(first, newLast, ts', js + [r.value])
      ensures Deletable(first, ts') && CellsOf(ts) <= CellsOf(ts') && fresh(CellsOf(ts') - CellsOf(ts))
      ensures heap.live == old(heap.live) + CellsOf(ts')
      decreases |content| - offset, 2
    {
      hide Building, Deletable, Pending, CellsOf, Grammar.ParseMember, SkipBlanks, Terminated;
      var item;
      first, item := AddItem(heap, head, last, ts, js);
      newLast := item;
      if item == null {
        BuildingDeletable(head, last, ts, js);
        return false, first, last, ts;
      }
      ok, ts' := FillMember(first, item, ts, js);
    }

    /** The name at `offset`, with the blanks after it: parsed as a string and moved to `name`. */
    method ParseName(item: Item) returns (ok: bool)
      requires Ready() && item.Unfilled() && item.name == null
      modifies this`offset, item`kind, item`valuestring, item`name, heap`requests, heap`live
      ensures heap.requests >= old(heap.requests)
      ensures ok <==> JsonStrings.ParseString(content, old(offset)).Ok? && !heap.RefusedSince(old(heap.requests))
      ensures item.Unfilled()
      ensures ok ==>
                var r := JsonStrings.ParseString(content, old(offset));
                && r.next < |content| && offset == SkipBlanks(content, r.next)
                && (content[offset] == COLON ==> offset + 1 < |content|)
                && item.name != null && fresh(item.name) && Holds(item.name, Some(r.value))
                && heap.live == old(heap.live) + {item.name}
      ensures !ok ==> item.name == null && heap.live == old(heap.live)
    {
      hide JsonStrings.ParseString, SkipBlanks, CString, Terminated;
      ghost var k := offset;
      ok := ParseString(item);
      if ok {
        Doc.NameEnds(content, k);
        SkipWhitespace();
        item.name := item.valuestring;
        item.valuestring := null;
      }
    }

    /** The item added last is filled with the member after `offset`: its name, then its value. */
    method FillMember(first: Item?, item: Item, ghost ts: seq<Tree>, ghost js: seq<Json>)
      returns (ok: bool, ghost ts': seq<Tree>)
      requires Ready() && offset + 1 < |content|
      requires Pending(first, item, ts, js) && item.Unfilled() && item.name == null
      requires CellsOf(ts) + {item} <= heap.live
      modifies this`offset, this`depth, heap`requests, heap`live
      modifies item`kind, item`child, item`valuestring, item`valueint, item`valuedouble, item`name
      ensures heap.requests >= old(heap.requests)
      ensures ok <==> Grammar.ParseMember(content, old(offset) + 1, old(depth)).Ok? &&
                      !heap.RefusedSince(old(heap.requests))
      ensures ok ==>
                var r := Grammar.ParseMember(content, old(offset) + 1, old(depth));
                && offset == SkipBlanks(content, r.next) && depth == old(depth)
                && Building(first, item, ts', js + [r.value])
      ensures Deletable(first, ts') && CellsOf(ts) + {item} <= CellsOf(ts')
      ensures fresh(CellsOf(ts') - CellsOf(ts) - {item}) && heap.live == old(heap.live) + CellsOf(ts')
      decreases |content| - offset, 1
    {
      hide Building, Deletable, CellsOf, Cells, Inner, Models, Body, Owned, Apart, ApartAll, Grammar.ParseValue,
        JsonStrings.ParseString, SkipBlanks, NextChain, PrevChain, Distinct, CString, Terminated;
      PendingOutside(first, item, ts, js);
      Outside(item, ts);
      Outside(heap, ts);
      Within(ts);
      offset := offset + 1;
      SkipWhitespace();
      ghost var k := offset;
      ok := ParseName(item);
      if !ok {
        AbandonedBlank(first, item, ts, js);
        return false, ts + [Tree(item, null, null, [])];
      }
      ghost var key := JsonStrings.ParseString(content, k).value;
      if content[offset] != COLON {
        AbandonedNamed(first, Tree(item, null, item.name, []), ts, js);
        return false, ts + [Tree(item, null, item.name, [])];
      }
      ok, ts' := FillMemberValue(first, item, key, ts, js);
    }

    /** The value of the member whose name is set: `offset` is on the colon. */
    method FillMemberValue(first: Item?, item: Item, ghost key: bytes, ghost ts: seq<Tree>, ghost js: seq<Json>)
      returns (ok: bool, ghost ts': seq<Tree>)
      requires Ready() && offset + 1 < |content|
      requires Pending(first, item, ts, js) && item.Unfilled()
      requires item.name != null && item.name !in CellsOf(ts) && Holds(item.name, Some(key))
      requires CellsOf(ts) + {item, item.name} <= heap.live
      modifies this`offset, this`depth, heap`requests, heap`live
      modifies item`kind, item`child, item`valuestring, item`valueint, item`valuedouble
      ensures heap.requests >= old(heap.requests)
      ensures ok <==> Grammar.ParseValue(content, SkipBlanks(content, old(offset) + 1), old(depth)).Ok? &&
                      !heap.RefusedSince(old(heap.requests))
      ensures ok ==>
                var r := Grammar.ParseValue(content, SkipBlanks(content, old(offset) + 1), old(depth));
                && offset == SkipBlanks(content, r.next) && depth == old(depth)
                && Building(first, item, ts', js + [Named(r.value, key)])
      ensures Deletable(first, ts') && CellsOf(ts) + {item, item.name} <= CellsOf(ts')
      ensures fresh(CellsOf(ts') - CellsOf(ts) - {item, item.name}) && heap.live == old(heap.live) + CellsOf(ts')
      decreases |content| - offset, 1
    {
      hide Building, Deletable, CellsOf, Cells, Inner, Models, Body, Owned, Apart, ApartAll, Grammar.ParseValue,
        SkipBlanks, NextChain, PrevChain, Distinct, Terminated, CString;
      PendingOutside(first, item, ts, js);
      Outside(item, ts);
      Outside(heap, ts);
      Within(ts);
      offset := offset + 1;
      SkipWhitespace();
      ghost var t;
      ok, t := ParseValue(item);
      assert Pending(first, item, ts, js);
      if !ok {
        AbandonedNamed(first, Tree(item, null, item.name, []), ts, js);
        return false, ts + [Tree(item, null, item.name, [])];
      }
      ghost var v := Grammar.ParseValue(content, SkipBlanks(content, old(offset) + 1), old(depth)).value;
      FilledNamed(first, t, v, key, ts, js);
      ts' := ts + [t];
      SkipWhitespace();
    }

    /** The loop of `parse_object`. */
    method MembersLoop() returns (ok: bool, head: Item?, last: Item?, ghost ts: seq<Tree>, ghost js: seq<Json>)
      requires Ready() && offset + 1 < |content|
      modifies this`offset, this`depth, heap`requests, heap`live
      ensures heap.requests >= old(heap.requests)
      ensures ok <==> Grammar.ParseMembers(content, old(offset) + 1, old(depth)).Ok? &&
                      !heap.RefusedSince(old(heap.requests))
      ensures ok ==>
                && Grammar.ParseMembers(content, old(offset) + 1, old(depth)) == Ok(js, offset + 1)
                && offset + 1 < |content| && depth == old(depth) && js != []
                && Building(head, last, ts, js) && fresh(CellsOf(ts)) && heap.live == old(heap.live) + CellsOf(ts)
      ensures !ok ==> heap.live == old(heap.live)
      decreases |content| - offset, 3
    {
      hide Building, Deletable, CellsOf, Cells, Inner, Models, Body, Owned, Apart, ApartAll, Grammar.ParseMember,
        Grammar.ParseMembers, SkipBlanks, NextChain, PrevChain, Distinct;
      ghost var all := Grammar.ParseMembers(content, offset + 1, depth);
      head, last, ts, js := null, null, [], [];
      NothingBuilt();
      NothingJoined(all);
      var more := true;
      while more
        invariant Ready() && old(offset) <= offset && depth == old(depth)
        invariant heap.requests >= old(heap.requests) && !heap.RefusedSince(old(heap.requests))
        invariant Building(head, last, ts, js) && fresh(CellsOf(ts)) && heap.live == old(heap.live) + CellsOf(ts)
        invariant more ==>
                    offset + 1 < |content| && all == Joined(js, Grammar.ParseMembers(content, offset + 1, depth))
        invariant !more ==> js != [] && all == if content[offset] == RBRACE then Ok(js, offset + 1) else Fail
        decreases |content| - offset, more
      {
        ghost var p := offset + 1;
        MemberTurn(content, p, depth, js);
        EndsIn(head, last, ts, js);
        ok, head, last, ts := NextMember(head, last, ts, js);
        if !ok {
          Delete(heap, head, ts);
          return;
        }
        js := js + [Grammar.ParseMember(content, p, depth).value];
        more := content[offset] == COMMA;
      }
      ok := content[offset] == RBRACE;
      if !ok {
        BuildingDeletable(head, last, ts, js);
        Delete(heap, head, ts);
      }
    }

    /** `parse_array`; the opening bracket is at `offset`. */
    method ParseArray(item: Item) returns (ok: bool, ghost t: Tree)
      requires Ready() && item.Unfilled() && content[offset] == LBRACKET
      modifies this`offset, this`depth, heap`requests, heap`live, item`kind, item`child
      ensures heap.requests >= old(heap.requests)
      ensures ok <==> Grammar.ParseValue(content, old(offset), old(depth)).Ok? && !heap.RefusedSince(old(heap.requests))
      ensures ok ==>
                var r := Grammar.ParseValue(content, old(offset), old(depth));
                && offset == r.next && depth == old(depth)
                && t.item == item && t.name == item.name && !item.stringIsConst
                && Body(t, r.value) && r.value.key == None
                && Apart(t) && fresh(Inner(t)) && heap.live == old(heap.live) + Inner(t)
      ensures !ok ==> item.Unfilled() && heap.live == old(heap.live)
      decreases |content| - offset, 4
    {
      hide Building, CellsOf, Cells, Inner, Body, Apart, Grammar.ParseValue, Grammar.ParseElements, SkipBlanks;
      t := Tree(item, null, item.name, []);
      Doc.BracketStep(content, offset, depth);
      if depth >= NESTING_LIMIT {
        return false, t;
      }
      depth := depth + 1;
      offset := offset + 1;
      SkipWhitespace();
      var head, last: Item? := null, null;
      ghost var ts, js := [], [];
      NothingBuilt();
      if content[offset] != RBRACKET {
        offset := offset - 1;
        ok, head, last, ts, js := ElementsLoop();
        if !ok {
          return false, t;
        }
      }
      EndsIn(head, last, ts, js);
      depth := depth - 1;
      t := FinishList(item, Array, head, last, ts, js);
      assert this !in Inner(t) && this !in CellsOf(t.kids);
      offset := offset + 1;
      ok := true;
    }

    /** `parse_object`; the opening brace is at `offset`. */
    method ParseObject(item: Item) returns (ok: bool, ghost t: Tree)
      requires Ready() && item.Unfilled() && content[offset] == LBRACE
      modifies this`offset, this`depth, heap`requests, heap`live, item`kind, item`child
      ensures heap.requests >= old(heap.requests)
      ensures ok <==> Grammar.ParseValue(content, old(offset), old(depth)).Ok? && !heap.RefusedSince(old(heap.requests))
      ensures ok ==>
                var r := Grammar.ParseValue(content, old(offset), old(depth));
                && offset == r.next && depth == old(depth)
                && t.item == item && t.name == item.name && !item.stringIsConst
                && Body(t, r.value) && r.value.key == None
                && Apart(t) && fresh(Inner(t)) && heap.live == old(heap.live) + Inner(t)
      ensures !ok ==> item.Unfilled() && heap.live == old(heap.live)
      decreases |content| - offset, 4
    {
      hide Building, CellsOf, Cells, Inner, Body, Apart, Grammar.ParseValue, Grammar.ParseMembers, SkipBlanks;
      t := Tree(item, null, item.name, []);
      Doc.BracketStep(content, offset, depth);
      if depth >= NESTING_LIMIT {
        return false, t;
      }
      depth := depth + 1;
      offset := offset + 1;
      SkipWhitespace();
      var head, last: Item? := null, null;
      ghost var ts, js := [], [];
      NothingBuilt();
      if content[offset] != RBRACE {
        offset := offset - 1;
        ok, head, last, ts, js := MembersLoop();
        if !ok {
          return false, t;
        }
      }
      EndsIn(head, last, ts, js);
      depth := depth - 1;
      t := FinishList(item, Object, head, last, ts, js);
      assert this !in Inner(t) && this !in CellsOf(t.kids);
      offset := offset + 1;
      ok := true;
    }

    /**
     `parse_value`: accepts exactly what the grammar function does, unless an allocation is
     refused; then the item holds the value in new, well-linked cells, and those are all the
     cells gained.  On failure every cell obtained on the way has been released.
     */
    method ParseValue(item: Item) returns (ok: bool, ghost t: Tree)
      requires Ready() && item.Unfilled()
      modifies this`offset, this`depth, heap`requests, heap`live
      modifies item`kind, item`child, item`valuestring, item`valueint, item`valuedouble
      ensures heap.requests >= old(heap.requests)
      ensures ok <==> Grammar.ParseValue(content, old(offset), old(depth)).Ok? && !heap.RefusedSince(old(heap.requests))
      ensures ok ==>
                var r := Grammar.ParseValue(content, old(offset), old(depth));
                && offset == r.next && depth == old(depth)
                && t.item == item && t.name == item.name && !item.stringIsConst
                && Body(t, r.value) && r.value.key == None
                && Apart(t) && fresh(Inner(t)) && heap.live == old(heap.live) + Inner(t)
      ensures !ok ==> item.Unfilled() && heap.live == old(heap.live)
      decreases |content| - offset, 5
    {
      hide Body, Apart, Inner, Cells, Grammar.ParseValue;
      if content[offset] != LBRACKET && content[offset] != LBRACE {
        ok, t := ParseScalar(item);
      } else if content[offset] == LBRACKET {
        ok, t := ParseArray(item);
      } else {
        ok, t := ParseObject(item);
      }
    }

    /** The branches of `parse_value` for keywords, strings and numbers. */
    method ParseScalar(item: Item) returns (ok: bool, ghost t: Tree)
      requires Ready() && item.Unfilled() && content[offset] != LBRACKET && content[offset] != LBRACE
      modifies this`offset, heap`requests, heap`live, item`kind, item`valuestring, item`valueint, item`valuedouble
      ensures heap.requests >= old(heap.requests)
      ensures ok <==> Grammar.ParseValue(content, old(offset), depth).Ok? && !heap.RefusedSince(old(heap.requests))
      ensures ok ==>
                var r := Grammar.ParseValue(content, old(offset), depth);
                && offset == r.next
                && t.item == item && t.name == item.name && !item.stringIsConst
                && Body(t, r.value) && r.value.key == None
                && Apart(t) && fresh(Inner(t)) && heap.live == old(heap.live) + Inner(t)
      ensures !ok ==> item.Unfilled() && heap.live == old(heap.live)
    {
      hide Grammar.ParseValue, Grammar.ParseNumber, Grammar.ParseWord, Refused, JsonStrings.ParseString;
      ScalarStep(content, offset, depth);
      NoneRefused(heap.refuses, heap.requests);
      t := Tree(item, null, item.name, []);
      ok := ParseKeyword(item);
      if !ok {
        if content[offset] == QUOTE {
          ok := ParseString(item);
          t := Tree(item, item.valuestring, item.name, []);
        } else if StartsNumber(content[offset]) {
          NumberFields(content, offset);
          ok := ParseNumber(item);
        }
      }
      LeafCells(t);
    }

    /** The three keywords of `parse_value`. */
    method ParseKeyword(item: Item) returns (ok: bool)
      requires Ready() && item.Unfilled()
      modifies this`offset, item`kind, item`valueint
      ensures ok <==> Grammar.ParseWord(content, old(offset)).Ok?
      ensures ok ==>
                var r := Grammar.ParseWord(content, old(offset));
                && offset == r.next && r.value.key == None
                && Body(Tree(item, null, item.name, []), r.value)
      ensures !ok ==> item.Unfilled() && offset == old(offset) && item.kind == old(item.kind)
    {
      ok := true;
      if At(content, offset, NULL_TEXT) {
        item.kind := Null;
        offset := offset + 4;
      } else if At(content, offset, FALSE_TEXT) {
        item.kind := False;
        offset := offset + 5;
      } else if At(content, offset, TRUE_TEXT) {
        item.kind := True;
        item.valueint := 1;
        offset := offset + 4;
      } else {
        ok := false;
      }
    }
  }

  lemma {:induction false} LeafCells(t: Tree)
    ensures t.kids == [] ==> Inner(t) == Cell(t.str) && (t.str == null || t.str != t.name ==> Apart(t))
  {
  }

  lemma {:induction false} NumberFields(s: bytes, i: nat)
    requires i < |s|
    ensures var r := Grammar.ParseNumber(s, i);
            r.Ok? ==> r.value == Json(Number, r.value.num, r.value.valueint, None, None, [])
  {
  }

  /** What the grammar makes of anything but a bracket. */
  lemma {:induction false} ScalarStep(s: bytes, i: nat, depth: nat)
    requires Terminated(s) && i < |s| && s[i] != LBRACKET && s[i] != LBRACE
    ensures Grammar.ParseValue(s, i, depth) ==
            if Grammar.ParseWord(s, i).Ok? then Grammar.ParseWord(s, i)
            else if s[i] == QUOTE then
              match JsonStrings.ParseString(s, i) case Fail => Fail case Ok(text, next) => Ok(StringItem(text), next)
            else if StartsNumber(s[i]) then Grammar.ParseNumber(s, i)
            else Fail
  {
    hide SkipBlanks, Grammar.ParseElements, Grammar.ParseMembers, Grammar.ParseNumber, JsonStrings.ParseString,
      Grammar.ParseWord;
  }

  /**
   `cJSON_ParseWithOpts`: a new root is returned exactly when the text is accepted and no
   allocation is refused; its cells, all new, are then all that was gained, and otherwise
   nothing is gained.
   */
  method ParseWithOpts(text: bytes, requireEnd: bool, heap: Allocator)
    returns (root: Item?, end: nat, ghost tree: Option<Tree>)
    requires NoNul(text)
    modifies heap`requests, heap`live
    ensures root != null <==> Grammar.Parse(text, requireEnd).Ok? && !heap.RefusedSince(old(heap.requests))
    ensures root != null ==>
              var r := Grammar.Parse(text, requireEnd);
              && end == r.next && tree.Some? && tree.value.item == root && root.next == null
              && Models(tree.value, r.value) && Apart(tree.value)
              && fresh(Cells(tree.value)) && heap.live == old(heap.live) + Cells(tree.value)
    ensures root == null ==> heap.live == old(heap.live)
  {
    hide Cells, CellsOf, Inner, Models, Apart, ApartAll, Grammar.ParseValue, SkipBlanks, SkipBom, Owned;
    var buffer := new ParseBuffer(text + [NUL], heap);
    end, tree := 0, None;
    root := heap.NewItem();
    if root == null {
      return;
    }
    var ok;
    ghost var t;
    ok, t := ParseRoot(buffer, root, requireEnd);
    RootCells(t);
    if !ok {
      Delete(heap, root, [t]);
      root := null;
      return;
    }
    end, tree := buffer.offset, Some(t);
  }

  /** What follows the creation of the root: whatever the outcome, its cells can be released. */
  method ParseRoot(buffer: ParseBuffer, root: Item, requireEnd: bool) returns (ok: bool, ghost t: Tree)
    requires Terminated(buffer.content) && buffer.offset == 0 && buffer.depth == 0
    requires root.Zeroed()
    modifies buffer`offset, buffer`depth, buffer.heap`requests, buffer.heap`live
    modifies root`kind, root`child, root`valuestring, root`valueint, root`valuedouble
    ensures buffer.heap.requests >= old(buffer.heap.requests)
    ensures t.item == root && t.name == null && Owned(t) && Apart(t) && fresh(Inner(t))
    ensures buffer.heap.live == old(buffer.heap.live) + Inner(t)
    ensures var s := buffer.content;
            var r := Grammar.ParseValue(s, SkipBlanks(s, SkipBom(s)), 0);
            && (ok <==> && r.Ok? && (requireEnd ==> s[SkipBlanks(s, r.next)] == NUL)
                        && !buffer.heap.RefusedSince(old(buffer.heap.requests)))
            && (ok ==> Models(t, r.value) && buffer.offset == if requireEnd then SkipBlanks(s, r.next) else r.next)
  {
    hide Cells, CellsOf, Inner, Body, Models, Owned, Apart, ApartAll, Grammar.ParseValue, SkipBlanks, SkipBom, Refused;
    buffer.SkipUtf8Bom();
    buffer.SkipWhitespace();
    ghost var i := buffer.offset;
    ok, t := buffer.ParseValue(root);
    if !ok {
      t := Tree(root, null, null, []);
      RootCells(t);
      BlankOwned(t);
      return;
    }
    RootCells(t);
    assert buffer !in Inner(t) && buffer !in CellsOf(t.kids) && Cell(t.name) == {};
    RootModels(t, Grammar.ParseValue(buffer.content, i, 0).value);
    if requireEnd {
      buffer.SkipWhitespace();
      ok := buffer.content[buffer.offset] == NUL;
    }
  }

  lemma {:induction false} RootCells(t: Tree)
    requires t.name == null
    ensures Cells(t) == {t.item} + Inner(t) && CellsOf([t]) == Cells(t) && CellsOf(t.kids) <= Inner(t)
    ensures ApartAll([t]) <==> Apart(t)
    ensures t.str == null && t.kids == [] ==> Inner(t) == {} && Apart(t)
  {
    Single(t);
  }

  lemma {:induction false} RootModels(t: Tree, j: Json)
    requires Body(t, j) && t.name == null && j.key == None && t.item.name == null && !t.item.stringIsConst
    ensures Models(t, j) && Owned(t)
  {
    ModelsOwned(t, j);
  }

  lemma {:induction false} RunStarts(s: bytes, i: nat)
    requires i <= |s|
    ensures NumberRunFrom(s, i, 0) == NumberRun(s, i)
  {
  }

  lemma {:induction false} RunGoesOn(s: bytes, i: nat, n: nat)
    requires n < 63 && i + n < |s| && InNumber(s[i + n])
    ensures NumberRunFrom(s, i, n) == NumberRunFrom(s, i, n + 1)
  {
  }

  lemma {:induction false} RunEnds(s: bytes, i: nat, n: nat)
    requires n <= 63 && i + n <= |s| && !(n < 63 && i + n < |s| && InNumber(s[i + n]))
    ensures NumberRunFrom(s, i, n) == i + n
  {
  }

  lemma {:induction false} MemberTurn(s: bytes, p: nat, depth: nat, done: seq<Json>)
    requires Terminated(s) && p < |s|
    ensures var v := Grammar.ParseMember(s, p, depth);
            var all := Joined(done, Grammar.ParseMembers(s, p, depth));
            if v == Fail then all == Fail
            else
              var m := SkipBlanks(s, v.next);
              && (s[m] == COMMA ==>
                    m + 1 < |s| && all == Joined(done + [v.value], Grammar.ParseMembers(s, m + 1, depth)))
              && (s[m] != COMMA ==> all == if s[m] == RBRACE then Ok(done + [v.value], m + 1) else Fail)
  {
    hide Grammar.ParseMember, SkipBlanks;
    var v := Grammar.ParseMember(s, p, depth);
    if v.Ok? {
      var m := SkipBlanks(s, v.next);
      if s[m] == COMMA {
        var rest := Grammar.ParseMembers(s, m + 1, depth);
        if rest.Ok? {
          assert done + ([v.value] + rest.value) == (done + [v.value]) + rest.value;
        }
      }
    }
  }

  /** Items already parsed, before the rest of a list. */
  function Joined(done: seq<Json>, rest: Parsed<seq<Json>>): Parsed<seq<Json>> {
    match rest
    case Fail => Fail
    case Ok(js, next) => Ok(done + js, next)
  }

  lemma {:induction false} NothingJoined(rest: Parsed<seq<Json>>)
    ensures Joined([], rest) == rest
  {
    if rest.Ok? {
      assert [] + rest.value == rest.value;
    }
  }

  /** One element moves from the rest of the list to what is done. */
  lemma {:induction false} ElementTurn(s: bytes, p: nat, depth: nat, done: seq<Json>)
    requires Terminated(s) && p < |s|
    ensures var v := Grammar.ParseValue(s, SkipBlanks(s, p), depth);
            var all := Joined(done, Grammar.ParseElements(s, p, depth));
            if v == Fail then all == Fail
            else
              var m := SkipBlanks(s, v.next);
              && (s[m] == COMMA ==>
                    m + 1 < |s| && all == Joined(done + [v.value], Grammar.ParseElements(s, m + 1, depth)))
              && (s[m] != COMMA ==> all == if s[m] == RBRACKET then Ok(done + [v.value], m + 1) else Fail)
  {
    hide Grammar.ParseValue, SkipBlanks;
    var v := Grammar.ParseValue(s, SkipBlanks(s, p), depth);
    if v.Ok? {
      var m := SkipBlanks(s, v.next);
      if s[m] == COMMA {
        var rest := Grammar.ParseElements(s, m + 1, depth);
        if rest.Ok? {
          assert done + ([v.value] + rest.value) == (done + [v.value]) + rest.value;
        }
      }
    }
  }

  /** Bytes written so far, before the rest of a decoding. */
  function After(done: bytes, rest: Option<bytes>): Option<bytes> {
    match rest
    case None => None
    case Some(r) => Some(done + r)
  }

  lemma {:induction false} DecodeStart(s: bytes, j: nat, end: nat)
    requires j <= end < |s|
    ensures Decode(s, j, end) == After([], Decode(s, j, end))
    ensures Skips(s, j, j) == 0
    ensures Allocated(s, j, end) > 0
  {
    assert forall r: bytes :: [] + r == r;
  }

  lemma {:induction false} DecodeUnfold(s: bytes, p: nat, end: nat, done: bytes)
    requires p < end < |s|
    ensures Step(s, p, end) == None ==> Decode(s, p, end) == None
    ensures Step(s, p, end).Some? ==>
              var c := Step(s, p, end).value;
              After(done, Decode(s, p, end)) == After(done + c.out, Decode(s, p + c.used, end))
  {
    if Step(s, p, end).Some? {
      var c := Step(s, p, end).value;
      assert forall r: bytes :: done + (c.out + r) == (done + c.out) + r;
    }
  }

  lemma {:induction false} DecodeEnd(s: bytes, p: nat, end: nat, done: bytes)
    requires end <= p && end < |s|
    ensures After(done, Decode(s, p, end)) == Some(done)
  {
    assert done + [] == done;
  }

  /** The accumulator of `parse_hex4` after `i` digits: shifted already, but for the last one. */
  function HexPrefix(h: bytes, i: nat): int
    requires |h| == 4 && i <= 4
  {
    if i == 0 then 0
    else if i == 4 then HexPrefix(h, 3) + HexDigit(h[3])
    else (HexPrefix(h, i - 1) + HexDigit(h[i - 1])) * 16
  }

  lemma {:induction false} HexPrefixIsHex4(h: bytes)
    requires |h| == 4
    ensures (forall k | 0 <= k < 4 :: HexDigit(h[k]) >= 0) ==> HexPrefix(h, 4) == Hex4(h)
    ensures !(forall k | 0 <= k < 4 :: HexDigit(h[k]) >= 0) ==> Hex4(h) == 0
  {
    assert HexPrefix(h, 1) == HexDigit(h[0]) * 16;
    assert HexPrefix(h, 2) == (HexPrefix(h, 1) + HexDigit(h[1])) * 16;
    assert HexPrefix(h, 3) == (HexPrefix(h, 2) + HexDigit(h[2])) * 16;
    assert HexPrefix(h, 4) == HexPrefix(h, 3) + HexDigit(h[3]);
  }
}
