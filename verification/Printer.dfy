/** The printers on their growing buffer. */
module Printer {
  import opened Bytes
  import opened Numbers
  import opened JsonStrings
  import opened Json
  import opened JsonGrammar
  import opened JsonRender
  import opened Heap

  class PrintBuffer {
    var buffer: array?<byte>
    var length: nat
    var offset: nat
    var depth: nat
    const noalloc: bool
    const format: bool
    /** `hooks.reallocate` is set. */
    const reallocates: bool
    const heap: Allocator
    const f: Sprintf

    constructor (buffer: array?<byte>, length: nat, noalloc: bool, format: bool, reallocates: bool, heap: Allocator,
                 f: Sprintf)
      ensures this.buffer == buffer && this.length == length && offset == 0 && depth == 0
      ensures this.noalloc == noalloc && this.format == format && this.reallocates == reallocates
      ensures this.heap == heap && this.f == f
    {
      this.buffer, this.length, offset, depth := buffer, length, 0, 0;
      this.noalloc, this.format, this.reallocates := noalloc, format, reallocates;
      this.heap, this.f := heap, f;
    }

    /** The largest size the buffer can have. */
    ghost function Space(): nat
      reads this`length
    {
      if noalloc then length else INT_MAX
    }

    /** The live cells other than the buffer. */
    ghost function Others(): set<object>
      reads this`buffer, heap`live
    {
      heap.live - Cell(buffer)
    }

    /**
     What every step keeps: the buffer is the one it was or a new one in its place, it is live
     unless it is the caller's, and no other cell is gained or lost.
     */
    twostate predicate Kept(ok: bool)
      reads this`buffer, this`length, heap`live, heap`requests
    {
      && heap.requests >= old(heap.requests)
      && (buffer == old(buffer) || fresh(Cell(buffer)))
      && Others() == old(Others())
      && (if noalloc then
            buffer == old(buffer) && heap.live == old(heap.live) && heap.requests == old(heap.requests)
          else Cell(buffer) <= heap.live)
      && (ok ==> Space() == old(Space()))
    }

    /** There is a buffer of `length` bytes, which belongs to the caller or is live. */
    ghost predicate Sound()
      reads this`buffer, this`length, heap`live
    {
      && buffer != null && buffer.Length == length <= INT_MAX
      && (!noalloc ==> buffer in heap.live)
      && (noalloc || reallocates || length > 0)
    }

    /** The text written so far is `text`, and the offset is at its end. */
    ghost predicate Ready(text: bytes)
      reads this`buffer, this`length, this`offset, heap`live, Cell(buffer)
    {
      && Sound() && offset == |text| && (offset < length || length == 0) && offset <= length
      && buffer[..offset] == text
    }

    /** The text written so far is `text` with a NUL after it; the offset may lag behind its end. */
    ghost predicate Shows(text: bytes)
      reads this`buffer, this`length, this`offset, heap`live, Cell(buffer)
    {
      && Sound() && offset <= |text| < length
      && buffer[..|text|] == text && buffer[|text|] == NUL
    }

    /**
     `ensure`: room for `needed` bytes from the offset on and one more.  The text survives a
     reallocation; the old buffer is released whether or not there is a new one.
     */
    method Ensure(needed: nat, ghost text: bytes) returns (ok: bool)
      requires Ready(text)
      modifies this`buffer, this`length, heap`requests, heap`live
      ensures ok <==> old(offset) + needed + 1 <= old(Space()) && !heap.RefusedSince(old(heap.requests))
      ensures ok ==> Ready(text) && offset + needed < length
      ensures Kept(ok)
    {
      if buffer == null {
        return false;
      }
      if length > 0 && offset >= length {
        return false;
      }
      if needed > INT_MAX {
        return false;
      }
      var total := needed + offset + 1;
      if total <= length {
        return true;
      }
      if noalloc {
        return false;
      }
      var newsize;
      if total > INT_MAX / 2 {
        if total <= INT_MAX {
          newsize := INT_MAX;
        } else {
          return false;
        }
      } else {
        newsize := total * 2;
      }
      ok := Grow(newsize, text);
    }

    /** The reallocation itself, with `realloc` or by hand. */
    method Grow(newsize: nat, ghost text: bytes) returns (ok: bool)
      requires Ready(text) && !noalloc && offset < newsize <= INT_MAX
      modifies this`buffer, this`length, heap`requests, heap`live
      ensures heap.requests == old(heap.requests) + 1
      ensures ok <==> !heap.refuses(old(heap.requests))
      ensures ok ==> Ready(text) && length == newsize && fresh(buffer)
      ensures !ok ==> buffer == null
      ensures heap.live == old(heap.live) - Cell(old(buffer)) + Cell(buffer)
      ensures Kept(ok)
    {
      var newbuffer;
      if reallocates {
        newbuffer := heap.Reallocate(buffer, newsize);
        if newbuffer == null {
          heap.Deallocate(buffer);
          length := 0;
          buffer := null;
          return false;
        }
      } else {
        newbuffer := heap.NewBytes(newsize);
        if newbuffer == null {
          heap.Deallocate(buffer);
          length := 0;
          buffer := null;
          return false;
        }
        forall k | 0 <= k < offset + 1 {
          newbuffer[k] := buffer[k];
        }
        heap.Deallocate(buffer);
      }
      assert newbuffer[..offset] == buffer[..offset];
      length := newsize;
      buffer := newbuffer;
      ok := true;
    }

    /** `strcpy` to the offset: the bytes and a NUL. */
    method Strcpy(bs: bytes, ghost text: bytes)
      requires Ready(text) && offset + |bs| < length
      modifies buffer
      ensures Shows(text + bs)
    {
      Store(bs, text);
      buffer[offset + |bs|] := NUL;
      assert buffer[..offset + |bs|] == text + bs;
    }

    /** Single stores at the offset and after it. */
    method Store(bs: bytes, ghost text: bytes)
      requires Ready(text) && offset + |bs| <= length
      modifies buffer
      ensures Sound() && buffer[..offset + |bs|] == text + bs
    {
      forall k | 0 <= k < |bs| {
        buffer[offset + k] := bs[k];
      }
      assert buffer[..offset + |bs|] == buffer[..offset] + buffer[offset..offset + |bs|];
      assert buffer[offset..offset + |bs|] == bs;
    }

    /** `update_offset`: on to the NUL that ends the text. */
    method UpdateOffset(ghost text: bytes)
      requires Shows(text) && NoNul(text[offset..])
      modifies this`offset
      ensures Ready(text) && Shows(text)
    {
      if buffer == null {
        return;
      }
      assert forall k | offset <= k < |text| :: buffer[k] == buffer[..|text|][k] == text[offset..][k - offset];
      var n := 0;
      while buffer[offset + n] != NUL
        invariant offset + n <= |text|
        decreases |text| - n
      {
        n := n + 1;
      }
      offset := offset + n;
    }

    /** `print_number`. */
    method PrintNumber(item: Item, ghost text: bytes) returns (ok: bool)
      requires Ready(text)
      modifies this`buffer, this`length, this`offset, buffer, heap`requests, heap`live
      ensures var r := NumberText(f, item.valuedouble);
              && (ok <==> |r| <= 25 && |text| + |r| + 2 <= old(Space()) && !heap.RefusedSince(old(heap.requests)))
              && (ok ==> Shows(text + r) && offset == |text + r|)
      ensures Kept(ok)
    {
      hide CString, Strtod, CompareDouble;
      var d := item.valuedouble;
      var digits := CString(f.g15(d));
      var test := Strtod(digits);
      if test.used == 0 || !CompareDouble(test.value, d) {
        digits := CString(f.g17(d));
      }
      if |digits| > 25 {
        return false;
      }
      ok := Ensure(|digits| + 1, text);
      if !ok {
        return;
      }
      Strcpy(digits, text);
      offset := offset + |digits|;
    }

    /** The first pass over a string: its length and how much longer its escapes make it. */
    method CountEscapes(input: array<byte>, ghost s: bytes) returns (length: nat, escapes: nat)
      requires Holds(input, Some(s))
      ensures length == |s| && length + escapes == |EscapeText(s)|
    {
      length, escapes := 0, 0;
      HeldBytes(input, s);
      while input[length] != NUL
        invariant length <= |s| && |EscapeText(s)| == length + escapes + |EscapeText(s[length..])|
        decreases |s| - length
      {
        var c := input[length];
        assert s[length..][1..] == s[length + 1..];
        if c == QUOTE || c == BACKSLASH || c == BACKSPACE || c == FF || c == LF || c == CR || c == TAB {
          escapes := escapes + 1;
        } else if c < 32 {
          escapes := escapes + 5;
        }
        length := length + 1;
      }
    }

    /** One turn of the second pass: the byte, or its escape, at `buffer[o..]`. */
    method PutEscaped(c: byte, o: nat) returns (next: nat)
      requires buffer != null && o + |EscapeByte(c)| < buffer.Length
      modifies buffer
      ensures next == o + |EscapeByte(c)|
      ensures buffer[..next] == old(buffer[..o]) + EscapeByte(c)
    {
      if c > 31 && c != QUOTE && c != BACKSLASH {
        buffer[o] := c;
        return o + 1;
      }
      buffer[o] := BACKSLASH;
      next := o + 2;
      if c == BACKSLASH || c == QUOTE {
        buffer[o + 1] := c;
      } else if c == BACKSPACE {
        buffer[o + 1] := LOWER_B;
      } else if c == FF {
        buffer[o + 1] := LOWER_F;
      } else if c == LF {
        buffer[o + 1] := LOWER_N;
      } else if c == CR {
        buffer[o + 1] := LOWER_R;
      } else if c == TAB {
        buffer[o + 1] := LOWER_T;
      } else {
        buffer[o + 1], buffer[o + 2], buffer[o + 3] := LOWER_U, ZERO, ZERO;
        buffer[o + 4], buffer[o + 5], buffer[o + 6] := HexChar(c / 16), HexChar(c % 16), NUL;
        next := o + 6;
      }
    }

    /** The second pass: the escaped bytes from the offset on, between quotes. */
    method PutString(input: array<byte>, outputLength: nat, ghost s: bytes, ghost text: bytes)
      requires Ready(text) && Holds(input, Some(s)) && input != buffer
      requires outputLength == |EscapeText(s)| && offset + outputLength + 2 < length
      modifies buffer
      ensures Shows(text + Quoted(EscapeText(s)))
    {
      hide EscapeByte, EscapeText, CString;
      HeldBytes(input, s);
      buffer[offset] := QUOTE;
      var o := offset + 1;
      var i := 0;
      assert buffer[..o] == text + [QUOTE] + EscapeText(s[..0]) by { EscapeNothing(s); }
      while input[i] != NUL
        invariant i <= |s| && o == offset + 1 + |EscapeText(s[..i])| <= offset + 1 + outputLength
        invariant buffer[..o] == text + [QUOTE] + EscapeText(s[..i])
        invariant input[..] == old(input[..])
        decreases |s| - i
      {
        EscapeNext(s, i);
        o := PutEscaped(input[i], o);
        i := i + 1;
      }
      assert s[..i] == s;
      buffer[offset + outputLength + 1] := QUOTE;
      buffer[offset + outputLength + 2] := NUL;
      assert buffer[..o + 1] == text + Quoted(EscapeText(s));
    }

    /** `print_string_ptr`: NULL prints as an empty string. */
    method PrintStringPtr(input: array?<byte>, ghost s: Option<bytes>, ghost text: bytes) returns (ok: bool)
      requires Ready(text) && Holds(input, s) && (input != null ==> input != buffer)
      modifies this`buffer, this`length, buffer, heap`requests, heap`live
      ensures ok <==> |text| + |StringText(s)| + 2 <= old(Space()) && !heap.RefusedSince(old(heap.requests))
      ensures ok ==> Shows(text + StringText(s))
      ensures Kept(ok)
    {
      hide EscapeText, CString;
      if input == null {
        ok := Ensure(3, text);
        if ok {
          EscapeNothing([]);
          Strcpy([QUOTE, QUOTE], text);
        }
        return;
      }
      var length, escapes := CountEscapes(input, s.value);
      ok := Ensure(length + escapes + 3, text);
      if !ok {
        return;
      }
      if escapes == 0 {
        HeldBytes(input, s.value);
        NoEscapes(s.value);
        assert Quoted(input[..length]) == StringText(s);
        Strcpy([QUOTE] + input[..length] + [QUOTE], text);
      } else {
        PutString(input, length + escapes, s.value, text);
      }
    }

    /** Room for `needed` bytes, the bytes `bs` stored there, and the offset moved past them. */
    method Append(needed: nat, bs: bytes, ghost text: bytes) returns (ok: bool)
      requires Ready(text) && |bs| <= needed
      modifies this`buffer, this`length, this`offset, buffer, heap`requests, heap`live
      ensures ok <==> |text| + needed + 1 <= old(Space()) && !heap.RefusedSince(old(heap.requests))
      ensures ok ==> Ready(text + bs) && offset < length
      ensures Kept(ok)
    {
      ok := Ensure(needed, text);
      if ok {
        Store(bs, text);
        offset := offset + |bs|;
      }
    }

    /** The loop that indents. */
    method StoreTabs(n: nat, ghost text: bytes)
      requires Ready(text) && offset + n <= length
      modifies buffer
      ensures Sound() && buffer[..offset + n] == text + Tabs(n)
    {
      for i := 0 to n
        invariant buffer[..offset + i] == text + Tabs(i)
      {
        buffer[offset + i] := TAB;
        assert buffer[..offset + i + 1] == text + Tabs(i + 1);
      }
    }

    /** The indentation of a member; nothing when the print is not formatted. */
    method Indent(ghost text: bytes) returns (ok: bool)
      requires Ready(text)
      modifies this`buffer, this`length, this`offset, buffer, heap`requests, heap`live
      ensures ok <==> (format ==> |text| + depth + 1 <= old(Space()) && !heap.RefusedSince(old(heap.requests)))
      ensures !format ==> heap.requests == old(heap.requests)
      ensures ok ==> Ready(text + TabsWhen(format, depth))
      ensures Kept(ok)
    {
      ok := true;
      if format {
        ok := Ensure(depth, text);
        if ok {
          StoreTabs(depth, text);
          offset := offset + depth;
        }
      }
    }

    /** The end of `print_array`. */
    method CloseArray(ghost text: bytes) returns (ok: bool)
      requires Ready(text) && depth > 0
      modifies this`buffer, this`length, this`depth, buffer, heap`requests, heap`live
      ensures ok <==> |text| + 3 <= old(Space()) && !heap.RefusedSince(old(heap.requests))
      ensures ok ==> Shows(text + [RBRACKET]) && depth == old(depth) - 1
      ensures Kept(ok)
    {
      ok := Ensure(2, text);
      if ok {
        Strcpy([RBRACKET], text);
        depth := depth - 1;
      }
    }

    /** The end of `print_object`. */
    method CloseObject(ghost text: bytes) returns (ok: bool)
      requires Ready(text) && depth > 0
      modifies this`buffer, this`length, this`depth, buffer, heap`requests, heap`live
      ensures var r := TabsWhen(format, old(depth) - 1) + [RBRACE];
              && (ok <==> |text| + |r| + 2 <= old(Space()) && !heap.RefusedSince(old(heap.requests)))
              && (ok ==> Shows(text + r) && depth == old(depth) - 1)
      ensures Kept(ok)
    {
      ok := Ensure(if format then depth + 1 else 2, text);
      if !ok {
        return;
      }
      var o := offset;
      if format {
        StoreTabs(depth - 1, text);
        o := o + depth - 1;
      }
      buffer[o] := RBRACE;
      buffer[o + 1] := NUL;
      assert buffer[..o + 1] == text + (TabsWhen(format, depth - 1) + [RBRACE]);
      depth := depth - 1;
    }

    // ----- the mutually recursive printers -----

    lemma {:induction false} ReadyIs(text: bytes)
      requires Ready(text)
      ensures Sound() && offset == |text|
    {
    }

    /**
     `print_value`: with enough space and no refused allocation it writes exactly the text of
     the tree, ended by a NUL, after the text already there, and restores the depth; with less,
     or for a tree that cannot be printed, it fails.
     */
    method PrintValue(item: Item?, ghost t: Option<Tree>, ghost j: Json, ghost text: bytes) returns (ok: bool)
      requires Ready(text)
      requires item != null ==> t.Some? && t.value.item == item && Models(t.value, j) && Cells(t.value) <= Others()
      modifies this`buffer, this`length, this`offset, this`depth, buffer, heap`requests, heap`live
      ensures var r := Render(f, j, format, old(depth));
              && (ok <==> && item != null && Printable(f, j) && |text| + |r| + 2 <= old(Space())
                          && !heap.RefusedSince(old(heap.requests)))
              && (ok ==> Shows(text + r) && offset >= |text| && depth == old(depth))
      ensures Kept(ok)
    {
      hide Models, Cells, Ready, Shows, Render, Printable, Refused, Space;
      ReadyIs(text);
      ok := false;
      if item != null {
        ok := PrintItem(item, t.value, j, text);
      }
    }

    method PrintItem(item: Item, ghost t: Tree, ghost j: Json, ghost text: bytes) returns (ok: bool)
      requires Ready(text) && t.item == item && Models(t, j) && Cells(t) <= Others()
      modifies this`buffer, this`length, this`offset, this`depth, buffer, heap`requests, heap`live
      ensures var r := Render(f, j, format, old(depth));
              && (ok <==> && Printable(f, j) && |text| + |r| + 2 <= old(Space())
                          && !heap.RefusedSince(old(heap.requests)))
              && (ok ==> Shows(text + r) && offset >= |text| && depth == old(depth))
      ensures Kept(ok)
      decreases t, 4
    {
      hide Models, Cells, CellsOf, Inner, Ready, Shows, CString, NumberText, StringText, RenderElements,
        RenderMembers, Refused, Space;
      ReadyIs(text);
      ModelsParts(t, j);
      match item.kind {
        case Null => ok := PrintWord(NULL_TEXT, text);
        case False => ok := PrintWord(FALSE_TEXT, text);
        case True => ok := PrintWord(TRUE_TEXT, text);
        case Number => ok := PrintNumber(item, text);
        case Raw => ok := PrintRaw(item.valuestring, j.str, text);
        case String => ok := PrintStringPtr(item.valuestring, j.str, text);
        case Array => ok := PrintArray(item, t, j, text);
        case Object => ok := PrintObject(item, t, j, text);
        case Invalid => ok := false;
      }
    }

    /** A keyword. */
    method PrintWord(word: bytes, ghost text: bytes) returns (ok: bool)
      requires Ready(text)
      modifies this`buffer, this`length, buffer, heap`requests, heap`live
      ensures ok <==> |text| + |word| + 2 <= old(Space()) && !heap.RefusedSince(old(heap.requests))
      ensures ok ==> Shows(text + word) && offset >= |text|
      ensures Kept(ok)
    {
      ok := Ensure(|word| + 1, text);
      if ok {
        Strcpy(word, text);
      }
    }

    /** A raw item: its text as it is. */
    method PrintRaw(raw: array?<byte>, ghost s: Option<bytes>, ghost text: bytes) returns (ok: bool)
      requires Ready(text) && Holds(raw, s) && (raw != null ==> raw != buffer)
      modifies this`buffer, this`length, buffer, heap`requests, heap`live
      ensures ok <==> && s.Some? && |text| + |s.value| + 2 <= old(Space())
                      && !heap.RefusedSince(old(heap.requests))
      ensures ok ==> Shows(text + s.value) && offset >= |text|
      ensures Kept(ok)
    {
      hide CString;
      if raw == null {
        return false;
      }
      var length := Strlen(raw, s.value);
      ok := Ensure(length + 1, text);
      if ok {
        Strcpy(raw[..length], text);
      }
    }

    /** `print_value` and `update_offset`. */
    method PrintNext(item: Item, ghost t: Tree, ghost j: Json, ghost text: bytes) returns (ok: bool)
      requires Ready(text) && t.item == item && Models(t, j) && Cells(t) <= Others()
      modifies this`buffer, this`length, this`offset, this`depth, buffer, heap`requests, heap`live
      ensures var r := Render(f, j, format, old(depth));
              && (ok <==> Printable(f, j) && |text| + |r| + 2 <= old(Space()) && !heap.RefusedSince(old(heap.requests)))
              && (ok ==> Ready(text + r) && depth == old(depth))
      ensures Kept(ok)
      decreases t, 5
    {
      hide Models, Cells, CellsOf, Inner, Ready, Shows, Render, Printable, Space, Refused;
      TextOf(t, j, depth);
      ghost var r := Render(f, j, format, depth);
      ok := PrintItem(item, t, j, text);
      if ok {
        Advance(text, r);
      }
    }

    /** A separator with a NUL after it. */
    method AppendGap(gap: bytes, ghost text: bytes) returns (ok: bool)
      requires Ready(text)
      modifies this`buffer, this`length, this`offset, buffer, heap`requests, heap`live
      ensures ok <==> |text| + |gap| + 2 <= old(Space()) && !heap.RefusedSince(old(heap.requests))
      ensures ok ==> Ready(text + gap)
      ensures Kept(ok)
    {
      ok := Append(|gap| + 1, gap, text);
      if ok {
        buffer[offset] := NUL;
      }
    }

    /** One turn of the loop of `print_array`: an element, and the comma if another follows. */
    method PrintElement(item: Item, ghost t: Tree, ghost j: Json, ghost text: bytes) returns (ok: bool)
      requires Ready(text) && t.item == item && Models(t, j) && Cells(t) <= Others()
      modifies this`buffer, this`length, this`offset, this`depth, buffer, heap`requests, heap`live
      ensures var r := Render(f, j, format, old(depth)) + ElementGap(format, item.next != null);
              && (ok <==> Printable(f, j) && |text| + |r| + 2 <= old(Space()) && !heap.RefusedSince(old(heap.requests)))
              && (ok ==> Ready(text + r) && depth == old(depth))
      ensures Kept(ok)
      decreases t, 6
    {
      hide Models, Cells, CellsOf, Inner, Ready, Shows, Render, Printable, Space, ElementGap;
      Parts(t);
      ghost var r := Render(f, j, format, depth);
      ok := PrintNext(item, t, j, text);
      if ok && item.next != null {
        ok := AppendGap([COMMA] + When(format, SPACE), text + r);
      }
      ElementSpace(r, text, format);
    }

    /** The text of a tree in memory has no NUL. */
    lemma {:induction false} TextOf(t: Tree, j: Json, depth: nat)
      requires Models(t, j)
      ensures NoNul(Render(f, j, format, depth))
    {
      ModelsCStrings(t, j);
      RenderNoNul(f, j, format, depth);
    }

    /** `update_offset` after `r` was written. */
    method Advance(ghost text: bytes, ghost r: bytes)
      requires Shows(text + r) && offset >= |text| && NoNul(r)
      modifies this`offset
      ensures Ready(text + r) && Shows(text + r)
    {
      TailNoNul(text, r, offset);
      UpdateOffset(text + r);
    }

    /** `print_array`. */
    method PrintArray(item: Item, ghost t: Tree, ghost j: Json, ghost text: bytes) returns (ok: bool)
      requires Ready(text) && t.item == item && Models(t, j) && Cells(t) <= Others() && j.kind == Array
      modifies this`buffer, this`length, this`offset, this`depth, buffer, heap`requests, heap`live
      ensures var r := Render(f, j, format, old(depth));
              && (ok <==> Printable(f, j) && |text| + |r| + 2 <= old(Space()) && !heap.RefusedSince(old(heap.requests)))
              && (ok ==> Shows(text + r) && offset >= |text| && depth == old(depth))
      ensures Kept(ok)
      decreases t, 3
    {
      hide Models, Cells, CellsOf, Inner, Ready, Shows, Render, Printable, Space, RenderElements, Refused, AllPrintable;
      Parts(t);
      ReadyIs(text);
      ArrayText(f, j, format, depth);
      ok := Append(1, [LBRACKET], text);
      if !ok {
        return;
      }
      depth := depth + 1;
      ghost var start := heap.requests;
      ghost var done;
      ok, done := PrintElements(item, t, j, text + [LBRACKET]);
      RefusedSplit(heap.refuses, old(heap.requests), start, heap.requests);
      start := heap.requests;
      if !ok {
        return;
      }
      ReadyIs(done);
      assert text + Render(f, j, format, depth - 1) == done + [RBRACKET];
      ok := CloseArray(done);
      RefusedSplit(heap.refuses, old(heap.requests), start, heap.requests);
    }

    /** Its loop. */
    method PrintElements(item: Item, ghost t: Tree, ghost j: Json, ghost text: bytes)
      returns (ok: bool, ghost done: bytes)
      requires Ready(text) && t.item == item && Models(t, j) && Cells(t) <= Others()
      modifies this`buffer, this`length, this`offset, this`depth, buffer, heap`requests, heap`live
      ensures done == text + RenderElements(f, j.kids, format, old(depth))
      ensures ok ==> Ready(done) && depth == old(depth) && !heap.RefusedSince(old(heap.requests))
      ensures ok ==> AllPrintable(f, j.kids)
      ensures ok && j.kids != [] ==> |done| + 2 <= old(Space())
      ensures !ok ==> heap.RefusedSince(old(heap.requests)) || |done| + 2 > old(Space()) || !AllPrintable(f, j.kids)
      ensures Kept(ok)
      decreases t, 2
    {
      hide Models, Cells, CellsOf, Inner, Ready, Render, Printable, Space, RenderElements, ElementGap, Refused;
      Parts(t);
      ReadyIs(text);
      ChildIs(t, j);
      ok, done := true, text;
      NoneRefused(heap.refuses, heap.requests);
      ghost var all := RenderElements(f, j.kids, format, depth);
      ghost var n := 0;
      var current := item.child;
      assert j.kids[0..] == j.kids;
      while current != null
        invariant n <= |t.kids| && current == (if n < |t.kids| then t.kids[n].item else null)
        invariant Ready(done) && depth == old(depth) && Kept(true)
        invariant Models(t, j) && Cells(t) <= Others() && !heap.RefusedSince(old(heap.requests))
        invariant done + RenderElements(f, j.kids[n..], format, depth) == text + all
        invariant forall k | 0 <= k < n :: Printable(f, j.kids[k])
        invariant n > 0 ==> |done| + 2 <= old(Space())
        decreases |t.kids| - n
      {
        KidModels(t, j, n);
        ElementsFrom(f, j.kids, n, format, depth);
        ghost var start := heap.requests;
        ok := PrintElement(current, t.kids[n], j.kids[n], done);
        RefusedSplit(heap.refuses, old(heap.requests), start, heap.requests);
        ghost var r := Render(f, j.kids[n], format, old(depth)) + ElementGap(format, n + 1 < |j.kids|);
        if !ok {
          done := text + all;
          return;
        }
        Regroup(done, r, RenderElements(f, j.kids[n + 1..], format, depth));
        done := done + r;
        current := current.next;
        n := n + 1;
      }
      ElementsFrom(f, j.kids, n, format, depth);
    }

    /** The name of a member: indentation, string and colon. */
    method PrintName(item: Item, ghost t: Tree, ghost j: Json, ghost text: bytes) returns (ok: bool)
      requires Ready(text) && t.item == item && Models(t, j) && Cells(t) <= Others()
      modifies this`buffer, this`length, this`offset, buffer, heap`requests, heap`live
      ensures var r := MemberHead(j.key, format, depth);
              && (ok <==> |text| + |r| + 1 <= old(Space()) && !heap.RefusedSince(old(heap.requests)))
              && (ok ==> Ready(text + r))
      ensures Kept(ok)
    {
      hide Models, Cells, CellsOf, Inner, Ready, Shows, Space, CString, StringText, TabsWhen;
      ModelsParts(t, j);
      KeyNoNul(t, j);
      ghost var tabs, name := TabsWhen(format, depth), StringText(j.key);
      ok := Indent(text);
      if ok {
        ok := PrintKey(item.name, j.key, text + tabs);
        if ok {
          ok := Append(if format then 2 else 1, [COLON] + When(format, TAB), text + tabs + name);
        }
      }
      assert text + MemberHead(j.key, format, depth) == text + tabs + name + ([COLON] + When(format, TAB));
    }

    /** `print_string_ptr` and `update_offset`. */
    method PrintKey(input: array?<byte>, ghost s: Option<bytes>, ghost text: bytes) returns (ok: bool)
      requires Ready(text) && Holds(input, s) && (input != null ==> input != buffer) && NoNul(StringText(s))
      modifies this`buffer, this`length, this`offset, buffer, heap`requests, heap`live
      ensures ok <==> |text| + |StringText(s)| + 2 <= old(Space()) && !heap.RefusedSince(old(heap.requests))
      ensures ok ==> Ready(text + StringText(s))
      ensures Kept(ok)
    {
      hide CString, StringText, Ready, Shows, Space, Refused, EscapeText;
      ReadyIs(text);
      ok := PrintStringPtr(input, s, text);
      if ok {
        Advance(text, StringText(s));
      }
    }

    lemma {:induction false} KeyNoNul(t: Tree, j: Json)
      requires Models(t, j)
      ensures NoNul(StringText(j.key))
    {
      ModelsCStrings(t, j);
      StringNoNul(j.key);
    }

    /** One turn of the loop of `print_object`: name, value, and the comma if another member follows. */
    method PrintMember(item: Item, ghost t: Tree, ghost j: Json, ghost text: bytes) returns (ok: bool)
      requires Ready(text) && t.item == item && Models(t, j) && Cells(t) <= Others()
      modifies this`buffer, this`length, this`offset, this`depth, buffer, heap`requests, heap`live
      ensures var r := MemberHead(j.key, format, old(depth)) + Render(f, j, format, old(depth)) +
                       MemberGap(format, item.next != null);
              && (ok <==> Printable(f, j) && |text| + |r| + 2 <= old(Space()) && !heap.RefusedSince(old(heap.requests)))
              && (ok ==> Ready(text + r) && depth == old(depth))
      ensures Kept(ok)
      decreases t, 6
    {
      hide Models, Cells, CellsOf, Inner, Ready, Shows, Render, Printable, Space, MemberHead, MemberGap;
      Parts(t);
      ghost var head, r := MemberHead(j.key, format, depth), Render(f, j, format, depth);
      ok := PrintName(item, t, j, text);
      if ok {
        ok := PrintNext(item, t, j, text + head);
        if ok {
          ok := AppendGap(When(item.next != null, COMMA) + When(format, LF), text + head + r);
        }
      }
      MemberSpace(head, r, text, format, item.next != null);
    }

    /** `print_object`. */
    method PrintObject(item: Item, ghost t: Tree, ghost j: Json, ghost text: bytes) returns (ok: bool)
      requires Ready(text) && t.item == item && Models(t, j) && Cells(t) <= Others() && j.kind == Object
      modifies this`buffer, this`length, this`offset, this`depth, buffer, heap`requests, heap`live
      ensures var r := Render(f, j, format, old(depth));
              && (ok <==> Printable(f, j) && |text| + |r| + 2 <= old(Space()) && !heap.RefusedSince(old(heap.requests)))
              && (ok ==> Shows(text + r) && offset >= |text| && depth == old(depth))
      ensures Kept(ok)
      decreases t, 3
    {
      hide Models, Cells, CellsOf, Inner, Ready, Shows, Render, Printable, Space, RenderMembers, TabsWhen, Refused,
        AllPrintable;
      Parts(t);
      ReadyIs(text);
      ObjectText(f, j, format, depth);
      ghost var open := [LBRACE] + When(format, LF);
      ok := Append((if format then 2 else 1) + 1, [LBRACE] + When(format, LF), text);
      if !ok {
        return;
      }
      depth := depth + 1;
      ghost var start := heap.requests;
      ghost var done;
      ok, done := PrintMembers(item, t, j, text + open);
      RefusedSplit(heap.refuses, old(heap.requests), start, heap.requests);
      start := heap.requests;
      if !ok {
        return;
      }
      ReadyIs(done);
      ObjectEnd(text, [LBRACE] + When(format, LF), RenderMembers(f, j.kids, format, depth),
                TabsWhen(format, depth - 1), [RBRACE]);
      ok := CloseObject(done);
      RefusedSplit(heap.refuses, old(heap.requests), start, heap.requests);
    }

    /** Its loop. */
    method PrintMembers(item: Item, ghost t: Tree, ghost j: Json, ghost text: bytes)
      returns (ok: bool, ghost done: bytes)
      requires Ready(text) && t.item == item && Models(t, j) && Cells(t) <= Others()
      modifies this`buffer, this`length, this`offset, this`depth, buffer, heap`requests, heap`live
      ensures done == text + RenderMembers(f, j.kids, format, old(depth))
      ensures ok ==> Ready(done) && depth == old(depth) && !heap.RefusedSince(old(heap.requests))
      ensures ok ==> AllPrintable(f, j.kids)
      ensures ok && j.kids != [] ==> |done| + 2 <= old(Space())
      ensures !ok ==> heap.RefusedSince(old(heap.requests)) || |done| + 2 > old(Space()) || !AllPrintable(f, j.kids)
      ensures Kept(ok)
      decreases t, 2
    {
      hide Models, Cells, CellsOf, Inner, Ready, Render, Printable, Space, RenderMembers, MemberGap, MemberHead,
        Refused;
      Parts(t);
      ReadyIs(text);
      ChildIs(t, j);
      ok, done := true, text;
      NoneRefused(heap.refuses, heap.requests);
      ghost var all := RenderMembers(f, j.kids, format, depth);
      ghost var n := 0;
      var current := item.child;
      assert j.kids[0..] == j.kids;
      while current != null
        invariant n <= |t.kids| && current == (if n < |t.kids| then t.kids[n].item else null)
        invariant Ready(done) && depth == old(depth) && Kept(true)
        invariant Models(t, j) && Cells(t) <= Others() && !heap.RefusedSince(old(heap.requests))
        invariant done + RenderMembers(f, j.kids[n..], format, depth) == text + all
        invariant forall k | 0 <= k < n :: Printable(f, j.kids[k])
        invariant n > 0 ==> |done| + 2 <= old(Space())
        decreases |t.kids| - n
      {
        KidModels(t, j, n);
        MembersFrom(f, j.kids, n, format, depth);
        ghost var start := heap.requests;
        ok := PrintMember(current, t.kids[n], j.kids[n], done);
        RefusedSplit(heap.refuses, old(heap.requests), start, heap.requests);
        ghost var r := MemberHead(j.kids[n].key, format, old(depth)) + Render(f, j.kids[n], format, old(depth)) +
          MemberGap(format, n + 1 < |j.kids|);
        if !ok {
          done := text + all;
          return;
        }
        Regroup(done, r, RenderMembers(f, j.kids[n + 1..], format, depth));
        done := done + r;
        current := current.next;
        n := n + 1;
      }
      MembersFrom(f, j.kids, n, format, depth);
    }
  }

  lemma {:induction false} Regroup(a: bytes, b: bytes, c: bytes)
    ensures a + (b + c) == (a + b) + c
  {
  }

  // ----- the entry points -----

  /**
   `print`, behind `cJSON_Print` and `cJSON_PrintUnformatted`: the text of the tree in one new
   cell of exactly its size; without that cell, nothing is gained.
   */
  method Print(item: Item?, format: bool, reallocates: bool, heap: Allocator, f: Sprintf, ghost t: Option<Tree>,
               ghost j: Json)
    returns (printed: array?<byte>)
    requires item != null ==> t.Some? && t.value.item == item && Models(t.value, j) && Cells(t.value) <= heap.live
    modifies heap`requests, heap`live
    ensures heap.requests >= old(heap.requests)
    ensures printed != null <==>
              && item != null && Printable(f, j) && |Render(f, j, format, 0)| + 2 <= INT_MAX
              && !heap.RefusedSince(old(heap.requests))
    ensures printed != null ==> fresh(printed) && printed[..] == Render(f, j, format, 0) + [NUL]
    ensures heap.live == old(heap.live) + Cell(printed)
  {
    hide Models, Cells, CellsOf, Inner, Render, Printable;
    printed := null;
    if t.Some? {
      Parts(t.value);
    }
    var a := heap.NewBytes(256);
    if a == null {
      return;
    }
    var p := new PrintBuffer(a, 256, false, format, reallocates, heap, f);
    var ok := p.PrintValue(item, t, j, []);
    if !ok {
      if p.buffer != null {
        heap.Deallocate(p.buffer);
      }
      return;
    }
    ghost var r := Render(f, j, format, 0);
    assert [] + r == r;
    p.TextOf(t.value, j, 0);
    p.Advance([], r);
    printed := FitBuffer(p, r);
  }

  function Smaller(a: nat, b: nat): nat {
    if a < b then a else b
  }

  /** The end of `print`: the text moves to a cell of its own size. */
  method FitBuffer(p: PrintBuffer, ghost text: bytes) returns (printed: array?<byte>)
    requires p.Shows(text) && p.offset == |text| && !p.noalloc
    modifies p.heap`requests, p.heap`live
    ensures p.heap.requests == old(p.heap.requests) + 1
    ensures printed == null <==> p.heap.refuses(old(p.heap.requests))
    ensures printed != null ==> fresh(printed) && printed[..] == text + [NUL]
    ensures p.heap.live == old(p.heap.live) - {p.buffer} + Cell(printed)
  {
    if p.reallocates {
      printed := p.heap.Reallocate(p.buffer, p.offset + 1);
      if printed == null {
        p.heap.Deallocate(p.buffer);
        return;
      }
      assert printed[..p.offset] == text;
    } else {
      printed := p.heap.NewBytes(p.offset + 1);
      if printed == null {
        p.heap.Deallocate(p.buffer);
        return;
      }
      var size := Smaller(p.length, p.offset + 1);
      forall k | 0 <= k < size {
        printed[k] := p.buffer[k];
      }
      printed[p.offset] := NUL;
      assert printed[..p.offset] == text;
      p.heap.Deallocate(p.buffer);
    }
  }

  /**
   `cJSON_PrintBuffered`: the same text, in a buffer that starts with `prebuffer` bytes and
   may be larger than the text.
   */
  method PrintBuffered(item: Item?, prebuffer: int, format: bool, reallocates: bool, heap: Allocator, f: Sprintf,
                       ghost t: Option<Tree>, ghost j: Json)
    returns (printed: array?<byte>)
    requires item != null ==> t.Some? && t.value.item == item && Models(t.value, j) && Cells(t.value) <= heap.live
    requires prebuffer <= INT_MAX && (prebuffer == 0 ==> reallocates)
    modifies heap`requests, heap`live
    ensures heap.requests >= old(heap.requests)
    ensures printed != null <==>
              && prebuffer >= 0 && item != null && Printable(f, j) && |Render(f, j, format, 0)| + 2 <= INT_MAX
              && !heap.RefusedSince(old(heap.requests))
    ensures printed != null ==>
              var r := Render(f, j, format, 0);
              fresh(printed) && |r| < printed.Length && printed[..|r| + 1] == r + [NUL]
    ensures heap.live == old(heap.live) + Cell(printed)
  {
    hide Models, Cells, CellsOf, Inner, Render, Printable;
    if t.Some? {
      Parts(t.value);
    }
    printed := null;
    if prebuffer < 0 {
      return;
    }
    var a := heap.NewBytes(prebuffer);
    if a == null {
      return;
    }
    var p := new PrintBuffer(a, prebuffer, false, format, reallocates, heap, f);
    var ok := p.PrintValue(item, t, j, []);
    if !ok {
      if p.buffer != null {
        heap.Deallocate(p.buffer);
      }
      return;
    }
    assert [] + Render(f, j, format, 0) == Render(f, j, format, 0);
    printed := p.buffer;
  }

  /**
   `cJSON_PrintPreallocated`: a printable tree is printed exactly when the caller's buffer has
   two bytes more than its text; nothing is allocated or released.
   */
  method PrintPreallocated(item: Item?, buffer: array?<byte>, length: int, format: bool, heap: Allocator, f: Sprintf,
                           ghost t: Option<Tree>, ghost j: Json)
    returns (ok: bool)
    requires item != null ==>
               && t.Some? && t.value.item == item && Models(t.value, j)
               && Cells(t.value) <= heap.live - Cell(buffer)
    requires buffer != null && length >= 0 ==> buffer.Length == length <= INT_MAX
    modifies Cell(buffer), heap`requests, heap`live
    ensures ok <==>
              && length >= 0 && buffer != null && item != null && Printable(f, j)
              && |Render(f, j, format, 0)| + 2 <= length
    ensures ok ==> buffer[..|Render(f, j, format, 0)| + 1] == Render(f, j, format, 0) + [NUL]
    ensures heap.requests == old(heap.requests) && heap.live == old(heap.live)
  {
    hide Models, Cells, CellsOf, Inner, Render, Printable;
    if t.Some? {
      Parts(t.value);
    }
    if length < 0 || buffer == null {
      return false;
    }
    var p := new PrintBuffer(buffer, length, true, format, false, heap, f);
    ok := p.PrintValue(item, t, j, []);
    assert [] + Render(f, j, format, 0) == Render(f, j, format, 0);
  }

  lemma {:induction false} ModelsCStrings(t: Tree, j: Json)
    requires Models(t, j)
    ensures CStrings(j)
    decreases t
  {
    hide ChildList, CString;
    forall k | 0 <= k < |j.kids| ensures CStrings(j.kids[k]) {
      ModelsCStrings(t.kids[k], j.kids[k]);
    }
  }

  lemma {:induction false} TailNoNul(text: bytes, r: bytes, o: nat)
    requires NoNul(r) && |text| <= o <= |text + r|
    ensures NoNul((text + r)[o..])
  {
    assert (text + r)[o..] == r[o - |text|..];
  }

  lemma {:induction false} ArrayText(f: Sprintf, j: Json, format: bool, depth: nat)
    requires j.kind == Array
    ensures Render(f, j, format, depth) == [LBRACKET] + RenderElements(f, j.kids, format, depth + 1) + [RBRACKET]
    ensures Printable(f, j) <==> AllPrintable(f, j.kids)
    ensures j.kids == [] ==> RenderElements(f, j.kids, format, depth + 1) == []
  {
  }

  /** The text from the `n`th element on. */
  lemma {:induction false} ElementsFrom(f: Sprintf, kids: seq<Json>, n: nat, format: bool, depth: nat)
    requires n <= |kids|
    ensures RenderElements(f, kids[n..], format, depth) ==
            if n == |kids| then []
            else
              Render(f, kids[n], format, depth) + ElementGap(format, n + 1 < |kids|) +
              RenderElements(f, kids[n + 1..], format, depth)
  {
    if n < |kids| {
      assert kids[n..][1..] == kids[n + 1..];
    }
  }

  lemma {:induction false} ObjectText(f: Sprintf, j: Json, format: bool, depth: nat)
    requires j.kind == Object
    ensures Render(f, j, format, depth) ==
            [LBRACE] + When(format, LF) + RenderMembers(f, j.kids, format, depth + 1) +
            TabsWhen(format, depth) + [RBRACE]
    ensures Printable(f, j) <==> AllPrintable(f, j.kids)
    ensures j.kids == [] ==> RenderMembers(f, j.kids, format, depth + 1) == []
  {
  }

  lemma {:induction false} ObjectEnd(text: bytes, open: bytes, members: bytes, tabs: bytes, close: bytes)
    ensures text + (open + members + tabs + close) == text + open + members + (tabs + close)
  {
  }

  /** The text from the `n`th member on. */
  lemma {:induction false} MembersFrom(f: Sprintf, kids: seq<Json>, n: nat, format: bool, depth: nat)
    requires n <= |kids|
    ensures RenderMembers(f, kids[n..], format, depth) ==
            if n == |kids| then []
            else
              MemberHead(kids[n].key, format, depth) + Render(f, kids[n], format, depth) +
              MemberGap(format, n + 1 < |kids|) + RenderMembers(f, kids[n + 1..], format, depth)
  {
    if n < |kids| {
      assert kids[n..][1..] == kids[n + 1..];
    }
  }

  lemma {:induction false} MemberSpace(head: bytes, r: bytes, text: bytes, format: bool, more: bool)
    ensures text + (head + r + MemberGap(format, more)) == text + head + r + (When(more, COMMA) + When(format, LF))
    ensures |MemberGap(format, more)| == (if format then 1 else 0) + (if more then 1 else 0)
  {
  }

  lemma {:induction false} ElementSpace(r: bytes, text: bytes, format: bool)
    ensures r + ElementGap(format, false) == r
    ensures text + (r + ElementGap(format, true)) == text + r + ([COMMA] + When(format, SPACE))
    ensures |ElementGap(format, true)| == if format then 2 else 1
  {
  }

  /** `strlen` of a held string. */
  method Strlen(a: array<byte>, ghost s: bytes) returns (n: nat)
    requires Holds(a, Some(s))
    ensures n == |s| < a.Length && a[..n] == s
  {
    HeldBytes(a, s);
    n := 0;
    while a[n] != NUL
      invariant n <= |s|
      decreases |s| - n
    {
      n := n + 1;
    }
  }

  lemma {:induction false} NoEscapes(s: bytes)
    ensures |EscapeText(s)| >= |s|
    ensures |EscapeText(s)| == |s| ==> EscapeText(s) == s
  {
    hide EscapeByte;
    if s != [] {
      NoEscapes(s[1..]);
      SameByte(s[0]);
      assert s == [s[0]] + s[1..];
    }
  }

  lemma {:induction false} SameByte(b: byte)
    ensures |EscapeByte(b)| == 1 ==> EscapeByte(b) == [b]
  {
  }

  lemma {:induction false} EscapeNothing(s: bytes)
    ensures EscapeText(s[..0]) == []
  {
  }

  /** One more byte escaped, within the length of the whole. */
  lemma {:induction false} EscapeNext(s: bytes, i: nat)
    requires i < |s|
    ensures EscapeText(s[..i + 1]) == EscapeText(s[..i]) + EscapeByte(s[i])
    ensures |EscapeText(s[..i + 1])| <= |EscapeText(s)|
  {
    EscapeConcat(s[..i], [s[i]]);
    assert s[..i] + [s[i]] == s[..i + 1];
    EscapeConcat(s[..i + 1], s[i + 1..]);
    assert s[..i + 1] + s[i + 1..] == s;
    assert [s[i]][1..] == [];
    assert EscapeByte(s[i]) + [] == EscapeByte(s[i]);
  }
}
