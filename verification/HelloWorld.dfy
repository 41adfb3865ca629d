/** `HelloWorld_to_MQTT` and `MQTT_to_HelloWorld` on the struct and on cJSON items in memory. */
module HelloWorld {
  import opened Bytes
  import opened Doubles
  import opened Numbers
  import opened Json
  import opened JsonGrammar
  import opened JsonRender
  import opened Heap
  import opened HeapLists
  import opened HeapEdit
  import opened HeapBuild
  import HeapCompare
  import Parser
  import Payload
  import Printer
  import opened Bridge

  /** struct example_struct with its two message arrays. */
  class ExampleStruct {
    var int8Test: int8
    var uint8Test: uint8
    var int16Test: int16
    var uint16Test: uint16
    var int32Test: int32
    var uint32Test: uint32
    var int64Test: int64
    var uint64Test: uint64
    const message: array<byte>
    var exampleEnum: int32
    const struMessage: array<byte>

    constructor ()
      ensures Valid() && fresh(message) && fresh(struMessage)
    {
      message := new byte[MESSAGE_SIZE](_ => NUL);
      struMessage := new byte[MESSAGE_SIZE](_ => NUL);
      int8Test, uint8Test, int16Test, uint16Test := 0, 0, 0, 0;
      int32Test, uint32Test, int64Test, uint64Test, exampleEnum := 0, 0, 0, 0, 0;
    }

    ghost predicate Valid() {
      message.Length == struMessage.Length == MESSAGE_SIZE && message != struMessage
    }

    ghost function View(): Sample
      reads this, message, struMessage
    {
      Sample(int8Test, uint8Test, int16Test, uint16Test, int32Test, uint32Test, int64Test, uint64Test, message[..],
             exampleEnum, struMessage[..])
    }
  }

  /** The C string in an array. */
  method Text(a: array<byte>) returns (s: bytes)
    requires |CString(a[..])| < a.Length
    ensures s == CString(a[..])
  {
    hide CString;
    ghost var text := CString(a[..]);
    CStringBytes(a[..]);
    var n := 0;
    while a[n] != NUL
      invariant n <= |text|
      decreases |text| - n
    {
      n := n + 1;
    }
    s := a[..n];
  }

  // ----- what a schedule of refusals makes of the object -----

  /** The cells of a scalar member: its item, its text if it is a string, and its name. */
  function MemberCells(i: nat): nat {
    if i == 8 then 3 else 2
  }

  /** The members of the outer object after some of the sample's, and the number of the next request. */
  datatype Progress = Progress(next: nat, kids: seq<Json>)

  /**
   After the first `n` members, the outer object being requested first, as number `from`: those
   are there whose allocations were all granted.  Without an outer object the items are made
   all the same, and released.
   */
  ghost function Reached(refuses: nat -> bool, from: nat, m: Sample, n: nat): (r: Progress)
    requires n <= |NAMES|
    ensures r.next > from
  {
    if n == 0 then Progress(from + 1, [])
    else
      var p, cells := Reached(refuses, from, m, n - 1), MemberCells(n - 1);
      if refuses(from) then Progress(p.next + Asked(refuses, p.next, cells - 1), [])
      else
        Progress(p.next + Asked(refuses, p.next, cells),
                 if Refused(refuses, p.next, p.next + cells) then p.kids
                 else p.kids + [Named(FieldItem(m, n - 1), Key(n - 1))])
  }

  /** The request for the inner object, after ten members. */
  ghost function InnerRequest(refuses: nat -> bool, from: nat, m: Sample): nat
  {
    Reached(refuses, from, m, 10).next
  }

  /** The request for the copy of the name "example_stru", if the two objects are there. */
  ghost function NameRequest(refuses: nat -> bool, from: nat, m: Sample): nat
  {
    var n := InnerRequest(refuses, from, m);
    n + 1 + Asked(refuses, n + 1, if refuses(n) then 2 else 3)
  }

  /** The inner object requested as number `n`: its message is there if its three cells are granted. */
  ghost function InnerItem(refuses: nat -> bool, n: nat, m: Sample): Json
  {
    ObjectItem(if Refused(refuses, n + 1, n + 4) then [] else [Named(StringItem(CString(m.struMessage)), Key(8))])
  }

  /** The inner object is made but cannot be put into the outer one: that, or the copy of its name, was refused. */
  ghost predicate InnerLost(refuses: nat -> bool, from: nat, m: Sample)
  {
    && !refuses(InnerRequest(refuses, from, m))
    && (refuses(from) || refuses(NameRequest(refuses, from, m)))
  }

  /** The outer object in the end. */
  ghost function Assembled(refuses: nat -> bool, from: nat, m: Sample): Json
  {
    var n := InnerRequest(refuses, from, m);
    ObjectItem(Reached(refuses, from, m, 10).kids +
               (if refuses(n) || refuses(NameRequest(refuses, from, m)) then []
                else [Named(InnerItem(refuses, n, m), Key(10))]))
  }

  /** The request after the last one. */
  ghost function AfterAll(refuses: nat -> bool, from: nat, m: Sample): nat
  {
    NameRequest(refuses, from, m) + (if refuses(from) || refuses(InnerRequest(refuses, from, m)) then 0 else 1)
  }

  // ----- HelloWorld_to_MQTT -----

  /** The requests and the object are where the schedule has them after `n` members. */
  ghost predicate Follows(heap: Allocator, from: nat, obj: Item?, j: Json, m: Sample, n: nat)
    requires n <= |NAMES|
    reads heap`requests
  {
    && heap.requests == Reached(heap.refuses, from, m, n).next
    && (obj == null <==> heap.refuses(from))
    && (obj != null ==> j == ObjectItem(Reached(heap.refuses, from, m, n).kids))
  }

  /** The object under construction, all of whose cells are new, and the ledger. */
  ghost predicate Built(heap: Allocator, obj: Item?, t: Option<Tree>, j: Json, before: set<object>)
    reads heap`live, if t.Some? then {t.value.item} + Cells(t.value) else {}
  {
    if obj == null then heap.live == before
    else t.Some? && Alive(heap, obj, t.value, j) && heap.live - Cells(t.value) == before && obj.next == null
  }

  /** The children of an item are among its cells. */
  lemma {:induction false} KidsIn(t: Option<Tree>)
    ensures t.Some? ==> t.value.item in Owning(t)
    ensures forall i | i in KidsOf(t) :: i in Owning(t)
  {
    if t.Some? {
      Within(t.value.kids);
    }
  }

  /** One more scalar member. */
  lemma {:induction false} OneMore(heap: Allocator, from: nat, obj: Item?, j: Json, j': Json, added: bool, m: Sample,
                                   n: nat, start: nat)
    requires n < |NAMES| && start == Reached(heap.refuses, from, m, n).next && (obj == null <==> heap.refuses(from))
    requires obj != null ==> j == ObjectItem(Reached(heap.refuses, from, m, n).kids)
    requires heap.requests == start + Asked(heap.refuses, start, MemberCells(n) - (if obj == null then 1 else 0))
    requires added <==> obj != null && !Refused(heap.refuses, start, heap.requests)
    requires obj != null ==> j' == if added then WithMember(j, FieldItem(m, n), Key(n)) else j
    ensures Follows(heap, from, obj, j', m, n + 1)
  {
    hide FieldItem, Key, Refused, Asked;
    AskedAll(heap.refuses, start, MemberCells(n));
  }

  /** One `cJSON_AddNumberToObject` of the conversion: member `n` of the sample `m`. */
  method AddNumber(heap: Allocator, obj: Item?, n: nat, num: real, ghost t: Option<Tree>, ghost j: Json,
                   ghost before: set<object>, ghost from: nat, ghost m: Sample)
    returns (ghost t': Option<Tree>, ghost j': Json)
    requires n < |NAMES| && n != 8 && FieldItem(m, n) == NumberItem(num)
    requires Built(heap, obj, t, j, before) && Follows(heap, from, obj, j, m, n)
    modifies Owning(t), heap`requests, heap`live
    ensures Built(heap, obj, t', j', before) && Follows(heap, from, obj, j', m, n + 1)
    ensures forall o | o in Owning(t') :: o in Owning(t) || fresh(o)
  {
    hide Cells, Apart, Models, FieldItem, Key, Reached, Asked, Refused;
    KidsIn(t);
    ghost var start := heap.requests;
    var added;
    added, t', j' := AddNumberToObject(heap, obj, Key(n), num, t, j);
    if obj == null {
      t', j' := t, j;
    }
    OneMore(heap, from, obj, j, j', added != null, m, n, start);
  }

  /** One `cJSON_AddStringToObject`, likewise. */
  method AddString(heap: Allocator, obj: Item?, n: nat, text: bytes, ghost t: Option<Tree>, ghost j: Json,
                   ghost before: set<object>, ghost from: nat, ghost m: Sample)
    returns (ghost t': Option<Tree>, ghost j': Json)
    requires n < |NAMES| && n == 8 && FieldItem(m, n) == StringItem(text) && NoNul(text)
    requires Built(heap, obj, t, j, before) && Follows(heap, from, obj, j, m, n)
    modifies Owning(t), heap`requests, heap`live
    ensures Built(heap, obj, t', j', before) && Follows(heap, from, obj, j', m, n + 1)
    ensures forall o | o in Owning(t') :: o in Owning(t) || fresh(o)
  {
    hide Cells, Apart, Models, FieldItem, Key, Reached, Asked, Refused;
    KidsIn(t);
    ghost var start := heap.requests;
    var added;
    added, t', j' := AddStringToObject(heap, obj, Key(n), text, t, j);
    if obj == null {
      t', j' := t, j;
    }
    OneMore(heap, from, obj, j, j', added != null, m, n, start);
  }

  lemma {:induction false} SmallFields(m: Sample)
    ensures FieldItem(m, 0) == IntItem(m.int8Test) && FieldItem(m, 1) == IntItem(m.uint8Test)
    ensures FieldItem(m, 2) == IntItem(m.int16Test) && FieldItem(m, 3) == IntItem(m.uint16Test)
  {
  }

  lemma {:induction false} WideFields(m: Sample)
    ensures FieldItem(m, 4) == IntItem(m.int32Test) && FieldItem(m, 5) == IntItem(m.uint32Test)
    ensures FieldItem(m, 6) == IntItem(m.int64Test) && FieldItem(m, 7) == IntItem(m.uint64Test)
  {
  }

  lemma {:induction false} LastFields(m: Sample)
    ensures FieldItem(m, 8) == StringItem(CString(m.message)) && FieldItem(m, 9) == IntItem(m.exampleEnum)
    ensures |NAMES| > 10 && FieldItem(m, 10) == StruItem(m)
  {
  }

  /** The new object with its first four members. */
  method BuildSmall(heap: Allocator, m: Sample) returns (obj: Item?, ghost t: Option<Tree>, ghost j: Json)
    requires |NAMES| == 11
    modifies heap`requests, heap`live
    ensures Built(heap, obj, t, j, old(heap.live)) && Follows(heap, old(heap.requests), obj, j, m, 4)
    ensures fresh(Owning(t))
  {
    hide Cells, Owning, Built, Follows, NAMES, FieldItem, Round;
    ghost var before, from := heap.live, heap.requests;
    SmallFields(m);
    obj, t, j := StartObject(heap, m);
    t, j := AddNumber(heap, obj, 0, Round(m.int8Test as real), t, j, before, from, m);
    t, j := AddNumber(heap, obj, 1, Round(m.uint8Test as real), t, j, before, from, m);
    t, j := AddNumber(heap, obj, 2, Round(m.int16Test as real), t, j, before, from, m);
    t, j := AddNumber(heap, obj, 3, Round(m.uint16Test as real), t, j, before, from, m);
  }

  method StartObject(heap: Allocator, ghost m: Sample) returns (obj: Item?, ghost t: Option<Tree>, ghost j: Json)
    requires |NAMES| == 11
    modifies heap`requests, heap`live
    ensures Built(heap, obj, t, j, old(heap.live)) && Follows(heap, old(heap.requests), obj, j, m, 0)
    ensures fresh(Owning(t))
  {
    hide Cells, Apart, Models, Key, FieldItem;
    obj, t := CreateObject(heap);
    j := ObjectItem([]);
  }

  /** With four more. */
  method BuildIntegers(heap: Allocator, m: Sample) returns (obj: Item?, ghost t: Option<Tree>, ghost j: Json)
    requires |NAMES| == 11
    modifies heap`requests, heap`live
    ensures Built(heap, obj, t, j, old(heap.live)) && Follows(heap, old(heap.requests), obj, j, m, 8)
    ensures fresh(Owning(t))
  {
    hide Cells, Owning, Built, Follows, NAMES, FieldItem, Round;
    ghost var before, from := heap.live, heap.requests;
    WideFields(m);
    obj, t, j := BuildSmall(heap, m);
    t, j := AddNumber(heap, obj, 4, Round(m.int32Test as real), t, j, before, from, m);
    t, j := AddNumber(heap, obj, 5, Round(m.uint32Test as real), t, j, before, from, m);
    t, j := AddNumber(heap, obj, 6, Round(m.int64Test as real), t, j, before, from, m);
    t, j := AddNumber(heap, obj, 7, Round(m.uint64Test as real), t, j, before, from, m);
  }

  /** With the message and the enumeration. */
  method BuildScalars(heap: Allocator, m: Sample) returns (obj: Item?, ghost t: Option<Tree>, ghost j: Json)
    requires |NAMES| == 11
    modifies heap`requests, heap`live
    ensures Built(heap, obj, t, j, old(heap.live)) && Follows(heap, old(heap.requests), obj, j, m, 10)
    ensures fresh(Owning(t))
  {
    hide Cells, Owning, Built, Follows, NAMES, FieldItem, Round, CString;
    ghost var before, from := heap.live, heap.requests;
    LastFields(m);
    obj, t, j := BuildIntegers(heap, m);
    t, j := AddString(heap, obj, 8, CString(m.message), t, j, before, from, m);
    t, j := AddNumber(heap, obj, 9, Round(m.exampleEnum as real), t, j, before, from, m);
  }

  /** The inner object with its message, which is made all the same when the object is not there. */
  method BuildStru(heap: Allocator, m: Sample) returns (sub: Item?, ghost t: Option<Tree>)
    requires |NAMES| == 11
    modifies heap`requests, heap`live
    ensures var n := old(heap.requests);
            && heap.requests == n + 1 + Asked(heap.refuses, n + 1, if heap.refuses(n) then 2 else 3)
            && (sub == null <==> heap.refuses(n)) && (sub == null ==> t == None && heap.live == old(heap.live))
            && (sub != null ==>
                  && t.Some? && Detached(heap, sub, t.value, InnerItem(heap.refuses, n, m)) && fresh(Cells(t.value))
                  && heap.live == old(heap.live) + Cells(t.value))
  {
    hide Cells, NAMES, Key, CString, Detached, Asked, Refused, InnerItem;
    sub, t := CreateObject(heap);
    if sub != null {
      t := FillStru(heap, sub, m, t);
    } else {
      var nothing;
      ghost var t', j;
      nothing, t', j := AddStringToObject(heap, null, Key(8), CString(m.struMessage), None, ObjectItem([]));
    }
  }

  /** Its `cJSON_AddStringToObject`. */
  method FillStru(heap: Allocator, sub: Item, m: Sample, ghost t0: Option<Tree>) returns (ghost t: Option<Tree>)
    requires |NAMES| == 11 && heap.requests > 0
    requires t0.Some? && Detached(heap, sub, t0.value, ObjectItem([]))
    modifies Owning(t0), heap`requests, heap`live
    ensures heap.requests == old(heap.requests) + Asked(heap.refuses, old(heap.requests), 3)
    ensures t.Some? && Detached(heap, sub, t.value, InnerItem(heap.refuses, old(heap.requests) - 1, m))
    ensures heap.live - Cells(t.value) == old(heap.live) - Owning(t0) && Cells(t.value) <= heap.live
    ensures forall o | o in Owning(t) :: o in Owning(t0) || fresh(o)
  {
    hide Cells, Key, CString, Apart, Models, Asked, Refused, InnerItem, NAMES, WithMember, KidsOf;
    KidsIn(t0);
    AskedAll(heap.refuses, heap.requests, 3);
    InnerIs(heap.refuses, heap.requests - 1, m);
    var added;
    ghost var j;
    added, t, j := AddStringToObject(heap, sub, Key(8), CString(m.struMessage), t0, ObjectItem([]));
  }

  lemma {:induction false} InnerIs(refuses: nat -> bool, n: nat, m: Sample)
    requires |NAMES| == 11
    ensures InnerItem(refuses, n, m) ==
            if Refused(refuses, n + 1, n + 4) then ObjectItem([])
            else WithMember(ObjectItem([]), StringItem(CString(m.struMessage)), Key(8))
  {
    hide Key, CString, Refused;
    var member := Named(StringItem(CString(m.struMessage)), Key(8));
    assert [] + [member] == [member];
  }

  /**
   The whole object, for every schedule of refusals.  The cells that are lost are exactly those
   of the inner object, if that was made but the outer one, or the copy of its name in it, was
   refused: nobody deletes it then.
   */
  method BuildObject(heap: Allocator, m: Sample)
    returns (obj: Item?, ghost t: Option<Tree>, ghost inner: Option<Tree>, ghost leaked: set<object>)
    requires |NAMES| == 11
    modifies heap`requests, heap`live
    ensures heap.requests == AfterAll(heap.refuses, old(heap.requests), m)
    ensures obj == null <==> heap.refuses(old(heap.requests))
    ensures inner.Some? <==> InnerLost(heap.refuses, old(heap.requests), m)
    ensures inner.Some? ==>
              && Models(inner.value, InnerItem(heap.refuses, InnerRequest(heap.refuses, old(heap.requests), m), m))
              && Apart(inner.value)
    ensures leaked == Owning(inner) && fresh(leaked)
    ensures obj == null ==> heap.live == old(heap.live) + leaked
    ensures obj != null ==>
              && t.Some? && Alive(heap, obj, t.value, Assembled(heap.refuses, old(heap.requests), m))
              && obj.next == null && fresh(Cells(t.value)) && leaked !! Cells(t.value)
              && heap.live - Cells(t.value) == old(heap.live) + leaked
  {
    hide Cells, Apart, Models, NAMES, Key, CString, WithMember, Reached, Asked, Refused, InnerItem, Assembled, Alive,
      Detached;
    ghost var sj := InnerItem(heap.refuses, InnerRequest(heap.refuses, heap.requests, m), m);
    var sub;
    ghost var j, st;
    obj, t, j, sub, st := BuildBoth(heap, m);
    t, inner := AttachStru(heap, obj, sub, t, j, st, sj);
    leaked := Owning(inner);
    if obj != null {
      AssembledIs(heap.refuses, old(heap.requests), m);
      Leftover(heap.live, Cells(t.value), leaked, old(heap.live));
    }
  }

  /** The two objects, apart from each other. */
  method BuildBoth(heap: Allocator, m: Sample)
    returns (obj: Item?, ghost t: Option<Tree>, ghost j: Json, sub: Item?, ghost st: Option<Tree>)
    requires |NAMES| == 11
    modifies heap`requests, heap`live
    ensures heap.requests == NameRequest(heap.refuses, old(heap.requests), m)
    ensures obj == null <==> heap.refuses(old(heap.requests))
    ensures sub == null <==> heap.refuses(InnerRequest(heap.refuses, old(heap.requests), m))
    ensures obj == null ==> heap.live == old(heap.live) + Owning(st)
    ensures obj != null ==>
              && t.Some? && obj.next == null && Owning(st) !! Cells(t.value)
              && Alive(heap, obj, t.value, j) && j == ObjectItem(Reached(heap.refuses, old(heap.requests), m, 10).kids)
              && heap.live - Cells(t.value) - Owning(st) == old(heap.live)
    ensures sub == null ==> st == None
    ensures sub != null ==>
              && st.Some?
              && Detached(heap, sub, st.value,
                          InnerItem(heap.refuses, InnerRequest(heap.refuses, old(heap.requests), m), m))
    ensures fresh(Owning(t)) && fresh(Owning(st))
  {
    hide Cells, Apart, Models, NAMES, Key, CString, Reached, Asked, Refused, InnerItem, Detached;
    obj, t, j := BuildScalars(heap, m);
    if obj != null {
      Parts(t.value);
      assert allocated(Cells(t.value));
    }
    sub, st := BuildStru(heap, m);
  }

  lemma {:induction false} AssembledIs(refuses: nat -> bool, from: nat, m: Sample)
    requires |NAMES| == 11
    ensures var n := InnerRequest(refuses, from, m);
            var j := ObjectItem(Reached(refuses, from, m, 10).kids);
            Assembled(refuses, from, m) ==
            if refuses(n) || refuses(NameRequest(refuses, from, m)) then j
            else WithMember(j, InnerItem(refuses, n, m), Key(10))
  {
    hide Key, Reached, InnerItem, InnerRequest, NameRequest;
    var kids := Reached(refuses, from, m, 10).kids;
    assert kids + [] == kids;
  }

  lemma {:induction false} Leftover(live: set<object>, cells: set<object>, leaked: set<object>, before: set<object>)
    requires live - cells - leaked == before && leaked <= live && leaked !! cells
    ensures live - cells == before + leaked
  {
  }

  /** `cJSON_AddItemToObject` on the two objects, either of which may be NULL. */
  method AttachStru(heap: Allocator, obj: Item?, sub: Item?, ghost t0: Option<Tree>, ghost j0: Json,
                    ghost st: Option<Tree>,
                    ghost sj: Json)
    returns (ghost t: Option<Tree>, ghost lost: Option<Tree>)
    requires |NAMES| == 11 && (obj != null ==> t0.Some? && Alive(heap, obj, t0.value, j0) && obj.next == null)
    requires sub == null ==> st == None
    requires sub != null ==> st.Some? && Detached(heap, sub, st.value, sj)
    requires obj != null && sub != null ==> Cells(t0.value) !! Cells(st.value)
    modifies Owning(t0), Owning(st), heap`requests, heap`live
    ensures heap.requests == old(heap.requests) + (if obj == null || sub == null then 0 else 1)
    ensures lost == if obj == null || heap.refuses(old(heap.requests)) then st else None
    ensures lost.Some? ==> Models(lost.value, sj) && Apart(lost.value) && Cells(lost.value) <= heap.live
    ensures obj == null ==> heap.live == old(heap.live)
    ensures obj != null ==>
              && t.Some? && obj.next == null && Owning(lost) !! Cells(t.value)
              && Alive(heap, obj, t.value,
                       if sub == null || heap.refuses(old(heap.requests)) then j0 else WithMember(j0, sj, Key(10)))
              && heap.live - Cells(t.value) - Owning(lost) == old(heap.live) - Cells(t0.value) - Owning(st)
    ensures forall o | o in Owning(t) :: o in Owning(t0) || o in Owning(st) || fresh(o)
  {
    hide Cells, Apart, Models, Key, WithMember;
    KidsIn(t0);
    KidsIn(st);
    t, lost := t0, st;
    var ok;
    ghost var t';
    ok, t' := AddItemToObject(heap, obj, Key(10), sub, t0, j0, st, sj);
    if ok {
      t, lost := t', None;
    }
  }

  // ----- when nothing, or one thing, is refused -----

  /** While nothing is refused the object has the members of the sample. */
  lemma {:induction false} AllReached(refuses: nat -> bool, from: nat, m: Sample, n: nat)
    requires |NAMES| == 11 && n <= 10 && !Refused(refuses, from, Reached(refuses, from, m, n).next)
    ensures Reached(refuses, from, m, n).next == from + 1 + 2 * n + (if n > 8 then 1 else 0)
    ensures Reached(refuses, from, m, n).kids == Members(m)[..n]
  {
    hide FieldItem, Key, Members, Asked, Refused;
    if n > 0 {
      var p := Reached(refuses, from, m, n - 1);
      var next := Reached(refuses, from, m, n).next;
      Granted(refuses, from, next, from);
      Narrower(refuses, from, next, from, p.next);
      Narrower(refuses, from, next, p.next, next);
      AskedAll(refuses, p.next, MemberCells(n - 1));
      AllReached(refuses, from, m, n - 1);
      MembersSnoc(m, n - 1);
    } else {
      MembersNone(m);
    }
  }

  lemma {:induction false} Granted(refuses: nat -> bool, from: nat, to: nat, n: nat)
    requires from <= n < to && !Refused(refuses, from, to)
    ensures !refuses(n)
  {
  }

  lemma {:induction false} Narrower(refuses: nat -> bool, from: nat, to: nat, a: nat, b: nat)
    requires from <= a && b <= to && !Refused(refuses, from, to)
    ensures !Refused(refuses, a, b)
  {
  }

  lemma {:induction false} MembersSnoc(m: Sample, n: nat)
    requires n < |NAMES|
    ensures Members(m)[..n + 1] == Members(m)[..n] + [Named(FieldItem(m, n), Key(n))]
  {
    hide FieldItem, Key;
  }

  lemma {:induction false} MembersNone(m: Sample)
    ensures Members(m)[..0] == []
  {
  }

  /** Without refusals the object is the sample's and nothing is lost. */
  lemma {:induction false} NothingRefused(refuses: nat -> bool, from: nat, m: Sample, to: nat)
    requires |NAMES| == 11 && AfterAll(refuses, from, m) <= to && !Refused(refuses, from, to)
    ensures Assembled(refuses, from, m) == SampleJson(m) && !InnerLost(refuses, from, m)
  {
    hide Key, FieldItem, Members, CString, Asked, Reached, Refused;
    var n, next := InnerRequest(refuses, from, m), AfterAll(refuses, from, m);
    Granted(refuses, from, to, from);
    Granted(refuses, from, to, n);
    Narrower(refuses, from, to, from, n);
    AllReached(refuses, from, m, 10);
    Narrower(refuses, from, to, n + 1, n + 1 + Asked(refuses, n + 1, 3));
    AskedAll(refuses, n + 1, 3);
    Granted(refuses, from, to, n + 4);
    LastFields(m);
    MembersSnoc(m, 10);
    assert Members(m)[..11] == Members(m);
  }

  /** A schedule that refuses request `k` alone. */
  function Only(k: nat): (r: nat -> bool)
    ensures forall n :: r(n) <==> n == k
  {
    n => n == k
  }

  /**
   Of all schedules with one refusal exactly two lose the inner object: those that refuse the
   outer one, which is requested first, or the copy of the name "example_stru", requested last.
   */
  lemma {:induction false} OneRefusal(k: nat, from: nat, m: Sample)
    requires |NAMES| == 11
    ensures InnerLost(Only(k), from, m) <==> k == from || k == from + 26
  {
    hide Asked, Reached, Refused;
    var r, n := Only(k), InnerRequest(Only(k), from, m);
    ReachedEarly(r, from, m, 10);
    if k >= n || k < from {
      OnlyRefuses(k, from, n);
      AllReached(r, from, m, 10);
      AskedFew(r, n + 1);
    }
  }

  /** With the very first request refused, the new heap ends up with the cells of the inner object and no object. */
  method LosesInnerObject(m: Sample) returns (obj: Item?, heap: Allocator)
    ensures fresh(heap) && obj == null && heap.live != {}
  {
    hide Cells, Models, Apart, NAMES, Assembled, InnerItem, InnerLost, AfterAll;
    heap := new Allocator(Only(0));
    ghost var t, inner, leaked;
    Eleven();
    obj, t, inner, leaked := BuildObject(heap, m);
    OneRefusal(0, 0, m);
    KidsIn(inner);
  }

  lemma {:induction false} ReachedEarly(refuses: nat -> bool, from: nat, m: Sample, n: nat)
    requires |NAMES| == 11 && n <= 10
    ensures Reached(refuses, from, m, n).next <= from + 1 + 2 * n + (if n > 8 then 1 else 0)
  {
    hide FieldItem, Key, Refused;
    if n > 0 {
      ReachedEarly(refuses, from, m, n - 1);
    }
  }

  lemma {:induction false} OnlyRefuses(k: nat, from: nat, to: nat)
    ensures Refused(Only(k), from, to) <==> from <= k < to
  {
    assert Only(k)(k);
  }

  /**
   `HelloWorld_to_MQTT`, for every schedule of refusals.  The payload is the formatted text of
   what was assembled: NULL when the object itself was refused, or something while it was
   printed.  It is all that is gained, but for the inner object where that is lost.
   */
  method HelloWorldToMqtt(m1: ExampleStruct, reallocates: bool, heap: Allocator, f: Sprintf)
    returns (payload: array?<byte>, ghost leaked: set<object>)
    requires m1.Valid() && Sound(m1.View())
    modifies heap`requests, heap`live
    ensures var r, n, m := heap.refuses, old(heap.requests), m1.View();
            var j := Assembled(r, n, m);
            && (payload != null <==>
                  && !r(n) && Printable(f, j) && |Render(f, j, true, 0)| + 2 <= INT_MAX
                  && !heap.RefusedSince(AfterAll(r, n, m)))
            && (payload != null ==> payload[..] == Render(f, j, true, 0) + [NUL])
            && (leaked != {} <==> InnerLost(r, n, m))
    ensures !heap.RefusedSince(old(heap.requests)) ==>
              Assembled(heap.refuses, old(heap.requests), m1.View()) == SampleJson(m1.View()) && leaked == {}
    ensures !heap.RefusedSince(old(heap.requests)) && payload != null ==>
              payload[..] == Payload.PayloadText(f, m1.View()) + [NUL]
    ensures heap.live == old(heap.live) + Cell(payload) + leaked && fresh(Cell(payload)) && fresh(leaked)
    ensures m1.View() == old(m1.View())
  {
    hide Cells, Apart, Models, NAMES, Printable, Render, SampleJson, CString, Owned, Assembled, InnerLost, AfterAll,
      InnerRequest, InnerItem, Refused, Payload.PayloadText;
    var m := Read(m1);
    Eleven();
    var obj;
    ghost var t, inner;
    obj, t, inner, leaked := BuildObject(heap, m);
    ghost var j := Assembled(heap.refuses, old(heap.requests), m);
    if obj != null {
      Parts(t.value);
      assert allocated(Cells(t.value));
    }
    payload := Printer.Print(obj, true, reallocates, heap, f, t, j);
    DeleteObject(heap, obj, t, j);
    if !heap.RefusedSince(old(heap.requests)) {
      WholePayload(heap.refuses, old(heap.requests), m, heap.requests, f);
    }
  }

  lemma {:induction false} WholePayload(refuses: nat -> bool, from: nat, m: Sample, to: nat, f: Sprintf)
    requires |NAMES| == 11 && AfterAll(refuses, from, m) <= to && !Refused(refuses, from, to)
    ensures Assembled(refuses, from, m) == SampleJson(m) && !InnerLost(refuses, from, m)
    ensures Render(f, Assembled(refuses, from, m), true, 0) == Payload.PayloadText(f, m)
  {
    hide Assembled, AfterAll, Refused, InnerLost, SampleJson, Render, Payload.PayloadText;
    NothingRefused(refuses, from, m, to);
    Payload.PayloadIs(f, m);
  }

  /** The struct field by field, its messages as their arrays. */
  method Read(m1: ExampleStruct) returns (m: Sample)
    requires m1.Valid()
    ensures m == m1.View()
  {
    m := Sample(m1.int8Test, m1.uint8Test, m1.int16Test, m1.uint16Test, m1.int32Test, m1.uint32Test, m1.int64Test,
                m1.uint64Test, m1.message[..], m1.exampleEnum, m1.struMessage[..]);
  }

  /** `cJSON_Delete` of an item that is in no list, or of NULL. */
  method DeleteObject(heap: Allocator, obj: Item?, ghost t: Option<Tree>, ghost j: Json)
    requires obj != null ==> t.Some? && Alive(heap, obj, t.value, j) && obj.next == null
    modifies heap`live
    ensures heap.live == old(heap.live) - (if obj == null then {} else Cells(t.value))
  {
    hide Cells, Apart, Models, Owned, ApartAll;
    if obj != null {
      ModelsOwned(t.value, j);
      SingleDeletable(t.value);
    }
    NothingDeletable();
    Delete(heap, obj, if obj == null then [] else [t.value]);
  }

  // ----- MQTT_to_HelloWorld -----

  /** A string literal, which lives outside the heap. */
  method Literal(s: bytes) returns (a: array<byte>)
    requires NoNul(s)
    ensures fresh(a) && Holds(a, Some(s))
  {
    hide CString;
    a := new byte[|s| + 1];
    forall i | 0 <= i < |s| {
      a[i] := s[i];
    }
    a[|s|] := NUL;
    assert a[..][..|s|] == s;
    CStringCut(s, a[..]);
    CStringOfText(s, []);
    assert s + [] == s;
  }

  /** `cJSON_GetObjectItem` with a literal name: the member, if there is one. */
  method GetMember(owner: Item?, name: bytes, ghost t: Tree, ghost j: Json) returns (item: Item?, ghost k: nat)
    requires owner != null ==> t.item == owner && Models(t, j)
    requires NoNul(name)
    ensures item != null <==> owner != null && Member(j, name).Some?
    ensures item != null ==>
              && k < |j.kids| && |t.kids| == |j.kids| && item == t.kids[k].item && Member(j, name) == Some(j.kids[k])
              && item.valueint == j.kids[k].valueint && Holds(item.valuestring, j.kids[k].str)
    ensures item != null ==> Models(t.kids[k], j.kids[k]) && Cells(t.kids[k]) <= Cells(t)
  {
    hide Models, Cells, CString, NoNul;
    Parts(t);
    assert allocated(Cells(t));
    var literal := Literal(name);
    item := HeapCompare.GetObjectItem(owner, literal, false, t, j, Some(name));
    k := 0;
    if item != null {
      k := HeapCompare.C.Find(j.kids, Some(name), false).value;
      KidModels(t, j, k);
      ModelsParts(t.kids[k], j.kids[k]);
    }
  }

  /** The tree is read only; nothing of it changes while the struct is filled. */
  ghost predicate Source(root: Item?, t: Tree, j: Json)
    reads if root == null then {} else {t.item} + Cells(t)
  {
    root != null ==> t.item == root && Models(t, j)
  }

  /** The members `from` up to `to` are all there. */
  predicate HasMembers(j: Json, from: nat, to: nat)
    requires to <= |NAMES|
  {
    forall i | from <= i < to :: Member(j, Key(i)).Some?
  }

  /** `valueint` of a member, which must be there. */
  method GetInt(root: Item?, n: nat, ghost t: Tree, ghost j: Json) returns (found: bool, value: int)
    requires Source(root, t, j) && n < |NAMES|
    ensures found <==> root != null && Member(j, Key(n)).Some?
    ensures found ==> value == Member(j, Key(n)).value.valueint
    ensures Source(root, t, j)
  {
    hide Models, Cells, CString, Member, Key;
    Parts(t);
    assert allocated(Cells(t));
    var item;
    ghost var k;
    item, k := GetMember(root, Key(n), t, j);
    found, value := item != null, 0;
    if item != null {
      value := item.valueint;
    }
  }

  method FillSmall(root: Item?, m2: ExampleStruct, ghost t: Tree, ghost j: Json) returns (ok: bool)
    requires Source(root, t, j) && |NAMES| == 11
    modifies m2`int8Test, m2`uint8Test, m2`int16Test, m2`uint16Test
    ensures ok <==> root != null && HasMembers(j, 0, 4)
    ensures ok ==> Source(root, t, j)
    ensures ok ==>
              && m2.int8Test == ToInt8(Member(j, Key(0)).value.valueint)
              && m2.uint8Test == ToUint8(Member(j, Key(1)).value.valueint)
              && m2.int16Test == ToInt16(Member(j, Key(2)).value.valueint)
              && m2.uint16Test == ToUint16(Member(j, Key(3)).value.valueint)
  {
    hide Models, Cells, CString, NAMES, Member, Key, Source;
    assert m2 !in Cells(t);
    var value;
    ok, value := GetInt(root, 0, t, j);
    if !ok { return; }
    m2.int8Test := ToInt8(value);
    ok, value := GetInt(root, 1, t, j);
    if !ok { return; }
    m2.uint8Test := ToUint8(value);
    ok, value := GetInt(root, 2, t, j);
    if !ok { return; }
    m2.int16Test := ToInt16(value);
    ok, value := GetInt(root, 3, t, j);
    if !ok { return; }
    m2.uint16Test := ToUint16(value);
  }

  method FillWide(root: Item?, m2: ExampleStruct, ghost t: Tree, ghost j: Json) returns (ok: bool)
    requires Source(root, t, j) && |NAMES| == 11
    modifies m2`int32Test, m2`uint32Test, m2`int64Test, m2`uint64Test
    ensures ok <==> root != null && HasMembers(j, 4, 8)
    ensures ok ==> Source(root, t, j)
    ensures ok ==>
              && m2.int32Test == ToInt32(Member(j, Key(4)).value.valueint)
              && m2.uint32Test == ToUint32(Member(j, Key(5)).value.valueint)
              && m2.int64Test == ToInt64(Member(j, Key(6)).value.valueint)
              && m2.uint64Test == ToUint64(Member(j, Key(7)).value.valueint)
  {
    hide Models, Cells, CString, NAMES, Member, Key, Source;
    assert m2 !in Cells(t);
    var value;
    ok, value := GetInt(root, 4, t, j);
    if !ok { return; }
    m2.int32Test := ToInt32(value);
    ok, value := GetInt(root, 5, t, j);
    if !ok { return; }
    m2.uint32Test := ToUint32(value);
    ok, value := GetInt(root, 6, t, j);
    if !ok { return; }
    m2.int64Test := ToInt64(value);
    ok, value := GetInt(root, 7, t, j);
    if !ok { return; }
    m2.uint64Test := ToUint64(value);
  }

  /** `strcpy` of a string into an array it must fit. */
  method Strcpy(dest: array<byte>, src: array?<byte>, ghost s: Option<bytes>) returns (ok: bool)
    requires Holds(src, s) && dest != src
    modifies dest
    ensures ok <==> s.Some? && |s.value| < dest.Length
    ensures ok ==> dest[..] == Copy(old(dest[..]), s.value)
    ensures !ok ==> dest[..] == old(dest[..])
  {
    hide CString;
    if src == null {
      return false;
    }
    HeldBytes(src, s.value);
    var text := Text(src);
    if |text| >= dest.Length {
      return false;
    }
    forall i | 0 <= i < |text| {
      dest[i] := text[i];
    }
    dest[|text|] := NUL;
    assert dest[..] == text + [NUL] + old(dest[..])[|text| + 1..];
    ok := true;
  }

  /** A string member is copied into an array of the struct. */
  method FillText(owner: Item?, dest: array<byte>, ghost t: Tree, ghost j: Json) returns (ok: bool)
    requires Source(owner, t, j) && |NAMES| == 11 && dest !in Cells(t) && dest.Length == MESSAGE_SIZE
    modifies dest
    ensures ok <==> owner != null && Member(j, Key(8)).Some? && FitsMessage(Member(j, Key(8)).value.str)
    ensures ok ==> dest[..] == Copy(old(dest[..]), Member(j, Key(8)).value.str.value)
    ensures Source(owner, t, j)
  {
    hide Models, Cells, CString, Member, Key, NAMES;
    Parts(t);
    assert allocated(Cells(t));
    var item;
    ghost var k;
    item, k := GetMember(owner, Key(8), t, j);
    ok := item != null;
    if ok {
      TextIn(t.kids[k], j.kids[k]);
      ok := Strcpy(dest, item.valuestring, j.kids[k].str);
    }
  }

  lemma {:induction false} TextIn(t: Tree, j: Json)
    requires Models(t, j)
    ensures Cell(t.item.valuestring) <= Cells(t)
  {
  }

  /** The message, the enumeration and the message of the inner struct. */
  method FillRest(root: Item?, m2: ExampleStruct, ghost t: Tree, ghost j: Json) returns (ok: bool)
    requires Source(root, t, j) && |NAMES| == 11 && m2.Valid() && m2.message !in Cells(t) && m2.struMessage !in Cells(t)
    modifies m2`exampleEnum, m2.message, m2.struMessage
    ensures ok <==>
              && root != null && HasMembers(j, 8, 11) && FitsMessage(Member(j, Key(8)).value.str)
              && Member(Member(j, Key(10)).value, Key(8)).Some?
              && FitsMessage(Member(Member(j, Key(10)).value, Key(8)).value.str)
    ensures ok ==>
              && Source(root, t, j) && m2.exampleEnum == ToInt32(Member(j, Key(9)).value.valueint)
              && m2.message[..] == Copy(old(m2.message[..]), Member(j, Key(8)).value.str.value)
              && m2.struMessage[..] ==
                 Copy(old(m2.struMessage[..]), Member(Member(j, Key(10)).value, Key(8)).value.str.value)
  {
    hide Models, Cells, CString, Member, Key, NAMES, FitsMessage, Copy, Source;
    SourceParts(root, t, j);
    assert allocated(Cells(t));
    ok := FillText(root, m2.message, t, j);
    if !ok {
      return;
    }
    var value;
    ok, value := GetInt(root, 9, t, j);
    if !ok {
      return;
    }
    m2.exampleEnum := ToInt32(value);
    ok := FillInner(root, m2.struMessage, t, j);
  }

  lemma {:induction false} SourceParts(root: Item?, t: Tree, j: Json)
    ensures t.item in Cells(t) && forall o | o in Cells(t) :: IsCell(o)
    ensures Source(null, t, j)
  {
    hide Models;
    Parts(t);
  }

  /** The message of the inner struct. */
  method FillInner(root: Item?, dest: array<byte>, ghost t: Tree, ghost j: Json) returns (ok: bool)
    requires Source(root, t, j) && |NAMES| == 11 && dest !in Cells(t) && dest.Length == MESSAGE_SIZE
    modifies dest
    ensures ok <==>
              && root != null && Member(j, Key(10)).Some? && Member(Member(j, Key(10)).value, Key(8)).Some?
              && FitsMessage(Member(Member(j, Key(10)).value, Key(8)).value.str)
    ensures ok ==> dest[..] == Copy(old(dest[..]), Member(Member(j, Key(10)).value, Key(8)).value.str.value)
    ensures Source(root, t, j)
  {
    hide Models, Cells, CString, Member, Key, NAMES, FitsMessage, Copy;
    Parts(t);
    assert allocated(Cells(t));
    var inner;
    ghost var k;
    inner, k := GetMember(root, Key(10), t, j);
    ok := inner != null;
    if ok {
      ok := FillText(inner, dest, t.kids[k], j.kids[k]);
    }
  }

  /**
   `MQTT_to_HelloWorld`: it succeeds exactly on texts that parse to a tree with every member,
   with messages that fit their arrays, when no allocation is refused; otherwise the C code
   would follow a NULL pointer or write past an array.  On success the struct is filled from
   the tree and every cell is released.
   */
  method MqttToHelloWorld(payload: bytes, m2: ExampleStruct, heap: Allocator) returns (ok: bool)
    requires m2.Valid() && NoNul(payload)
    modifies m2, m2.message, m2.struMessage, heap`requests, heap`live
    ensures ok <==>
              && Parse(payload, false).Ok? && !heap.RefusedSince(old(heap.requests))
              && Complete(Parse(payload, false).value)
    ensures ok <==>
              && Parse(payload, false).Ok? && !heap.RefusedSince(old(heap.requests))
              && HasEleven(Parse(payload, false).value)
    ensures ok ==> m2.View() == Bridge.Filled(Parse(payload, false).value, old(m2.View()))
    ensures ok ==> FilledFrom(m2.View(), Parse(payload, false).value)
    ensures ok ==> heap.live == old(heap.live)
  {
    hide Models, Cells, CString, Member, Key, NAMES, Parse, FitsMessage, Copy, Apart, Refused, HasEleven, FilledFrom,
      Complete;
    Eleven();
    if Parse(payload, false).Ok? {
      CompleteIff(Parse(payload, false).value);
    }
    var root, end;
    ghost var tree;
    root, end, tree := Parser.ParseWithOpts(payload, false, heap);
    if root == null {
      return false;
    }
    ghost var j := Parse(payload, false).value;
    ghost var t := tree.value;
    ok := Fill(root, m2, t, j);
    if ok {
      FilledByName(j, old(m2.View()));
      DeleteObject(heap, root, Some(t), j);
    }
  }

  /** The assignments to the fields, in order, up to the first one that is not possible. */
  method Fill(root: Item, m2: ExampleStruct, ghost t: Tree, ghost j: Json) returns (ok: bool)
    requires t.item == root && Models(t, j) && |NAMES| == 11
    requires m2.Valid() && m2.message !in Cells(t) && m2.struMessage !in Cells(t)
    modifies m2, m2.message, m2.struMessage
    ensures ok <==> Complete(j)
    ensures ok ==> Models(t, j) && m2.View() == Bridge.Filled(j, old(m2.View()))
  {
    hide Models, Cells, CString, Member, Key, NAMES, FitsMessage, Copy;
    ok := FillSmall(root, m2, t, j);
    if ok {
      ok := FillWide(root, m2, t, j);
    }
    if ok {
      ok := FillRest(root, m2, t, j);
    }
  }
}
