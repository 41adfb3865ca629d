/** Making items and putting them into objects: `cJSON_Create...` and `cJSON_Add...ToObject`. */
module HeapBuild {
  import opened Bytes
  import opened Numbers
  import opened Json
  import opened Heap
  import opened HeapLists
  import opened HeapEdit
  import opened HeapCopy

  /** How many of `cells` allocations are requested, from request `n` on, when the first refusal ends it. */
  function Asked(refuses: nat -> bool, n: nat, cells: nat): (r: nat)
    ensures r <= cells
    decreases cells
  {
    if cells == 0 then 0 else if refuses(n) then 1 else 1 + Asked(refuses, n + 1, cells - 1)
  }

  /** The first refusal ends it: something was refused exactly when one of all the requests is. */
  lemma {:induction false} AskedAll(refuses: nat -> bool, n: nat, cells: nat)
    ensures Refused(refuses, n, n + Asked(refuses, n, cells)) <==> Refused(refuses, n, n + cells)
    ensures !Refused(refuses, n, n + cells) ==> Asked(refuses, n, cells) == cells
    decreases cells
  {
    if cells > 0 && !refuses(n) {
      AskedAll(refuses, n + 1, cells - 1);
      RefusedLater(refuses, n, n + cells);
      RefusedLater(refuses, n, n + 1 + Asked(refuses, n + 1, cells - 1));
    }
  }

  lemma {:induction false} RefusedLater(refuses: nat -> bool, from: nat, to: nat)
    requires !refuses(from) && from < to
    ensures Refused(refuses, from, to) <==> Refused(refuses, from + 1, to)
  {
  }

  lemma {:induction false} AskedFew(refuses: nat -> bool, n: nat)
    ensures Asked(refuses, n, 1) == 1
    ensures Asked(refuses, n, 2) == if refuses(n) then 1 else 2
    ensures Asked(refuses, n, 3) == if refuses(n) then 1 else if refuses(n + 1) then 2 else 3
  {
    assert Asked(refuses, n + 1, 2) == if refuses(n + 1) then 1 else 1 + Asked(refuses, n + 2, 1);
  }

  /** `cJSON_strdup` of a string whose bytes are known. */
  method CopyBytes(heap: Allocator, text: bytes) returns (copy: array?<byte>)
    requires NoNul(text)
    modifies heap`requests, heap`live
    ensures heap.requests == old(heap.requests) + 1
    ensures copy == null <==> heap.refuses(old(heap.requests))
    ensures heap.live == old(heap.live) + Cell(copy)
    ensures copy != null ==> fresh(copy) && Holds(copy, Some(text))
  {
    hide CString;
    copy := heap.NewBytes(|text| + 1);
    if copy != null {
      forall i | 0 <= i < |text| {
        copy[i] := text[i];
      }
      copy[|text|] := NUL;
      assert copy[..][..|text|] == text;
      CStringCut(text, copy[..]);
      CStringOfCString(text);
    }
  }

  /** The cells of `item`, which are live, hold `j`. */
  ghost predicate Alive(heap: Allocator, item: Item, t: Tree, j: Json)
    reads heap`live, t.item, Cells(t)
  {
    t.item == item && Models(t, j) && Apart(t) && Cells(t) <= heap.live
  }

  /** The same, and it is in no list. */
  ghost predicate Detached(heap: Allocator, item: Item, t: Tree, j: Json)
    reads heap`live, item, t.item, Cells(t)
  {
    Alive(heap, item, t, j) && item.next == null && item.prev == null
  }

  /** `cJSON_CreateObject`. */
  method CreateObject(heap: Allocator) returns (item: Item?, ghost t: Option<Tree>)
    modifies heap`requests, heap`live
    ensures heap.requests == old(heap.requests) + 1
    ensures item == null <==> heap.refuses(old(heap.requests))
    ensures item == null ==> t == None && heap.live == old(heap.live)
    ensures item != null ==>
              && t.Some? && Detached(heap, item, t.value, ObjectItem([])) && fresh(Cells(t.value))
              && heap.live == old(heap.live) + Cells(t.value)
  {
    hide Cells, Apart, ApartAll, Inner;
    t := None;
    item := heap.NewItem();
    if item != null {
      item.kind := Object;
      t := Some(Tree(item, null, null, []));
      CellsOfUnnamed(t.value);
      LeafModels(t.value, ObjectItem([]));
    }
  }

  /** `cJSON_CreateNumber`. */
  method CreateNumber(heap: Allocator, num: real) returns (item: Item?, ghost t: Option<Tree>)
    modifies heap`requests, heap`live
    ensures heap.requests == old(heap.requests) + 1
    ensures item == null <==> heap.refuses(old(heap.requests))
    ensures item == null ==> t == None && heap.live == old(heap.live)
    ensures item != null ==>
              && t.Some? && Detached(heap, item, t.value, NumberItem(num)) && fresh(Cells(t.value))
              && heap.live == old(heap.live) + Cells(t.value) && AsInt(item.valueint, num)
  {
    hide Cells, Apart, ApartAll, Inner, Truncate, AsInt;
    ValueInt(num, Saturate(num));
    t := None;
    item := heap.NewItem();
    if item != null {
      item.kind := Number;
      item.valuedouble := num;
      if num >= INT_MAX as real {
        item.valueint := INT_MAX;
      } else if num <= INT_MIN as real {
        item.valueint := INT_MIN;
      } else {
        item.valueint := Truncate(num);
      }
      t := Some(Tree(item, null, null, []));
      CellsOfUnnamed(t.value);
      LeafModels(t.value, NumberItem(num));
    }
  }

  /** `cJSON_CreateString`. */
  method CreateString(heap: Allocator, text: bytes) returns (item: Item?, ghost t: Option<Tree>)
    requires NoNul(text)
    modifies heap`requests, heap`live
    ensures heap.requests == old(heap.requests) + Asked(heap.refuses, old(heap.requests), 2)
    ensures item == null <==> heap.RefusedSince(old(heap.requests))
    ensures item == null ==> t == None && heap.live == old(heap.live)
    ensures item != null ==>
              && t.Some? && Detached(heap, item, t.value, StringItem(text)) && fresh(Cells(t.value))
              && heap.live == old(heap.live) + Cells(t.value)
  {
    hide Apart, ApartAll, CString;
    t := None;
    AskedFew(heap.refuses, heap.requests);
    item := heap.NewItem();
    if item != null {
      item.kind := String;
      item.valuestring := CopyBytes(heap, text);
      ghost var c := Tree(item, item.valuestring, null, []);
      StringCells(c);
      if item.valuestring == null {
        SingleDeletable(c);
        Delete(heap, item, [c]);
        return null, None;
      }
      t := Some(c);
      LeafModels(c, StringItem(text));
    }
  }

  /** An item without a name and without children. */
  lemma {:induction false} LeafModels(t: Tree, j: Json)
    requires t.kids == [] && j.kids == [] && Fields(t.item, j) && t.item.child == null
    requires t.item.valuestring == t.str && Holds(t.str, j.str)
    requires t.name == null && t.item.name == null && j.key == None && !t.item.stringIsConst
    ensures Models(t, j)
  {
  }

  lemma {:induction false} StringCells(t: Tree)
    requires t.name == null && t.kids == []
    ensures Cells(t) == {t.item} + Cell(t.str) && Apart(t)
  {
  }

  /** The items of a list are inner cells of none of its trees. */
  lemma {:induction false} ListApart(ts: seq<Tree>)
    requires ApartAll(ts)
    ensures forall i, k {:trigger ts[i], ts[k]} | 0 <= i < |ts| && 0 <= k < |ts| ::
              ts[i].item !in Inner(ts[k]) && ts[i].item !in CellsOf(ts[k].kids)
  {
    hide Cells, Inner, CellsOf, Apart, ApartAll;
    forall i, k | 0 <= i < |ts| && 0 <= k < |ts|
      ensures ts[i].item !in Inner(ts[k]) && ts[i].item !in CellsOf(ts[k].kids)
    {
      if i == k {
        ApartEach(ts, i);
        ApartItem(ts[i]);
      } else {
        ApartPair(ts, if i < k then i else k, if i < k then k else i);
      }
    }
  }

  /** The item becomes the last child; whatever either holds stays. */
  method Attach(owner: Item, item: Item, ghost ot: Tree, ghost oj: Json, ghost it: Tree, ghost ij: Json)
    returns (ghost t: Tree)
    requires ot.item == owner && Models(ot, oj) && Apart(ot)
    requires it.item == item && Models(it, ij) && Apart(it) && item.next == null && Cells(ot) !! Cells(it)
    modifies owner`child, item`next, item`prev, Items(ot.kids)`next, Items(ot.kids)`prev
    ensures t == ot.(kids := ot.kids + [it]) && Models(t, oj.(kids := oj.kids + [ij]))
    ensures Apart(t) && Cells(t) == Cells(ot) + Cells(it)
  {
    hide Cells, Inner, CellsOf, Models, Body, Apart, ApartAll, ChildList, CString;
    ghost var ts := ot.kids;
    BodyParts(ot, oj);
    ListApart(ts);
    AttachApart(ot, it);
    Parts(it);
    Within(ts);
    assert allocated(Cells(it)) && allocated(Cells(ot));
    var ok := AddItemToArray(owner, item, Items(ts));
    t := ot.(kids := ts + [it]);
    CellsSnoc(ts, it);
    assert Models(it, ij);
    assert forall k | 0 <= k < |ts| :: Models(ts[k], oj.kids[k]);
    SnocModels(ts, it, oj.kids, ij);
    AttachModels(t, oj.(kids := oj.kids + [ij]));
  }

  lemma {:induction false} BodyParts(t: Tree, j: Json)
    requires Models(t, j) && Apart(t)
    ensures ApartAll(t.kids) && ChildList(t.item.child, Items(t.kids)) && |t.kids| == |j.kids|
    ensures forall k | 0 <= k < |t.kids| :: Models(t.kids[k], j.kids[k])
    ensures Fields(t.item, j) && t.item.valuestring == t.str && Holds(t.str, j.str)
    ensures !t.item.stringIsConst && t.item.name == t.name && Holds(t.name, j.key)
  {
  }

  /** Where the two trees lie, and that they stay apart when one goes into the other. */
  lemma {:induction false} AttachApart(ot: Tree, it: Tree)
    requires Apart(ot) && Apart(it) && Cells(ot) !! Cells(it)
    ensures it.item !in Items(ot.kids) && it.item !in Inner(it) && it.item !in CellsOf(it.kids)
    ensures forall k {:trigger ot.kids[k]} | 0 <= k < |ot.kids| ::
              && ot.kids[k].item !in Inner(it) && ot.kids[k].item !in CellsOf(it.kids)
              && it.item !in Inner(ot.kids[k]) && it.item !in CellsOf(ot.kids[k].kids)
    ensures ot.item != it.item && ot.item !in Inner(it) && ot.item !in CellsOf(it.kids)
    ensures forall k {:trigger ot.kids[k]} | 0 <= k < |ot.kids| ::
              ot.item != ot.kids[k].item && ot.item !in Inner(ot.kids[k]) && ot.item !in CellsOf(ot.kids[k].kids)
    ensures var t := ot.(kids := ot.kids + [it]); Apart(t) && Cells(t) == Cells(ot) + Cells(it)
  {
    CellsSnoc(ot.kids, it);
    Within(ot.kids);
    Outside(it.item, ot.kids);
    Outside(ot.item, ot.kids);
  }

  lemma {:induction false} AttachModels(t: Tree, j: Json)
    requires ChildList(t.item.child, Items(t.kids)) && |t.kids| == |j.kids|
    requires forall k | 0 <= k < |t.kids| :: Models(t.kids[k], j.kids[k])
    requires Fields(t.item, j) && t.item.valuestring == t.str && Holds(t.str, j.str)
    requires !t.item.stringIsConst && t.item.name == t.name && Holds(t.name, j.key)
    ensures Models(t, j)
  {
    hide ChildList, Holds, Fields;
  }

  /** The name of an item: a copy of `name` takes the place of the one it has. */
  method SetKey(heap: Allocator, item: Item, name: bytes, ghost t: Tree, ghost j: Json)
    returns (ok: bool, ghost k: Tree)
    requires Detached(heap, item, t, j) && NoNul(name)
    modifies item`name, item`stringIsConst, heap`requests, heap`live
    ensures heap.requests == old(heap.requests) + 1
    ensures ok <==> !heap.refuses(old(heap.requests))
    ensures Detached(heap, item, k, if ok then Named(j, name) else j)
    ensures Inner(k) == Inner(t) && fresh(Cells(k) - Cells(t))
    ensures !ok ==> k == t && heap.live == old(heap.live)
    ensures ok ==> heap.live == old(heap.live) - Cell(t.name) + Cell(k.name)
  {
    hide Cells, Inner, CellsOf, Body, Apart, ApartAll, CString;
    k := t;
    Parts(t);
    NameApart(t);
    assert allocated(Cells(t));
    var newKey := CopyBytes(heap, name);
    ok := newKey != null;
    if !ok {
      return;
    }
    item.stringIsConst := false;
    if !item.stringIsConst && item.name != null {
      heap.Deallocate(item.name);
    }
    item.name := newKey;
    k := t.(name := newKey);
    Renamed(t, k, j, name);
  }

  lemma {:induction false} NameApart(t: Tree)
    requires Apart(t)
    ensures t.item !in Inner(t) && t.item !in CellsOf(t.kids) && CellsOf(t.kids) <= Inner(t)
    ensures t.name != null ==> t.name !in Inner(t)
    ensures Cells(t) == {t.item} + Cell(t.name) + Inner(t)
  {
  }

  /** The same item and contents under another name, in a cell that is none of its others. */
  lemma {:induction false} Renamed(t: Tree, k: Tree, j: Json, name: bytes)
    requires k == t.(name := k.name) && Body(t, j) && Apart(t)
    requires k.name != null && k.name !in Inner(t) && Holds(k.name, Some(name))
    requires !k.item.stringIsConst && k.item.name == k.name
    ensures Models(k, Named(j, name)) && Apart(k) && Inner(k) == Inner(t)
    ensures Cells(k) == {k.item, k.name} + Inner(t)
  {
    hide ChildList, Holds;
  }

  lemma {:induction false} NotOwnKid(t: Tree)
    requires Apart(t)
    ensures t.item !in Items(t.kids)
  {
    Within(t.kids);
  }

  function WithMember(j: Json, member: Json, name: bytes): Json {
    j.(kids := j.kids + [Named(member, name)])
  }

  /** The children of an item that may be NULL. */
  ghost function KidsOf(t: Option<Tree>): seq<Item> {
    if t.Some? then Items(t.value.kids) else []
  }

  ghost function Owning(t: Option<Tree>): set<object> {
    if t.Some? then Cells(t.value) else {}
  }

  /**
   `add_item_to_object`: the item becomes the last member under a copy of the name, unless the
   copy is refused; then nothing has changed.
   */
  method AddItemToObject(heap: Allocator, owner: Item?, name: bytes, item: Item?, ghost ot: Option<Tree>,
                         ghost oj: Json,
                         ghost it: Option<Tree>, ghost ij: Json)
    returns (ok: bool, ghost t: Option<Tree>)
    requires owner != null ==> ot.Some? && Alive(heap, owner, ot.value, oj)
    requires item != null ==> it.Some? && Detached(heap, item, it.value, ij)
    requires owner != null && item != null ==> Cells(ot.value) !! Cells(it.value)
    requires NoNul(name)
    modifies Opt(owner)`child, KidsOf(ot)`next, KidsOf(ot)`prev
    modifies Opt(item)`next, Opt(item)`prev, Opt(item)`name, Opt(item)`stringIsConst, heap`requests, heap`live
    ensures heap.requests == old(heap.requests) + (if owner == null || item == null then 0 else 1)
    ensures ok <==> owner != null && item != null && !heap.refuses(old(heap.requests))
    ensures ok ==>
              && t.Some? && Alive(heap, owner, t.value, WithMember(oj, ij, name))
              && fresh(Cells(t.value) - Cells(ot.value) - Cells(it.value)) && Cells(ot.value) <= Cells(t.value)
              && heap.live - Cells(t.value) == old(heap.live) - Cells(ot.value) - Cells(it.value)
              && KidsOf(t) == KidsOf(ot) + [item]
    ensures !ok ==> heap.live == old(heap.live)
    ensures !ok && owner != null ==> Alive(heap, owner, ot.value, oj)
    ensures owner != null ==> owner.next == old(owner.next) && owner.prev == old(owner.prev)
    ensures !ok && item != null ==> Detached(heap, item, it.value, ij)
  {
    hide Cells, Inner, CellsOf, Models, Body, Apart, ApartAll, Owned;
    ok, t := false, ot;
    if owner == null || item == null {
      return;
    }
    Parts(ot.value);
    Parts(it.value);
    NotOwnKid(ot.value);
    if owner == item {
      return;
    }
    assert allocated(Cells(ot.value));
    ghost var k;
    ok, k := SetKey(heap, item, name, it.value, ij);
    if !ok {
      return;
    }
    NameApart(it.value);
    NameApart(k);
    ghost var r := Attach(owner, item, ot.value, oj, k, Named(ij, name));
    t := Some(r);
  }

  /** What putting one more member into `owner` has done: nothing if it was refused, and no cell is left over. */
  twostate predicate Grown(heap: Allocator, owner: Item, ot: Option<Tree>, new t: Option<Tree>, oj: Json, j: Json)
    reads heap`live, if t.Some? then {t.value.item} + Cells(t.value) else {}
  {
    && ot.Some? && t.Some? && Alive(heap, owner, t.value, j) && Cells(ot.value) <= Cells(t.value)
    && fresh(Cells(t.value) - Cells(ot.value)) && heap.live - Cells(t.value) == old(heap.live) - Cells(ot.value)
  }

  /** `cJSON_AddNumberToObject`: the new last member, or NULL. */
  method AddNumberToObject(heap: Allocator, owner: Item?, name: bytes, num: real, ghost ot: Option<Tree>,
                           ghost oj: Json)
    returns (added: Item?, ghost t: Option<Tree>, ghost j: Json)
    requires owner != null ==> ot.Some? && Alive(heap, owner, ot.value, oj)
    requires NoNul(name)
    modifies Opt(owner)`child, KidsOf(ot)`next, KidsOf(ot)`prev, heap`requests, heap`live
    ensures heap.requests ==
            old(heap.requests) + Asked(heap.refuses, old(heap.requests), if owner == null then 1 else 2)
    ensures added != null <==> owner != null && !heap.RefusedSince(old(heap.requests))
    ensures owner == null ==> heap.live == old(heap.live)
    ensures owner != null ==>
              && Grown(heap, owner, ot, t, oj, j)
              && j == (if added == null then oj else WithMember(oj, NumberItem(num), name))
              && KidsOf(t) == KidsOf(ot) + (if added == null then [] else [added])
              && owner.next == old(owner.next) && owner.prev == old(owner.prev)
  {
    hide Cells, Inner, CellsOf, Models, Body, Apart, ApartAll, Owned;
    if owner != null {
      Parts(ot.value);
      assert allocated(Cells(ot.value));
    }
    AskedFew(heap.refuses, heap.requests);
    var item;
    ghost var it;
    item, it := CreateNumber(heap, num);
    added, t, j := AddOrDelete(heap, owner, name, item, ot, oj, it, NumberItem(num));
  }

  /** `cJSON_AddStringToObject`, likewise. */
  method AddStringToObject(heap: Allocator, owner: Item?, name: bytes, text: bytes, ghost ot: Option<Tree>,
                           ghost oj: Json)
    returns (added: Item?, ghost t: Option<Tree>, ghost j: Json)
    requires owner != null ==> ot.Some? && Alive(heap, owner, ot.value, oj)
    requires NoNul(name) && NoNul(text)
    modifies Opt(owner)`child, KidsOf(ot)`next, KidsOf(ot)`prev, heap`requests, heap`live
    ensures heap.requests ==
            old(heap.requests) + Asked(heap.refuses, old(heap.requests), if owner == null then 2 else 3)
    ensures added != null <==> owner != null && !heap.RefusedSince(old(heap.requests))
    ensures owner == null ==> heap.live == old(heap.live)
    ensures owner != null ==>
              && Grown(heap, owner, ot, t, oj, j)
              && j == (if added == null then oj else WithMember(oj, StringItem(text), name))
              && KidsOf(t) == KidsOf(ot) + (if added == null then [] else [added])
              && owner.next == old(owner.next) && owner.prev == old(owner.prev)
  {
    hide Cells, Inner, CellsOf, Models, Body, Apart, ApartAll, Owned;
    if owner != null {
      Parts(ot.value);
      assert allocated(Cells(ot.value));
    }
    AskedFew(heap.refuses, heap.requests);
    var item;
    ghost var it;
    item, it := CreateString(heap, text);
    added, t, j := AddOrDelete(heap, owner, name, item, ot, oj, it, StringItem(text));
  }

  /** The new item is added, or released if that fails. */
  method AddOrDelete(heap: Allocator, owner: Item?, name: bytes, item: Item?, ghost ot: Option<Tree>, ghost oj: Json,
                     ghost it: Option<Tree>, ghost ij: Json)
    returns (added: Item?, ghost t: Option<Tree>, ghost j: Json)
    requires owner != null ==> ot.Some? && Alive(heap, owner, ot.value, oj)
    requires item != null ==> it.Some? && Detached(heap, item, it.value, ij)
    requires item == null ==> it == None
    requires owner != null && item != null ==> Cells(ot.value) !! Cells(it.value)
    requires NoNul(name)
    modifies Opt(owner)`child, KidsOf(ot)`next, KidsOf(ot)`prev
    modifies Opt(item)`next, Opt(item)`prev, Opt(item)`name, Opt(item)`stringIsConst, heap`requests, heap`live
    ensures heap.requests == old(heap.requests) + (if owner == null || item == null then 0 else 1)
    ensures added == if owner == null || item == null || heap.refuses(old(heap.requests)) then null else item
    ensures owner == null ==> heap.live == old(heap.live) - Owning(it)
    ensures owner != null ==>
              && t.Some? && Alive(heap, owner, t.value, j) && Cells(ot.value) <= Cells(t.value)
              && fresh(Cells(t.value) - Cells(ot.value) - Owning(it))
              && heap.live - Cells(t.value) == old(heap.live) - Cells(ot.value) - Owning(it)
              && j == (if added == null then oj else WithMember(oj, ij, name))
              && KidsOf(t) == KidsOf(ot) + (if added == null then [] else [added])
              && owner.next == old(owner.next) && owner.prev == old(owner.prev)
  {
    hide Cells, Inner, CellsOf, Models, Body, Apart, ApartAll, Owned, Deletable;
    var ok;
    ok, t := AddItemToObject(heap, owner, name, item, ot, oj, it, ij);
    j := if ok then WithMember(oj, ij, name) else oj;
    added := if ok then item else null;
    if !ok {
      t := ot;
      if item != null {
        ModelsOwned(it.value, ij);
        SingleDeletable(it.value);
        if owner != null {
          Parts(ot.value);
        }
        Delete(heap, item, [it.value]);
      }
    }
  }
}
