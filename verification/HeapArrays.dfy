/** Editing arrays by index, with what the array and the items hold before and after. */
module HeapArrays {
  import opened Bytes
  import opened Json
  import opened Heap
  import opened HeapLists
  import opened HeapEdit
  import opened HeapBuild

  // ----- the cells of edited lists -----

  lemma {:induction false} WithoutCells(ts: seq<Tree>, k: nat)
    requires ApartAll(ts) && k < |ts|
    ensures ApartAll(Without(ts, k)) && Cells(ts[k]) !! CellsOf(Without(ts, k)) && Apart(ts[k])
    ensures CellsOf(ts) == CellsOf(Without(ts, k)) + Cells(ts[k])
    decreases |ts|
  {
    hide Cells, CellsOf, Apart, ApartAll, Inner, Without;
    var init, last := ts[..|ts| - 1], ts[|ts| - 1];
    assert ts == init + [last];
    CellsSnoc(init, last);
    WithoutSnoc(init, last, k);
    if k < |init| {
      WithoutCells(init, k);
      CellsSnoc(Without(init, k), last);
    }
  }

  lemma {:induction false} WithoutSnoc<T>(s: seq<T>, x: T, k: nat)
    requires k <= |s|
    ensures Without(s + [x], k) == if k == |s| then s else Without(s, k) + [x]
  {
  }

  lemma {:induction false} InsertedCells(ts: seq<Tree>, k: nat, t: Tree)
    requires ApartAll(ts) && Apart(t) && Cells(t) !! CellsOf(ts) && k <= |ts|
    ensures ApartAll(Inserted(ts, k, t)) && CellsOf(Inserted(ts, k, t)) == CellsOf(ts) + Cells(t)
    decreases |ts|
  {
    hide Cells, CellsOf, Apart, ApartAll, Inner, Inserted;
    if k == |ts| {
      InsertedLast(ts, t);
      CellsSnoc(ts, t);
    } else {
      var init, last := ts[..|ts| - 1], ts[|ts| - 1];
      assert ts == init + [last];
      CellsSnoc(init, last);
      InsertedCells(init, k, t);
      InsertedSnoc(init, last, k, t);
      CellsSnoc(Inserted(init, k, t), last);
    }
  }

  lemma {:induction false} InsertedLast<T>(s: seq<T>, x: T)
    ensures Inserted(s, |s|, x) == s + [x]
  {
  }

  lemma {:induction false} InsertedSnoc<T>(s: seq<T>, y: T, k: nat, x: T)
    requires k <= |s|
    ensures Inserted(s + [y], k, x) == Inserted(s, k, x) + [y]
  {
  }

  // ----- what undoes what -----

  lemma {:induction false} WithoutInserted<T>(s: seq<T>, k: nat, x: T)
    requires k <= |s|
    ensures k < |Inserted(s, k, x)| && Without(Inserted(s, k, x), k) == s
  {
    var r := Inserted(s, k, x);
    assert r[..k] == s[..k] && r[k + 1..] == s[k..];
  }

  // ----- the operations -----

  lemma {:induction false} ItemsWithout(ts: seq<Tree>, k: nat)
    requires k < |ts|
    ensures Items(Without(ts, k)) == Without(Items(ts), k)
  {
  }

  lemma {:induction false} ItemsInserted(ts: seq<Tree>, k: nat, t: Tree)
    requires k <= |ts|
    ensures Items(Inserted(ts, k, t)) == Inserted(Items(ts), k, t.item)
  {
  }

  /** The tree without its `k`th child. */
  lemma {:induction false} CellsWithout(t: Tree, k: nat)
    requires Apart(t) && k < |t.kids|
    ensures var r := t.(kids := Without(t.kids, k));
            Apart(r) && Apart(t.kids[k]) && Cells(r) !! Cells(t.kids[k]) && Cells(t) == Cells(r) + Cells(t.kids[k])
  {
    hide ApartAll, CellsOf, Without;
    WithoutCells(t.kids, k);
    ItemOutside(t.kids, k, t);
  }

  lemma {:induction false} ItemOutside(ts: seq<Tree>, k: nat, t: Tree)
    requires k < |ts| && ts == t.kids && Apart(t)
    ensures t.item !in Cells(ts[k]) && (t.name != null ==> t.name !in Cells(ts[k]))
    ensures (t.str != null ==> t.str !in Cells(ts[k]))
  {
  }

  lemma {:induction false} ModelsWithout(ts: seq<Tree>, js: seq<Json>, k: nat)
    requires |ts| == |js| && k < |ts| && forall i | 0 <= i < |ts| :: Models(ts[i], js[i])
    ensures |Without(ts, k)| == |Without(js, k)|
    ensures forall i | 0 <= i < |Without(ts, k)| :: Models(Without(ts, k)[i], Without(js, k)[i])
  {
    hide Models;
  }

  /** The parts of an item that holds `j`, but for the links of its children. */
  ghost predicate Loose(t: Tree, j: Json)
    reads t.item`kind, t.item`isReference, t.item`valuestring, t.item`valueint, t.item`valuedouble
    reads t.item`stringIsConst, t.item`name, Cell(t.name), Inner(t)
  {
    && Fields(t.item, j) && t.item.valuestring == t.str && Holds(t.str, j.str)
    && !t.item.stringIsConst && t.item.name == t.name && Holds(t.name, j.key)
    && |t.kids| == |j.kids| && forall k | 0 <= k < |t.kids| :: Models(t.kids[k], j.kids[k])
  }

  lemma {:induction false} LooseLinked(t: Tree, j: Json)
    requires Loose(t, j) && ChildList(t.item.child, Items(t.kids))
    ensures Models(t, j)
  {
    hide ChildList, Holds, Fields;
  }

  lemma {:induction false} ModelsLoose(t: Tree, j: Json)
    requires Models(t, j)
    ensures Loose(t, j) && ChildList(t.item.child, Items(t.kids))
  {
    hide ChildList, Holds, Fields;
  }

  /** One child fewer keeps the rest. */
  lemma {:induction false} LooseWithout(t: Tree, j: Json, k: nat)
    requires Loose(t, j) && k < |t.kids|
    ensures |t.kids| == |j.kids| && Models(t.kids[k], j.kids[k])
    ensures Loose(t.(kids := Without(t.kids, k)), j.(kids := Without(j.kids, k)))
  {
    hide Models, Holds, Without;
    ModelsWithout(t.kids, j.kids, k);
  }

  /** `cJSON_DetachItemFromArray`. */
  method DetachItemFromArray(owner: Item?, which: int, ghost t: Tree, ghost j: Json)
    returns (item: Item?, ghost r: Tree)
    requires owner != null ==> t.item == owner && Models(t, j) && Apart(t)
    modifies Opt(owner)`child, Items(t.kids)`next, Items(t.kids)`prev
    ensures item != null <==> owner != null && 0 <= which < |t.kids|
    ensures owner != null ==> |t.kids| == |j.kids|
    ensures item != null ==>
              && r == t.(kids := Without(t.kids, which)) && Apart(r) && which < |j.kids|
              && Models(r, j.(kids := Without(j.kids, which)))
              && item == t.kids[which].item && Models(t.kids[which], j.kids[which]) && Apart(t.kids[which])
              && item.next == null && item.prev == null
              && Cells(r) !! Cells(t.kids[which]) && Cells(t) == Cells(r) + Cells(t.kids[which])
    ensures item == null && owner != null ==> r == t && Models(t, j)
  {
    hide Cells, Inner, CellsOf, Models, Body, Apart, ApartAll, ChildList, Without, CString;
    item, r := null, t;
    if owner == null {
      return;
    }
    BodyParts(t, j);
    if which < 0 {
      return;
    }
    Parts(t);
    assert allocated(Cells(t));
    item := GetArrayItem(owner, which, Items(t.kids));
    if item == null {
      return;
    }
    item, r := DetachChild(owner, item, which, t, j);
  }

  /** The child that is the `k`th is unlinked; whatever it and the others hold stays. */
  method DetachChild(owner: Item, child: Item, ghost k: nat, ghost t: Tree, ghost j: Json)
    returns (item: Item, ghost r: Tree)
    requires t.item == owner && Models(t, j) && Apart(t) && k < |t.kids| == |j.kids| && t.kids[k].item == child
    modifies owner`child, Items(t.kids)`next, Items(t.kids)`prev
    ensures item == child && item.next == null && item.prev == null && r == t.(kids := Without(t.kids, k))
    ensures Models(r, j.(kids := Without(j.kids, k))) && Models(t.kids[k], j.kids[k])
    ensures Apart(r) && Apart(t.kids[k]) && Cells(r) !! Cells(t.kids[k]) && Cells(t) == Cells(r) + Cells(t.kids[k])
  {
    hide Cells, Inner, CellsOf, Models, Apart, ApartAll, ChildList, Without, CString, Holds, Fields;
    ModelsLoose(t, j);
    FramedKids(t);
    assert allocated(Cells(t));
    item := DetachItemViaPointer(owner, child, Items(t.kids), k);
    LooseWithout(t, j, k);
    ItemsWithout(t.kids, k);
    CellsWithout(t, k);
    r := t.(kids := Without(t.kids, k));
    LooseLinked(r, j.(kids := Without(j.kids, k)));
  }

  /** The items whose links an edit of the children may set. */
  ghost function Links(t: Tree): set<Item> {
    {t.item} + set i | i in Items(t.kids)
  }

  /** Relinking the children changes none of the cells below them. */
  lemma {:induction false} FramedKids(t: Tree)
    requires Apart(t)
    ensures forall k {:trigger t.kids[k]} | 0 <= k < |t.kids| ::
              && Links(t) !! Inner(t.kids[k]) && t.item != t.kids[k].item
              && Inner(t.kids[k]) <= Cells(t) && Cell(t.kids[k].name) <= Cells(t)
    ensures t.item in Cells(t) && Cell(t.name) <= Cells(t) && Cell(t.str) <= Cells(t)
  {
    hide Cells, Inner, CellsOf, Apart, ApartAll;
    KidsApart(t);
    NameApart(t);
    ListApart(t.kids);
    Within(t.kids);
    Outside(t.item, t.kids);
    StrIn(t);
  }

  lemma {:induction false} StrIn(t: Tree)
    ensures Cell(t.str) <= Cells(t)
  {
  }

  /** The same for an item from elsewhere. */
  lemma {:induction false} FramedNew(t: Tree, it: Tree)
    requires Apart(t) && Apart(it) && Cells(t) !! Cells(it)
    ensures Links(t) !! Inner(it) && it.item !in Inner(it) && it.item !in Links(t)
    ensures forall k {:trigger t.kids[k]} | 0 <= k < |t.kids| :: it.item !in Inner(t.kids[k])
    ensures Inner(it) <= Cells(it) && Cell(it.name) <= Cells(it)
  {
    hide Cells, Inner, CellsOf, Apart, ApartAll;
    AttachApart(t, it);
    Parts(it);
  }

  /** The tree with one more child. */
  lemma {:induction false} CellsInserted(t: Tree, k: nat, it: Tree)
    requires Apart(t) && Apart(it) && Cells(t) !! Cells(it) && k <= |t.kids|
    ensures var r := t.(kids := Inserted(t.kids, k, it)); Apart(r) && Cells(r) == Cells(t) + Cells(it)
  {
    hide ApartAll, CellsOf, Inserted;
    InsertedCells(t.kids, k, it);
  }

  lemma {:induction false} ModelsInserted(ts: seq<Tree>, js: seq<Json>, k: nat, it: Tree, ij: Json)
    requires |ts| == |js| && k <= |ts| && Models(it, ij) && forall i | 0 <= i < |ts| :: Models(ts[i], js[i])
    ensures |Inserted(ts, k, it)| == |Inserted(js, k, ij)|
    ensures forall i | 0 <= i < |Inserted(ts, k, it)| :: Models(Inserted(ts, k, it)[i], Inserted(js, k, ij)[i])
  {
    hide Models;
  }

  /** One more child keeps the rest. */
  lemma {:induction false} LooseInserted(t: Tree, j: Json, k: nat, it: Tree, ij: Json)
    requires Loose(t, j) && k <= |t.kids| && Models(it, ij)
    ensures k <= |j.kids| && Loose(t.(kids := Inserted(t.kids, k, it)), j.(kids := Inserted(j.kids, k, ij)))
  {
    hide Models, Holds, Inserted;
    ModelsInserted(t.kids, j.kids, k, it, ij);
  }

  /** The links of the insertion, under which everything else stays. */
  method LinkIn(owner: Item, which: nat, newitem: Item, ghost t: Tree, ghost j: Json, ghost it: Tree, ghost ij: Json)
    requires t.item == owner && Models(t, j) && Apart(t)
    requires it.item == newitem && Models(it, ij) && Apart(it) && newitem.next == null && Cells(t) !! Cells(it)
    modifies owner`child, newitem`next, newitem`prev, Items(t.kids)`next, Items(t.kids)`prev
    ensures Loose(t, j) && Models(it, ij)
    ensures ChildList(owner.child, Inserted(Items(t.kids), if which < |t.kids| then which else |t.kids|, newitem))
  {
    hide Cells, Inner, CellsOf, Models, Apart, ApartAll, ChildList, Inserted, CString, Holds, Fields;
    ModelsLoose(t, j);
    FramedKids(t);
    FramedNew(t, it);
    assert allocated(Cells(t)) && allocated(Cells(it));
    var ok := InsertItemInArray(owner, which, newitem, Items(t.kids));
    assert forall i | 0 <= i < |t.kids| :: Models(t.kids[i], j.kids[i]);
  }

  /** `cJSON_InsertItemInArray`, with what the array and the item hold. */
  method InsertInArray(owner: Item, which: int, newitem: Item, ghost t: Tree, ghost j: Json, ghost it: Tree,
                       ghost ij: Json)
    returns (ok: bool, ghost r: Tree)
    requires t.item == owner && Models(t, j) && Apart(t)
    requires it.item == newitem && Models(it, ij) && Apart(it) && newitem.next == null && Cells(t) !! Cells(it)
    modifies owner`child, newitem`next, newitem`prev, Items(t.kids)`next, Items(t.kids)`prev
    ensures |t.kids| == |j.kids| && (ok <==> which >= 0)
    ensures ok ==>
              var k := if which < |t.kids| then which else |t.kids|;
              && r == t.(kids := Inserted(t.kids, k, it)) && Models(r, j.(kids := Inserted(j.kids, k, ij)))
              && Apart(r) && Cells(r) == Cells(t) + Cells(it)
    ensures !ok ==> r == t && Models(t, j) && Models(it, ij) && newitem.next == old(newitem.next)
  {
    hide Cells, Models, Apart, Loose, ChildList, Inserted;
    r, ok := t, which >= 0;
    ModelsLoose(t, j);
    LooseLength(t, j);
    if ok {
      ghost var k := if which < |t.kids| then which else |t.kids|;
      LinkIn(owner, which, newitem, t, j, it, ij);
      ItemsInserted(t.kids, k, it);
      CellsInserted(t, k, it);
      LooseInserted(t, j, k, it, ij);
      r := t.(kids := Inserted(t.kids, k, it));
      LooseLinked(r, j.(kids := Inserted(j.kids, k, ij)));
    }
  }

  lemma {:induction false} LooseLength(t: Tree, j: Json)
    requires Loose(t, j)
    ensures |t.kids| == |j.kids|
  {
  }

  /** `cJSON_DeleteItemFromArray`: the child is released, and no other cell. */
  method DeleteItemFromArray(heap: Allocator, owner: Item?, which: int, ghost t: Tree, ghost j: Json)
    returns (ghost r: Tree)
    requires owner != null ==> t.item == owner && Models(t, j) && Apart(t) && Cells(t) <= heap.live
    modifies Opt(owner)`child, Items(t.kids)`next, Items(t.kids)`prev, heap`live
    ensures owner != null && 0 <= which < |t.kids| ==>
              && |t.kids| == |j.kids| && r == t.(kids := Without(t.kids, which)) && Apart(r)
              && Models(r, j.(kids := Without(j.kids, which)))
              && Cells(r) !! Cells(t.kids[which]) && heap.live == old(heap.live) - Cells(t.kids[which])
    ensures owner == null || which < 0 || which >= |t.kids| ==> heap.live == old(heap.live)
    ensures owner != null && (which < 0 || which >= |t.kids|) ==> r == t && Models(t, j)
  {
    hide Cells, Inner, CellsOf, Models, Body, Apart, ApartAll, ChildList, Without, CString, Owned, Deletable;
    if owner != null {
      Parts(t);
    }
    assert allocated(Cells(t));
    var item;
    item, r := DetachItemFromArray(owner, which, t, j);
    if item != null {
      ModelsOwned(t.kids[which], j.kids[which]);
      SingleDeletable(t.kids[which]);
      Parts(r);
    }
    NothingDeletable();
    Delete(heap, item, if item == null then [] else [t.kids[which]]);
  }

  lemma {:induction false} ReplacedIs<T>(s: seq<T>, k: nat, x: T)
    requires k < |s|
    ensures |Without(s, k)| == |s| - 1 && s[k := x] == Inserted(Without(s, k), k, x)
  {
  }

  /** The tree with another child in the place of its `k`th. */
  lemma {:induction false} CellsReplaced(t: Tree, k: nat, it: Tree)
    requires Apart(t) && Apart(it) && Cells(t) !! Cells(it) && k < |t.kids|
    ensures var r := t.(kids := t.kids[k := it]); Apart(r) && Cells(r) == Cells(t) - Cells(t.kids[k]) + Cells(it)
  {
    hide Cells, Apart, Without, Inserted;
    var w := t.(kids := Without(t.kids, k));
    CellsWithout(t, k);
    ReplacedIs(t.kids, k, it);
    CellsInserted(w, k, it);
  }

  lemma {:induction false} LooseReplaced(t: Tree, j: Json, k: nat, it: Tree, ij: Json)
    requires Loose(t, j) && k < |t.kids| && Models(it, ij)
    ensures k < |j.kids| && Loose(t.(kids := t.kids[k := it]), j.(kids := j.kids[k := ij]))
  {
    hide Models, Holds;
  }

  lemma {:induction false} ItemsReplaced(ts: seq<Tree>, k: nat, it: Tree)
    requires k < |ts|
    ensures Items(ts[k := it]) == Items(ts)[k := it.item]
  {
  }

  /** What `cJSON_ReplaceItemViaPointer` asks of the list. */
  lemma {:induction false} ChildApart(t: Tree, k: nat)
    requires Apart(t) && k < |t.kids|
    ensures Apart(t.kids[k]) && Cells(t.kids[k]) <= Cells(t) && t.item !in Cells(t.kids[k])
    ensures forall i | 0 <= i < |t.kids| && i != k :: Items(t.kids)[i] !in Cells(t.kids[k])
  {
    hide Apart;
    CellsWithout(t, k);
    KidsApart(t);
    forall i | 0 <= i < |t.kids| && i != k ensures t.kids[i].item !in Cells(t.kids[k]) {
      ApartPair(t.kids, if i < k then i else k, if i < k then k else i);
    }
  }

  lemma {:induction false} KidsApart(t: Tree)
    requires Apart(t)
    ensures ApartAll(t.kids)
  {
  }

  /** The links of the replacement and the release of the old child. */
  method SwapIn(heap: Allocator, owner: Item, newitem: Item, ghost k: nat, child: Item, ghost t: Tree, ghost j: Json,
                ghost it: Tree, ghost ij: Json)
    requires t.item == owner && Models(t, j) && Apart(t) && Cells(t) <= heap.live
    requires it.item == newitem && Models(it, ij) && Apart(it) && Cells(t) !! Cells(it)
    requires k < |t.kids| && child == t.kids[k].item && Owned(t.kids[k]) && Apart(t.kids[k])
    requires Cells(t.kids[k]) <= Cells(t) && owner !in Cells(t.kids[k])
    requires forall i | 0 <= i < |t.kids| && i != k :: Items(t.kids)[i] !in Cells(t.kids[k])
    modifies owner`child, newitem`next, newitem`prev, Items(t.kids)`next, Items(t.kids)`prev, heap`live
    ensures Loose(t, j) && Models(it, ij) && ChildList(owner.child, Items(t.kids)[k := newitem])
    ensures heap.live == old(heap.live) - Cells(t.kids[k])
  {
    hide Cells, Inner, CellsOf, Models, Apart, ApartAll, ChildList, CString, Holds, Fields, Owned,
      Body, Owns, Items;
    ModelsLoose(t, j);
    FramedKids(t);
    FramedNew(t, it);
    assert allocated(Cells(t)) && allocated(Cells(it));
    var ok := ReplaceItemViaPointer(heap, owner, child, newitem, Items(t.kids), k, t.kids[k]);
    assert forall i | 0 <= i < |t.kids| :: Models(t.kids[i], j.kids[i]);
  }

  /** `cJSON_ReplaceItemInArray`, with what the array and the items hold. */
  method ReplaceItemInArray(heap: Allocator, owner: Item, which: int, newitem: Item, ghost t: Tree, ghost j: Json,
                            ghost it: Tree, ghost ij: Json)
    returns (ok: bool, ghost r: Tree)
    requires t.item == owner && Models(t, j) && Apart(t) && Cells(t) <= heap.live
    requires it.item == newitem && Models(it, ij) && Apart(it) && Cells(t) !! Cells(it)
    modifies owner`child, newitem`next, newitem`prev, Items(t.kids)`next, Items(t.kids)`prev, heap`live
    ensures |t.kids| == |j.kids| && (ok <==> 0 <= which < |t.kids|)
    ensures ok ==>
              && r == t.(kids := t.kids[which := it]) && Models(r, j.(kids := j.kids[which := ij]))
              && Apart(r) && Cells(r) == Cells(t) - Cells(t.kids[which]) + Cells(it)
              && heap.live == old(heap.live) - Cells(t.kids[which])
    ensures !ok ==> r == t && Models(t, j) && Models(it, ij)
    ensures !ok ==> newitem.next == old(newitem.next) && heap.live == old(heap.live)
  {
    hide Cells, Models, Apart, Loose, ChildList, Inner, CString, Owned;
    r, ok := t, false;
    ModelsLoose(t, j);
    LooseLength(t, j);
    if which < 0 {
      return;
    }
    Parts(t);
    Parts(it);
    assert allocated(Cells(t)) && allocated(Cells(it));
    var child := GetArrayItem(owner, which, Items(t.kids));
    if child == null {
      return;
    }
    ChildApart(t, which);
    BodyParts(t, j);
    ModelsOwned(t.kids[which], j.kids[which]);
    SwapIn(heap, owner, newitem, which, child, t, j, it, ij);
    ItemsReplaced(t.kids, which, it);
    CellsReplaced(t, which, it);
    LooseReplaced(t, j, which, it, ij);
    r, ok := t.(kids := t.kids[which := it]), true;
    LooseLinked(r, j.(kids := j.kids[which := ij]));
  }
}
