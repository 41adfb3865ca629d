/** Lists of siblings under construction, as the parser and `cJSON_Duplicate` build them. */
module HeapLists {
  import opened Bytes
  import opened Json
  import opened Heap

  /** The item a pointer names, if any. */
  ghost function Opt(item: Item?): set<Item> {
    if item == null then {} else {item}
  }

  /** A list whose head does not yet point back to its tail. */
  ghost predicate OpenList(head: Item?, last: Item?, items: seq<Item>)
    reads items`next, items`prev
  {
    && Distinct(items) && NextChain(head, items) && PrevChain(items)
    && last == (if items == [] then null else items[|items| - 1])
  }

  /** Adds `item` at the end, starting the list if it is the first. */
  method LinkLast(head: Item?, last: Item?, item: Item, ghost items: seq<Item>) returns (first: Item)
    requires OpenList(head, last, items) && item !in items && item.next == null
    modifies Opt(last)`next, item`prev
    ensures OpenList(first, item, items + [item])
  {
    if head == null {
      first := item;
    } else {
      last.next := item;
      item.prev := last;
      first := head;
    }
  }

  /** A list under construction whose items all hold their contents. */
  ghost predicate Building(head: Item?, last: Item?, ts: seq<Tree>, js: seq<Json>)
    reads CellsOf(ts)
  {
    && OpenList(head, last, Items(ts)) && ApartAll(ts) && |ts| == |js|
    && forall k | 0 <= k < |ts| :: Models(ts[k], js[k])
  }

  lemma {:induction false} NothingBuilt()
    ensures Building(null, null, [], []) && CellsOf([]) == {}
  {
  }

  /** Its ends are among its cells. */
  lemma {:induction false} EndsIn(head: Item?, last: Item?, ts: seq<Tree>, js: seq<Json>)
    requires Building(head, last, ts, js)
    ensures Opt(head) <= CellsOf(ts) && Opt(last) <= CellsOf(ts)
  {
    Within(ts);
  }

  lemma {:induction false} BuildingDeletable(head: Item?, last: Item?, ts: seq<Tree>, js: seq<Json>)
    requires Building(head, last, ts, js)
    ensures Deletable(head, ts)
  {
    forall k | 0 <= k < |ts| ensures Owned(ts[k]) {
      ModelsOwned(ts[k], js[k]);
    }
  }

  /** A list under construction whose last item is still to be filled. */
  ghost predicate Pending(head: Item?, item: Item, ts: seq<Tree>, js: seq<Json>)
    reads CellsOf(ts), item`next, item`prev
  {
    && OpenList(head, item, Items(ts) + [item]) && ApartAll(ts) && item !in CellsOf(ts) && |ts| == |js|
    && forall k | 0 <= k < |ts| :: Models(ts[k], js[k])
  }

  /** The last item is no cell of the trees before it, nor one of its own inner cells. */
  lemma {:induction false} LastApart(ts: seq<Tree>)
    requires ApartAll(ts) && ts != []
    ensures ts[|ts| - 1].item !in Inner(ts[|ts| - 1])
    ensures ts[|ts| - 1].item !in CellsOf(ts[|ts| - 1].kids)
    ensures forall k | 0 <= k < |ts| - 1 ::
              ts[|ts| - 1].item !in Inner(ts[k]) && ts[|ts| - 1].item !in CellsOf(ts[k].kids)
  {
    ApartEach(ts, |ts| - 1);
    Outside(ts[|ts| - 1].item, ts[..|ts| - 1]);
    assert forall k {:trigger ts[k]} | 0 <= k < |ts| - 1 :: ts[k] == ts[..|ts| - 1][k];
  }

  /** Allocates the next item and links it in. */
  method AddItem(heap: Allocator, head: Item?, last: Item?, ghost ts: seq<Tree>, ghost js: seq<Json>)
    returns (first: Item?, item: Item?)
    requires Building(head, last, ts, js) && CellsOf(ts) <= heap.live
    modifies heap`requests, heap`live, Opt(last)`next
    ensures heap.requests == old(heap.requests) + 1
    ensures item == null <==> heap.refuses(old(heap.requests))
    ensures item == null ==> heap.live == old(heap.live) && first == head && Building(head, last, ts, js)
    ensures item != null ==>
              && fresh(item) && Pending(first, item, ts, js) && item.Unfilled() && item.name == null
              && heap.live == old(heap.live) + {item}
  {
    hide Owned, Apart, ApartAll, Cells, CellsOf, Inner, Models, Body, Distinct, NextChain, PrevChain, CString;
    Outside(heap, ts);
    Within(ts);
    if ts != [] {
      LastApart(ts);
    }
    EndsIn(head, last, ts, js);
    item := heap.NewItem();
    if item == null {
      first := head;
      return;
    }
    first := LinkLast(head, last, item, Items(ts));
  }

  /** The pending item is filled: one more item holds its contents. */
  lemma {:induction false} Filled(head: Item?, t: Tree, j: Json, ts: seq<Tree>, js: seq<Json>)
    requires Pending(head, t.item, ts, js) && Models(t, j) && Apart(t) && Cells(t) !! CellsOf(ts)
    ensures Building(head, t.item, ts + [t], js + [j])
  {
    hide Apart, ApartAll, Cells, Inner, CellsOf, Models, Distinct, NextChain, PrevChain;
    CellsSnoc(ts, t);
    forall k | 0 <= k < |ts + [t]| ensures Models((ts + [t])[k], (js + [j])[k]) {
      if k == |ts| {
        assert (ts + [t])[k] == t && (js + [j])[k] == j;
      }
    }
  }

  /** The pending item could not be filled: the list with it can still be released. */
  lemma {:induction false} Abandoned(head: Item?, t: Tree, ts: seq<Tree>, js: seq<Json>)
    requires Pending(head, t.item, ts, js) && Owned(t) && Apart(t) && Cells(t) !! CellsOf(ts)
    ensures Deletable(head, ts + [t])
  {
    hide Apart, ApartAll, Cells, Inner, CellsOf, Owned, Models, Distinct, NextChain, PrevChain;
    CellsSnoc(ts, t);
    forall k | 0 <= k < |ts + [t]| ensures Owned((ts + [t])[k]) {
      if k < |ts| {
        ModelsOwned(ts[k], js[k]);
      }
    }
  }

  /** The same for an item that is still blank. */
  lemma {:induction false} AbandonedBlank(head: Item?, item: Item, ts: seq<Tree>, js: seq<Json>)
    requires Pending(head, item, ts, js) && item.Unfilled() && item.name == null
    ensures var t := Tree(item, null, null, []);
            Deletable(head, ts + [t]) && CellsOf(ts + [t]) == CellsOf(ts) + {item}
  {
    hide Pending, Deletable, CellsOf, ApartAll;
    var t := Tree(item, null, null, []);
    CellsOfUnnamed(t);
    BlankOwned(t);
    PendingOutside(head, item, ts, js);
    Abandoned(head, t, ts, js);
    CellsSnoc(ts, t);
  }

  lemma {:induction false} PendingOutside(head: Item?, item: Item, ts: seq<Tree>, js: seq<Json>)
    requires Pending(head, item, ts, js)
    ensures item !in CellsOf(ts)
  {
  }

  lemma {:induction false} BlankOwned(t: Tree)
    requires t == Tree(t.item, null, null, []) && t.item.Unfilled() && t.item.name == null
    ensures Owned(t)
  {
  }

  /** An item without a name is filled. */
  lemma {:induction false} FilledUnnamed(head: Item?, t: Tree, j: Json, ts: seq<Tree>, js: seq<Json>)
    requires Pending(head, t.item, ts, js) && Body(t, j) && Apart(t) && Inner(t) !! CellsOf(ts)
    requires t.name == null && j.key == None && t.item.name == null && !t.item.stringIsConst
    ensures Building(head, t.item, ts + [t], js + [j]) && Deletable(head, ts + [t])
    ensures CellsOf(ts + [t]) == CellsOf(ts) + {t.item} + Inner(t)
  {
    hide Pending, Building, Deletable, CellsOf, Cells, Inner, ApartAll, Body, Apart;
    CellsOfUnnamed(t);
    PendingOutside(head, t.item, ts, js);
    Filled(head, t, j, ts, js);
    BuildingDeletable(head, t.item, ts + [t], js + [j]);
    CellsSnoc(ts, t);
  }

  /** A whole item is linked in at the end. */
  method AppendItem(heap: Allocator, head: Item?, last: Item?, item: Item, ghost t: Tree, ghost j: Json,
                    ghost ts: seq<Tree>, ghost js: seq<Json>)
    returns (first: Item)
    requires Building(head, last, ts, js) && t.item == item && Models(t, j) && Apart(t) && item.next == null
    requires Cells(t) !! CellsOf(ts) && CellsOf(ts) + Cells(t) <= heap.live
    modifies Opt(last)`next, item`prev
    ensures Building(first, item, ts + [t], js + [j])
  {
    hide Owned, Apart, ApartAll, Cells, CellsOf, Inner, Models, Body, Distinct, NextChain, PrevChain;
    CellsSnoc(ts, t);
    Within(ts);
    Outside(item, ts);
    OwnItem(t);
    EndsIn(head, last, ts, js);
    if ts != [] {
      LastApart(ts);
    }
    first := LinkLast(head, last, item, Items(ts));
    assert Models(t, j);
    assert forall k | 0 <= k < |ts| :: Models(ts[k], js[k]);
    SnocModels(ts, t, js, j);
  }

  lemma {:induction false} OwnItem(t: Tree)
    requires Apart(t)
    ensures t.item !in Inner(t) && Inner(t) <= Cells(t) && Cell(t.name) <= Cells(t) && t.item in Cells(t)
  {
  }

  lemma {:induction false} SnocModels(ts: seq<Tree>, t: Tree, js: seq<Json>, j: Json)
    requires |ts| == |js| && Models(t, j) && forall k | 0 <= k < |ts| :: Models(ts[k], js[k])
    ensures forall k | 0 <= k < |ts + [t]| :: Models((ts + [t])[k], (js + [j])[k])
  {
    hide Models;
  }

  /** The cells of a named item. */
  lemma {:induction false} CellsOfNamed(t: Tree)
    requires t.name != null
    ensures Cells(t) == {t.item, t.name} + Inner(t)
    ensures t.str == null && t.kids == [] ==> Inner(t) == {} && Apart(t)
  {
  }

  /** An item that has got its name but no value. */
  lemma {:induction false} AbandonedNamed(head: Item?, t: Tree, ts: seq<Tree>, js: seq<Json>)
    requires Pending(head, t.item, ts, js) && t.item.Unfilled() && t == Tree(t.item, null, t.item.name, [])
    requires t.name != null && t.name !in CellsOf(ts)
    ensures Deletable(head, ts + [t]) && CellsOf(ts + [t]) == CellsOf(ts) + {t.item, t.name}
  {
    hide Pending, Deletable, CellsOf, ApartAll, Owned;
    CellsOfNamed(t);
    NamedOwned(t);
    PendingOutside(head, t.item, ts, js);
    Abandoned(head, t, ts, js);
    CellsSnoc(ts, t);
  }

  lemma {:induction false} NamedOwned(t: Tree)
    requires t == Tree(t.item, null, t.item.name, []) && t.item.Unfilled()
    ensures Owned(t)
  {
  }

  /** A named item is filled. */
  lemma {:induction false} FilledNamed(head: Item?, t: Tree, j: Json, key: bytes, ts: seq<Tree>, js: seq<Json>)
    requires Pending(head, t.item, ts, js) && Body(t, j) && Apart(t) && Inner(t) !! CellsOf(ts)
    requires t.name != null && t.item.name == t.name && !t.item.stringIsConst && t.name !in CellsOf(ts)
    requires Holds(t.name, Some(key))
    ensures Building(head, t.item, ts + [t], js + [Named(j, key)]) && Deletable(head, ts + [t])
    ensures CellsOf(ts + [t]) == CellsOf(ts) + {t.item, t.name} + Inner(t)
  {
    hide Pending, Building, Deletable, CellsOf, Cells, Inner, ApartAll, Apart, Holds, ChildList;
    CellsOfNamed(t);
    PendingOutside(head, t.item, ts, js);
    NamedModels(t, j, key);
    Filled(head, t, Named(j, key), ts, js);
    BuildingDeletable(head, t.item, ts + [t], js + [Named(j, key)]);
    CellsSnoc(ts, t);
  }

  lemma {:induction false} NamedModels(t: Tree, j: Json, key: bytes)
    requires Body(t, j) && t.item.name == t.name && !t.item.stringIsConst && Holds(t.name, Some(key))
    ensures Models(t, Named(j, key))
  {
    hide ChildList, Holds;
  }

  /** The end of `parse_array` and `parse_object`: the list is closed and becomes the children of `item`. */
  method FinishList(item: Item, kind: Kind, head: Item?, last: Item?, ghost ts: seq<Tree>, ghost js: seq<Json>)
    returns (ghost t: Tree)
    requires Building(head, last, ts, js) && item.Unfilled()
    requires item !in CellsOf(ts) && (item.name != null ==> item.name !in CellsOf(ts))
    modifies Opt(head)`prev, item`kind, item`child
    ensures t.item == item && t.name == item.name && Inner(t) == CellsOf(ts) && Apart(t)
    ensures Body(t, Blank(kind).(kids := js)) && !item.stringIsConst
  {
    hide Cells, CellsOf, Models, ApartAll;
    Outside(item, ts);
    HeadApart(head, last, ts, js);
    if head != null {
      head.prev := last;
    }
    item.kind := kind;
    item.child := head;
    t := Tree(item, null, item.name, ts);
    ListCells(t);
  }

  lemma {:induction false} ListCells(t: Tree)
    requires t.str == null
    ensures Inner(t) == CellsOf(t.kids)
    ensures Apart(t) <==>
              t.item !in CellsOf(t.kids) && (t.name != null ==> t.name !in CellsOf(t.kids)) && ApartAll(t.kids)
  {
  }

  /** The head is an inner cell of no tree. */
  lemma {:induction false} HeadApart(head: Item?, last: Item?, ts: seq<Tree>, js: seq<Json>)
    requires Building(head, last, ts, js)
    ensures head != null ==>
              forall k {:trigger ts[k]} | 0 <= k < |ts| :: head !in Inner(ts[k]) && head !in CellsOf(ts[k].kids)
  {
    forall k | 0 <= k < |ts| && head != null ensures head !in Inner(ts[k]) && head !in CellsOf(ts[k].kids) {
      if k == 0 {
        ApartEach(ts, 0);
      } else {
        ApartPair(ts, 0, k);
      }
    }
  }

  /** NULL is a list without items. */
  lemma {:induction false} NothingDeletable()
    ensures Deletable(null, []) && ChildList(null, Items([])) && CellsOf([]) == {}
  {
  }
}
