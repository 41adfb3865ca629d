/** Editing the list of children of an array or object: add, insert, detach, replace. */
module HeapEdit {
  import opened Bytes
  import opened Json
  import opened Heap
  import opened HeapLists

  /** The children of `parent` are `items`, in this order. */
  ghost predicate Children(parent: Item, items: seq<Item>)
    reads parent`child, items`next, items`prev
  {
    ChildList(parent.child, items)
  }

  /** The links determine the sequence: one parent has one list of children. */
  lemma {:induction false} ChildrenUnique(parent: Item, a: seq<Item>, b: seq<Item>)
    requires Children(parent, a) && Children(parent, b)
    ensures a == b
  {
    SameChain(parent.child, a, b, 0);
  }

  lemma {:induction false} SameChain(head: Item?, a: seq<Item>, b: seq<Item>, k: nat)
    requires NextChain(head, a) && NextChain(head, b)
    requires k <= |a| && k <= |b| && a[..k] == b[..k]
    ensures a == b
    decreases |a| - k
  {
    if k < |a| && k < |b| {
      if k > 0 {
        assert a[..k][k - 1] == b[..k][k - 1];
        assert a[k - 1].next == a[k] && b[k - 1].next == b[k];
      }
      assert a[..k + 1] == b[..k + 1];
      SameChain(head, a, b, k + 1);
    } else if k > 0 {
      assert a[..k][k - 1] == b[..k][k - 1];
      assert a[k - 1].next == b[k - 1].next;
    }
  }

  /** `cJSON_AddItemToArray`: the item must be detached, as a new one is. */
  method AddItemToArray(list: Item?, item: Item?, ghost items: seq<Item>) returns (ok: bool)
    requires list != null ==> Children(list, items)
    requires item != null ==> item !in items && item.next == null
    modifies Opt(list)`child, Opt(item)`next, Opt(item)`prev, items`next, items`prev
    ensures ok <==> item != null && list != null && list != item
    ensures ok ==> Children(list, items + [item])
    ensures !ok && list != null ==> Children(list, items)
  {
    if item == null || list == null || list == item {
      return false;
    }
    var child := list.child;
    if child == null {
      list.child := item;
      item.prev := item;
      item.next := null;
    } else {
      if child.prev != null {
        child.prev.next := item;
        item.prev := child.prev;
        list.child.prev := item;
      }
    }
    ok := true;
  }

  /** `get_array_item`: the child at `index`, or NULL. */
  method GetArrayItem(list: Item?, index: nat, ghost items: seq<Item>) returns (item: Item?)
    requires list != null ==> Children(list, items)
    ensures item == if list != null && index < |items| then items[index] else null
  {
    if list == null {
      return null;
    }
    item := list.child;
    var i := index;
    while item != null && i > 0
      invariant 0 <= i <= index
      invariant item == (if index - i < |items| then items[index - i] else null)
      invariant item == null <==> index - i >= |items|
      decreases i
    {
      i := i - 1;
      item := item.next;
    }
  }

  /** The sequence without its `k`th element. */
  function Without<T>(s: seq<T>, k: nat): seq<T>
    requires k < |s|
  {
    s[..k] + s[k + 1..]
  }

  /** `cJSON_DetachItemViaPointer`; `k` says where among the children the item is. */
  method DetachItemViaPointer(parent: Item?, item: Item?, ghost items: seq<Item>, ghost k: nat) returns (r: Item?)
    requires parent != null && item != null ==> Children(parent, items) && k < |items| && items[k] == item
    modifies Opt(parent)`child, items`next, items`prev
    ensures r == if parent == null || item == null then null else item
    ensures r != null ==> Children(parent, Without(items, k)) && r.next == null && r.prev == null
  {
    hide Without;
    if parent == null || item == null {
      return null;
    }
    if item != parent.child {
      item.prev.next := item.next;
    }
    if item.next != null {
      item.next.prev := item.prev;
    }
    if item == parent.child {
      parent.child := item.next;
    } else if item.next == null {
      parent.child.prev := item.prev;
    }
    item.prev := null;
    item.next := null;
    r := item;
    ghost var w := Without(items, k);
    DistinctWithout(items, k);
  }

  lemma {:induction false} DistinctWithout(items: seq<Item>, k: nat)
    requires Distinct(items) && k < |items|
    ensures var w := Without(items, k);
            && Distinct(w) && |w| == |items| - 1
            && forall i {:trigger w[i]} | 0 <= i < |w| :: w[i] == if i < k then items[i] else items[i + 1]
  {
  }

  /** The sequence with `x` before its `k`th element. */
  function Inserted<T>(s: seq<T>, k: nat, x: T): seq<T>
    requires k <= |s|
  {
    s[..k] + [x] + s[k..]
  }

  /** Where everything is after an insertion, and after a detachment. */
  lemma {:induction false} EditedAt<T>(s: seq<T>, k: nat, x: T, i: nat)
    requires k <= |s|
    ensures |Inserted(s, k, x)| == |s| + 1
    ensures i <= |s| ==> Inserted(s, k, x)[i] == if i < k then s[i] else if i == k then x else s[i - 1]
    ensures k < |s| ==> |Without(s, k)| == |s| - 1
    ensures k < |s| && i < |s| - 1 ==> Without(s, k)[i] == if i < k then s[i] else s[i + 1]
  {
  }

  /** `cJSON_InsertItemInArray`: before the child at `which`, or at the end. */
  method InsertItemInArray(list: Item?, which: int, newitem: Item?, ghost items: seq<Item>) returns (ok: bool)
    requires list != null ==> Children(list, items)
    requires newitem != null ==> newitem !in items && newitem.next == null
    requires list != null && 0 <= which < |items| ==> newitem != null
    modifies Opt(list)`child, Opt(newitem)`next, Opt(newitem)`prev, items`next, items`prev
    ensures ok <==> which >= 0 && list != null && newitem != null && (which < |items| || list != newitem)
    ensures ok ==> Children(list, Inserted<Item>(items, if which < |items| then which else |items|, newitem))
    ensures !ok && list != null ==> Children(list, items)
  {
    hide Children, ChildList;
    assert newitem != null ==> Inserted<Item>(items, |items|, newitem) == items + [newitem];
    if which < 0 {
      return false;
    }
    var afterInserted := GetArrayItem(list, which, items);
    if afterInserted == null {
      ok := AddItemToArray(list, newitem, items);
      return;
    }
    InsertBefore(list, afterInserted, newitem, items, which);
    ok := true;
  }

  /** The links of the insertion itself. */
  method InsertBefore(list: Item, afterInserted: Item, newitem: Item, ghost items: seq<Item>, ghost k: nat)
    requires Children(list, items) && k < |items| && items[k] == afterInserted && newitem !in items
    modifies list`child, newitem`next, newitem`prev, items`next, items`prev
    ensures Children(list, Inserted(items, k, newitem))
  {
    hide Inserted;
    newitem.next := afterInserted;
    newitem.prev := afterInserted.prev;
    afterInserted.prev := newitem;
    if afterInserted == list.child {
      list.child := newitem;
    } else {
      newitem.prev.next := newitem;
    }
    ghost var r := Inserted(items, k, newitem);
    DistinctInserted(items, k, newitem);
  }

  lemma {:induction false} DistinctInserted(items: seq<Item>, k: nat, x: Item)
    requires Distinct(items) && x !in items && k <= |items|
    ensures var r := Inserted(items, k, x);
            && Distinct(r) && |r| == |items| + 1
            && forall i {:trigger r[i]} | 0 <= i < |r| ::
                 r[i] == if i < k then items[i] else if i == k then x else items[i - 1]
  {
  }

  lemma {:induction false} DistinctReplaced(items: seq<Item>, k: nat, x: Item)
    requires Distinct(items) && x !in items && k < |items|
    ensures Distinct(items[k := x])
  {
  }

  /**
   `cJSON_ReplaceItemViaPointer`: the replacement takes the place of the `k`th child, whose
   cells, those of `t`, are released.
   */
  method ReplaceItemViaPointer(heap: Allocator, parent: Item?, item: Item?, replacement: Item?,
                               ghost items: seq<Item>, ghost k: nat, ghost t: Tree)
    returns (ok: bool)
    requires parent != null ==> Children(parent, items)
    requires parent != null && item != null ==>
               && k < |items| && items[k] == item && t.item == item && Owned(t) && Apart(t) && Cells(t) <= heap.live
               && (forall i | 0 <= i < |items| && i != k :: items[i] !in Cells(t)) && parent !in Cells(t)
    requires replacement != null && replacement != item ==> replacement !in items && replacement !in Cells(t)
    modifies Opt(parent)`child, Opt(replacement)`next, Opt(replacement)`prev, items`next, items`prev, heap`live
    ensures ok <==> parent != null && item != null && replacement != null
    ensures ok ==> Children(parent, items[k := replacement])
    ensures heap.live == if ok && replacement != item then old(heap.live) - Cells(t) else old(heap.live)
    ensures !ok && parent != null ==> Children(parent, items)
  {
    hide Children, ChildList, Cells, Apart, Owned, Distinct, CellsOf;
    if parent == null || replacement == null || item == null {
      return false;
    }
    if replacement == item {
      assert items[k := replacement] == items;
      return true;
    }
    ApartItem(t);
    SwapLinks(parent, item, replacement, items, k);
    assert Owned(t);
    SingleDeletable(t);
    Delete(heap, item, [t]);
    ok := true;
  }

  lemma {:induction false} ApartItem(t: Tree)
    requires Apart(t)
    ensures t.item !in Inner(t) && t.item !in CellsOf(t.kids) && Inner(t) <= Cells(t) && CellsOf(t.kids) <= Cells(t)
  {
  }

  lemma {:induction false} SingleDeletable(t: Tree)
    requires Owned(t) && Apart(t) && t.item.next == null
    ensures Deletable(t.item, [t]) && CellsOf([t]) == Cells(t)
  {
    hide Owned, Apart, ApartAll, Cells, CellsOf, Items;
    Single(t);
  }

  /** What stands before and after a child. */
  lemma {:induction false} Neighbours(parent: Item, items: seq<Item>, k: nat)
    requires Children(parent, items) && k < |items|
    ensures items[k].next == if k + 1 < |items| then items[k + 1] else null
    ensures items[k].prev == if k > 0 then items[k - 1] else items[|items| - 1]
    ensures parent.child == items[0] && items[0].prev == items[|items| - 1]
    ensures parent.child == items[k] <==> k == 0
    ensures items[|items| - 1] == items[0] <==> |items| == 1
    ensures Alone(items, k) && Alone(items, 0) && Alone(items, |items| - 1)
    ensures (k > 0 ==> Alone(items, k - 1)) && (k + 1 < |items| ==> Alone(items, k + 1))
  {
  }

  /** No other child is the `k`th. */
  ghost predicate Alone(items: seq<Item>, k: nat) {
    k < |items| && forall i {:trigger items[i]} | 0 <= i < |items| && i != k :: items[i] != items[k]
  }

  /** The links of the replacement itself; the replaced item points nowhere afterwards. */
  method SwapLinks(parent: Item, item: Item, replacement: Item, ghost items: seq<Item>, ghost k: nat)
    requires Children(parent, items) && k < |items| && items[k] == item && replacement !in items
    modifies parent`child, replacement`next, replacement`prev, items`next, items`prev
    ensures Children(parent, items[k := replacement]) && item.next == null && item.prev == null
  {
    hide Distinct;
    Neighbours(parent, items, k);
    replacement.next := item.next;
    replacement.prev := item.prev;
    if replacement.next != null {
      replacement.next.prev := replacement;
    }
    if parent.child == item {
      if parent.child.prev == parent.child {
        replacement.prev := replacement;
      }
      parent.child := replacement;
    } else {
      if replacement.prev != null {
        replacement.prev.next := replacement;
      }
      if replacement.next == null {
        parent.child.prev := replacement;
      }
    }
    item.next := null;
    item.prev := null;
    DistinctReplaced(items, k, replacement);
  }
}
