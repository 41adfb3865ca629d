/** `cJSON_Duplicate`: a copy in new cells. */
module HeapCopy {
  import opened Bytes
  import opened Json
  import opened Heap
  import opened HeapLists
  import opened HeapEdit

  /** `cJSON_strdup`: the C string copied with its NUL into a new cell. */
  method Strdup(heap: Allocator, s: array<byte>) returns (copy: array?<byte>)
    requires |CString(s[..])| < s.Length
    modifies heap`requests, heap`live
    ensures heap.requests == old(heap.requests) + 1
    ensures copy == null <==> heap.refuses(old(heap.requests))
    ensures heap.live == old(heap.live) + Cell(copy)
    ensures copy != null ==> fresh(copy) && Holds(copy, Some(CString(s[..])))
  {
    hide CString;
    ghost var text := CString(s[..]);
    var length := 0;
    CStringBytes(s[..]);
    while s[length] != NUL
      invariant length <= |text|
      decreases |text| - length
    {
      length := length + 1;
    }
    assert length == |text|;
    copy := heap.NewBytes(length + 1);
    if copy != null {
      forall i | 0 <= i <= length {
        copy[i] := s[i];
      }
      assert copy[..][..length] == s[..][..length] == text;
      CStringCut(text, copy[..]);
      CStringOfCString(text);
      assert s[..] == old(s[..]);
    }
  }

  /** A string field: NULL stays NULL. */
  method CopyText(heap: Allocator, s: array?<byte>, ghost text: Option<bytes>) returns (ok: bool, copy: array?<byte>)
    requires Holds(s, text)
    modifies heap`requests, heap`live
    ensures heap.requests >= old(heap.requests)
    ensures ok <==> !heap.RefusedSince(old(heap.requests))
    ensures heap.live == old(heap.live) + Cell(copy) && fresh(Cell(copy))
    ensures ok ==> Holds(copy, text)
  {
    hide CString;
    ok, copy := true, null;
    if s != null {
      copy := Strdup(heap, s);
      ok := copy != null;
    }
  }

  lemma {:induction false} CStringOfCString(text: bytes)
    requires NoNul(text)
    ensures CString(text) == text
  {
    CStringOfText(text, []);
    assert text + [] == text;
  }

  /** The fields, the text and the name of `item` go into the blank `copy`. */
  method CopyFields(heap: Allocator, copy: Item, item: Item, ghost t: Tree, ghost j: Json) returns (ok: bool)
    requires t.item == item && Models(t, j) && Cells(t) <= heap.live && copy.Zeroed() && copy !in Cells(t)
    modifies copy, heap`requests, heap`live
    ensures heap.requests >= old(heap.requests)
    ensures ok <==> !heap.RefusedSince(old(heap.requests))
    ensures !copy.isReference && !copy.stringIsConst && copy.child == null && copy.next == null && copy.prev == null
    ensures heap.live == old(heap.live) + Cell(copy.valuestring) + Cell(copy.name)
    ensures fresh(Cell(copy.valuestring) + Cell(copy.name))
    ensures copy.valuestring != null && copy.name != null ==> copy.valuestring != copy.name
    ensures ok ==> Fields(copy, j) && Holds(copy.valuestring, j.str) && Holds(copy.name, j.key)
  {
    hide Body, Models, Cells, Inner, CellsOf, CString, Holds, Refused;
    ModelsParts(t, j);
    Parts(t);
    NoneRefused(heap.refuses, heap.requests);
    copy.kind, copy.isReference := item.kind, false;
    copy.valueint, copy.valuedouble := item.valueint, item.valuedouble;
    var text, name;
    ok, text := CopyText(heap, item.valuestring, j.str);
    copy.valuestring := text;
    ghost var start := heap.requests;
    if ok {
      ok, name := CopyText(heap, item.name, j.key);
      copy.name := name;
      RefusedSplit(heap.refuses, old(heap.requests), start, heap.requests);
    }
  }

  /** The loop over the children: each is duplicated and linked in after those before it. */
  method CopyKids(heap: Allocator, copy: Item, item: Item, ghost t: Tree, ghost j: Json)
    returns (ok: bool, last: Item?, ghost ts: seq<Tree>)
    requires t.item == item && Models(t, j) && Cells(t) <= heap.live
    requires copy !in Cells(t) && copy.child == null && copy in heap.live
    modifies copy`child, heap`requests, heap`live
    ensures heap.requests >= old(heap.requests)
    ensures ok <==> !heap.RefusedSince(old(heap.requests))
    ensures Deletable(copy.child, ts) && fresh(CellsOf(ts)) && heap.live == old(heap.live) + CellsOf(ts)
    ensures ok ==> Building(copy.child, last, ts, j.kids)
    decreases t, 0
  {
    hide Building, Deletable, Cells, CellsOf, Inner, Models, Body;
    ChildIs(t, j);
    Parts(t);
    ghost var n := 0;
    var child := item.child;
    last, ts, ok := null, [], true;
    NothingBuilt();
    while child != null
      invariant n <= |t.kids| && child == (if n < |t.kids| then t.kids[n].item else null)
      invariant heap.requests >= old(heap.requests) && !heap.RefusedSince(old(heap.requests))
      invariant Models(t, j)
      invariant Building(copy.child, last, ts, j.kids[..n]) && fresh(CellsOf(ts))
      invariant heap.live == old(heap.live) + CellsOf(ts)
      decreases |t.kids| - n
    {
      KidModels(t, j, n);
      BuildingDeletable(copy.child, last, ts, j.kids[..n]);
      EndsIn(copy.child, last, ts, j.kids[..n]);
      ok, last, ts := CopyKid(heap, copy, last, child, t.kids[n], j.kids[n], ts, j.kids[..n]);
      if !ok {
        return;
      }
      assert j.kids[..n] + [j.kids[n]] == j.kids[..n + 1];
      child := child.next;
      n := n + 1;
    }
    BuildingDeletable(copy.child, last, ts, j.kids[..n]);
    assert j.kids[..n] == j.kids;
  }

  /** One turn of the loop. */
  method CopyKid(heap: Allocator, copy: Item, last: Item?, child: Item, ghost k: Tree, ghost j: Json,
                 ghost ts: seq<Tree>, ghost js: seq<Json>)
    returns (ok: bool, newLast: Item?, ghost ts': seq<Tree>)
    requires k.item == child && Models(k, j) && Cells(k) <= heap.live && copy in heap.live
    requires Building(copy.child, last, ts, js) && CellsOf(ts) <= heap.live && copy !in CellsOf(ts)
    modifies copy`child, Opt(last)`next, heap`requests, heap`live
    ensures heap.requests >= old(heap.requests)
    ensures ok <==> !heap.RefusedSince(old(heap.requests))
    ensures Deletable(copy.child, ts') && CellsOf(ts) <= CellsOf(ts') && fresh(CellsOf(ts') - CellsOf(ts))
    ensures heap.live == old(heap.live) + CellsOf(ts')
    ensures ok ==> Building(copy.child, newLast, ts', js + [j])
    decreases k, 4
  {
    hide Building, Deletable, Cells, CellsOf, Inner, Models, Body;
    newLast, ts' := last, ts;
    BuildingDeletable(copy.child, last, ts, js);
    Outside(heap, ts);
    Within(ts);
    var newchild;
    ghost var d;
    newchild, d := Duplicate(heap, child, true, k, j);
    ok := newchild != null;
    if !ok {
      return;
    }
    copy.child := AppendItem(heap, copy.child, last, newchild, d.value, j, ts, js);
    CellsSnoc(ts, d.value);
    newLast, ts' := newchild, ts + [d.value];
    BuildingDeletable(copy.child, newLast, ts', js + [j]);
  }

  /**
   `cJSON_Duplicate`: unless an allocation is refused, a detached copy in new cells that holds
   the same contents, without the children when not asked to recurse; the original is not
   touched.  When one is refused, everything allocated on the way has been released.
   */
  method Duplicate(heap: Allocator, item: Item?, recurse: bool, ghost t: Tree, ghost j: Json)
    returns (copy: Item?, ghost d: Option<Tree>)
    requires item != null ==> t.item == item && Models(t, j) && Cells(t) <= heap.live
    modifies heap`requests, heap`live
    ensures heap.requests >= old(heap.requests)
    ensures copy != null <==> item != null && !heap.RefusedSince(old(heap.requests))
    ensures copy != null ==>
              && d.Some? && d.value.item == copy && copy.next == null && copy.prev == null
              && Models(d.value, if recurse then j else j.(kids := [])) && Apart(d.value)
              && fresh(Cells(d.value)) && heap.live == old(heap.live) + Cells(d.value)
    ensures copy == null ==> heap.live == old(heap.live)
    decreases t, 3
  {
    hide Deletable, Building, Cells, CellsOf, Inner, Models, Body, Apart, ApartAll, Holds, Owned, CString;
    copy, d := null, None;
    if item == null {
      return;
    }
    copy := heap.NewItem();
    if copy == null {
      return;
    }
    Parts(t);
    var ok;
    ghost var c;
    ok, c := FillCopy(heap, copy, item, recurse, t, j);
    if !ok {
      SingleDeletable(c);
      Delete(heap, copy, [c]);
      copy := null;
      return;
    }
    d := Some(c);
  }

  /** What follows the creation of the copy: whatever the outcome, its cells can be released. */
  method FillCopy(heap: Allocator, copy: Item, item: Item, recurse: bool, ghost t: Tree, ghost j: Json)
    returns (ok: bool, ghost c: Tree)
    requires t.item == item && Models(t, j) && Cells(t) <= heap.live
    requires copy.Zeroed() && copy !in Cells(t) && copy in heap.live
    modifies copy, heap`requests, heap`live
    ensures heap.requests >= old(heap.requests)
    ensures ok <==> !heap.RefusedSince(old(heap.requests))
    ensures c.item == copy && Apart(c) && Owned(c) && copy.next == null && copy.prev == null
    ensures fresh(Cells(c) - {copy}) && heap.live == old(heap.live) + Cells(c)
    ensures ok ==> Models(c, if recurse then j else j.(kids := []))
    decreases t, 2
  {
    hide Deletable, Building, Cells, CellsOf, Inner, Models, Body, Apart, ApartAll, Holds, Owned, Fields, ChildList,
      Items, CString;
    Parts(t);
    ok := CopyFields(heap, copy, item, t, j);
    ghost var ts: seq<Tree> := [];
    NothingDeletable();
    if ok && recurse {
      ok, ts := CopyList(heap, copy, item, t, j);
    }
    c := Tree(copy, copy.valuestring, copy.name, ts);
    CopyCells(c);
    CopyOwned(c);
    if ok {
      KidsOrNot(copy, j, recurse);
      CopyModels(c, if recurse then j else j.(kids := []));
    }
  }

  /** The loop and the closing of the list it made. */
  method CopyList(heap: Allocator, copy: Item, item: Item, ghost t: Tree, ghost j: Json)
    returns (ok: bool, ghost ts: seq<Tree>)
    requires t.item == item && Models(t, j) && Cells(t) <= heap.live
    requires copy !in Cells(t) && copy.child == null && copy in heap.live
    modifies copy`child, heap`requests, heap`live
    ensures heap.requests >= old(heap.requests)
    ensures ok <==> !heap.RefusedSince(old(heap.requests))
    ensures Deletable(copy.child, ts) && fresh(CellsOf(ts)) && heap.live == old(heap.live) + CellsOf(ts)
    ensures ok ==> ChildList(copy.child, Items(ts)) && |ts| == |j.kids|
    ensures ok ==> forall k | 0 <= k < |ts| :: Models(ts[k], j.kids[k])
    decreases t, 1
  {
    hide Deletable, Building, Cells, CellsOf, Inner, Models, ChildList;
    var last;
    ok, last, ts := CopyKids(heap, copy, item, t, j);
    if ok {
      EndsIn(copy.child, last, ts, j.kids);
      CloseKids(copy.child, last, ts, j.kids);
    }
  }

  lemma {:induction false} KidsOrNot(copy: Item, j: Json, recurse: bool)
    ensures (if recurse then j else j.(kids := [])).kids == if recurse then j.kids else []
    ensures Fields(copy, j) ==> Fields(copy, if recurse then j else j.(kids := []))
  {
  }

  /** The end of the loop: the head points back to the last child. */
  method CloseKids(head: Item?, last: Item?, ghost ts: seq<Tree>, ghost js: seq<Json>)
    requires Building(head, last, ts, js)
    modifies Opt(head)`prev
    ensures ChildList(head, Items(ts)) && Deletable(head, ts) && |ts| == |js|
    ensures forall k | 0 <= k < |ts| :: Models(ts[k], js[k])
  {
    hide Cells, CellsOf, Models, ApartAll;
    HeadApart(head, last, ts, js);
    assert head != null ==> forall k | 0 <= k < |ts| :: head !in Cell(ts[k].name);
    if head != null {
      head.prev := last;
    }
    ListDeletable(head, ts, js);
  }

  lemma {:induction false} ListDeletable(head: Item?, ts: seq<Tree>, js: seq<Json>)
    requires NextChain(head, Items(ts)) && ApartAll(ts) && |ts| == |js|
    requires forall k | 0 <= k < |ts| :: Models(ts[k], js[k])
    ensures Deletable(head, ts)
  {
    hide NextChain, ApartAll, Models, Owned;
    forall k | 0 <= k < |ts| ensures Owned(ts[k]) {
      ModelsOwned(ts[k], js[k]);
    }
  }

  /** The cells of the copy, which are apart when its own are not among those of its children. */
  lemma {:induction false} CopyCells(c: Tree)
    ensures Cells(c) == {c.item} + Cell(c.str) + Cell(c.name) + CellsOf(c.kids)
    ensures (&& ApartAll(c.kids) && {c.item as object} !! Cell(c.str) + Cell(c.name) + CellsOf(c.kids)
             && Cell(c.str) + Cell(c.name) !! CellsOf(c.kids) && Cell(c.str) !! Cell(c.name)) ==> Apart(c)
  {
  }

  lemma {:induction false} CopyOwned(c: Tree)
    requires !c.item.isReference && !c.item.stringIsConst && c.item.valuestring == c.str && c.item.name == c.name
    requires Deletable(c.item.child, c.kids)
    ensures Owned(c) && ApartAll(c.kids)
  {
  }

  lemma {:induction false} CopyModels(c: Tree, j: Json)
    requires !c.item.stringIsConst && c.item.valuestring == c.str && c.item.name == c.name
    requires Fields(c.item, j) && Holds(c.str, j.str) && Holds(c.name, j.key)
    requires ChildList(c.item.child, Items(c.kids)) && |c.kids| == |j.kids|
    requires forall k | 0 <= k < |c.kids| :: Models(c.kids[k], j.kids[k])
    ensures Models(c, j)
  {
    hide Holds, ChildList;
  }
}
