/**
 cJSON items in memory: the linked nodes, the allocator with its ledger of live cells, and
 the ghost trees that say which cells make up an item and everything below it.
 */
module Heap {
  import opened Bytes
  import opened Json

  /** struct cJSON; the two flag bits of `type` are separate fields and `string` is `name`. */
  class Item {
    var next: Item?
    var prev: Item?
    var child: Item?
    var kind: Kind
    var isReference: bool
    var stringIsConst: bool
    var valuestring: array?<byte>
    var valueint: int
    var valuedouble: real
    var name: array?<byte>

    constructor ()
      ensures Zeroed()
    {
      next, prev, child := null, null, null;
      kind, isReference, stringIsConst := Invalid, false, false;
      valuestring, valueint, valuedouble, name := null, 0, 0.0, null;
    }

    ghost predicate Zeroed()
      reads this
    {
      next == null && prev == null && name == null && kind == Invalid && Unfilled()
    }

    /** As `cJSON_New_Item` leaves it, except for its links, its name and its kind. */
    ghost predicate Unfilled()
      reads this`child, this`isReference, this`stringIsConst, this`valuestring, this`valueint, this`valuedouble
    {
      child == null && !isReference && !stringIsConst && valuestring == null &&
      valueint == 0 && valuedouble == 0.0
    }
  }

  ghost predicate Refused(refuses: nat -> bool, from: nat, to: nat) {
    exists k | from <= k < to :: refuses(k)
  }

  lemma {:induction false} NoneRefused(refuses: nat -> bool, n: nat)
    ensures !Refused(refuses, n, n)
  {
  }

  lemma {:induction false} RefusedSplit(refuses: nat -> bool, a: nat, b: nat, c: nat)
    requires a <= b <= c
    ensures Refused(refuses, a, c) <==> Refused(refuses, a, b) || Refused(refuses, b, c)
  {
  }

  /**
   The allocation hooks.  Any request may be refused, as `refuses` says of the running number
   of requests.  `live` is the ledger: the cells allocated and not yet released.
   */
  class Allocator {
    const refuses: nat -> bool
    var requests: nat
    ghost var live: set<object>

    constructor (refuses: nat -> bool)
      ensures this.refuses == refuses && requests == 0 && live == {}
    {
      this.refuses := refuses;
      requests := 0;
      live := {};
    }

    /** Some request since the one numbered `from` was refused. */
    ghost predicate RefusedSince(from: nat)
      reads this`requests
    {
      Refused(refuses, from, requests)
    }

    method NewItem() returns (item: Item?)
      modifies this`requests, this`live
      ensures requests == old(requests) + 1
      ensures item == null <==> refuses(old(requests))
      ensures item == null ==> live == old(live)
      ensures item != null ==> fresh(item) && item.Zeroed() && live == old(live) + {item}
    {
      requests := requests + 1;
      if refuses(requests - 1) {
        item := null;
      } else {
        item := new Item();
        live := live + {item};
      }
    }

    method NewBytes(size: nat) returns (a: array?<byte>)
      modifies this`requests, this`live
      ensures requests == old(requests) + 1
      ensures a == null <==> refuses(old(requests))
      ensures a == null ==> live == old(live)
      ensures a != null ==> fresh(a) && a.Length == size && live == old(live) + {a}
    {
      requests := requests + 1;
      if refuses(requests - 1) {
        a := null;
      } else {
        a := new byte[size];
        live := live + {a};
      }
    }

    /** `realloc`: the bytes that fit move to a new cell and the old one goes; refused, it stays. */
    method Reallocate(a: array<byte>, size: nat) returns (b: array?<byte>)
      requires a in live
      modifies this`requests, this`live
      ensures requests == old(requests) + 1
      ensures b == null <==> refuses(old(requests))
      ensures b == null ==> live == old(live)
      ensures b != null ==> fresh(b) && b.Length == size && live == old(live) - {a} + {b}
      ensures b != null ==> forall k | 0 <= k < a.Length && k < size :: b[k] == a[k]
    {
      b := NewBytes(size);
      if b != null {
        forall k | 0 <= k < a.Length && k < size {
          b[k] := a[k];
        }
        live := live - {a};
      }
    }

    /** A cell is released once: it must still be live. */
    method Deallocate(cell: object)
      requires cell in live
      modifies this`live
      ensures live == old(live) - {cell}
    {
      live := live - {cell};
    }
  }

  // ----- which cells belong to an item -----

  /** An item with the cells it owns: its text, its name, its children. */
  datatype Tree = Tree(item: Item, str: array?<byte>, name: array?<byte>, kids: seq<Tree>)

  ghost function Cell(a: array?<byte>): set<object> {
    if a == null then {} else {a}
  }

  /** Cells are items and byte buffers. */
  ghost predicate IsCell(o: object) {
    o is Item || o is array<byte>
  }

  ghost function Cells(t: Tree): (r: set<object>)
    ensures t.item in r && Inner(t) <= r && CellsOf(t.kids) <= r
    ensures forall o | o in r :: IsCell(o)
    decreases t, 1
  {
    {t.item} + Cell(t.name) + Inner(t)
  }

  /** The cells below an item: its text and its children, not its name. */
  ghost function Inner(t: Tree): (r: set<object>)
    ensures forall o | o in r :: IsCell(o)
    decreases t, 0
  {
    Cell(t.str) + CellsOf(t.kids)
  }

  ghost function CellsOf(ts: seq<Tree>): (r: set<object>)
    ensures forall k {:trigger ts[k]} | 0 <= k < |ts| :: Cells(ts[k]) <= r && ts[k].item in r
    ensures forall o | o in r :: IsCell(o)
    decreases ts
  {
    if ts == [] then {}
    else
      assert forall k {:trigger ts[k]} | 0 <= k < |ts| - 1 :: ts[k] == ts[..|ts| - 1][k];
      CellsOf(ts[..|ts| - 1]) + Cells(ts[|ts| - 1])
  }

  ghost function Items(ts: seq<Tree>): (r: seq<Item>)
    ensures |r| == |ts|
    ensures forall k | 0 <= k < |ts| :: r[k] == ts[k].item
  {
    seq(|ts|, k requires 0 <= k < |ts| => ts[k].item)
  }

  /** No cell occurs twice. */
  ghost predicate Apart(t: Tree)
    decreases t
  {
    && t.item !in Inner(t)
    && (t.name != null ==> t.name !in Inner(t))
    && (t.str != null ==> t.str !in CellsOf(t.kids))
    && ApartAll(t.kids)
  }

  ghost predicate ApartAll(ts: seq<Tree>)
    decreases ts
  {
    ts == [] ||
    (ApartAll(ts[..|ts| - 1]) && Apart(ts[|ts| - 1]) && CellsOf(ts[..|ts| - 1]) !! Cells(ts[|ts| - 1]))
  }

  /** The cells of an item without a name; those of one without a text, name or children. */
  lemma {:induction false} CellsOfUnnamed(t: Tree)
    requires t.name == null
    ensures Cells(t) == {t.item} + Inner(t)
    ensures t.str == null && t.kids == [] ==> Inner(t) == {} && Apart(t)
  {
  }

  lemma {:induction false} CellsSnoc(ts: seq<Tree>, t: Tree)
    ensures CellsOf(ts + [t]) == CellsOf(ts) + Cells(t)
    ensures ApartAll(ts + [t]) <==> ApartAll(ts) && Apart(t) && CellsOf(ts) !! Cells(t)
    ensures Items(ts + [t]) == Items(ts) + [t.item]
  {
    assert (ts + [t])[..|ts|] == ts;
  }

  lemma {:induction false} Single(t: Tree)
    ensures CellsOf([t]) == Cells(t) && (ApartAll([t]) <==> Apart(t)) && Items([t]) == [t.item]
  {
    hide Cells, Apart;
    CellsSnoc([], t);
    assert [] + [t] == [t];
  }

  lemma {:induction false} ApartPair(ts: seq<Tree>, i: nat, k: nat)
    requires ApartAll(ts) && i < k < |ts|
    ensures Cells(ts[i]) !! Cells(ts[k])
    ensures Apart(ts[i]) && Apart(ts[k])
  {
    if k < |ts| - 1 {
      ApartPair(ts[..|ts| - 1], i, k);
    } else {
      assert ts[..|ts| - 1][i] == ts[i];
      ApartEach(ts, i);
    }
  }

  lemma {:induction false} ApartEach(ts: seq<Tree>, k: nat)
    requires ApartAll(ts) && k < |ts|
    ensures Apart(ts[k])
  {
    if k < |ts| - 1 {
      ApartEach(ts[..|ts| - 1], k);
    }
  }

  /** The cells of each tree are among those of all. */
  lemma {:induction false} Within(ts: seq<Tree>)
    ensures forall k {:trigger ts[k]} | 0 <= k < |ts| ::
              && ts[k].item in CellsOf(ts) && Inner(ts[k]) <= CellsOf(ts) && Cell(ts[k].name) <= CellsOf(ts)
              && CellsOf(ts[k].kids) <= CellsOf(ts)
  {
    forall k | 0 <= k < |ts| ensures Cells(ts[k]) <= CellsOf(ts) {
    }
  }

  /** An object that is no cell of the trees is outside each of them. */
  lemma {:induction false} Outside(o: object, ts: seq<Tree>)
    requires o !in CellsOf(ts)
    ensures forall k {:trigger ts[k]} | 0 <= k < |ts| ::
              o != ts[k].item && o !in Inner(ts[k]) && o !in Cell(ts[k].name) && o !in CellsOf(ts[k].kids)
  {
    forall k | 0 <= k < |ts| ensures o !in Cells(ts[k]) {
      assert Cells(ts[k]) <= CellsOf(ts);
    }
  }

  // ----- lists of siblings -----

  predicate Distinct(items: seq<Item>) {
    forall i, k | 0 <= i < k < |items| :: items[i] != items[k]
  }

  /** The `next` chain from `head` runs through `items` and ends with NULL. */
  ghost predicate NextChain(head: Item?, items: seq<Item>)
    reads items`next
  {
    && head == (if items == [] then null else items[0])
    && forall k {:trigger items[k].next} | 0 <= k < |items| ::
         items[k].next == if k + 1 < |items| then items[k + 1] else null
  }

  ghost predicate PrevChain(items: seq<Item>)
    reads items`prev
  {
    forall k {:trigger items[k].prev} | 1 <= k < |items| :: items[k].prev == items[k - 1]
  }

  /** A list of children: NULL-ended, `next` and `prev` inverse, and the head's `prev` is the tail. */
  ghost predicate ChildList(head: Item?, items: seq<Item>)
    reads items`next, items`prev
  {
    && Distinct(items) && NextChain(head, items) && PrevChain(items)
    && (items != [] ==> items[0].prev == items[|items| - 1])
  }

  // ----- ownership and contents -----

  /** The item's pointers are those of the tree; it owns no text or children if a reference, no name if constant. */
  ghost predicate Owns(t: Tree)
    reads t.item`isReference, t.item`valuestring, t.item`stringIsConst, t.item`name
  {
    && (if t.item.isReference then t.str == null && t.kids == [] else t.item.valuestring == t.str)
    && (if t.item.stringIsConst then t.name == null else t.item.name == t.name)
  }

  /** The cells can be released by `cJSON_Delete`: only `child` and `next` links matter. */
  ghost predicate Owned(t: Tree)
    reads t.item`isReference, t.item`valuestring, t.item`stringIsConst, t.item`name, t.item`child
    reads Inner(t), CellsOf(t.kids)
    decreases t
  {
    && Owns(t)
    && (!t.item.isReference ==> NextChainOf(t.item.child, t.kids))
    && forall k | 0 <= k < |t.kids| :: Owned(t.kids[k])
  }

  ghost predicate NextChainOf(head: Item?, ts: seq<Tree>)
    reads Items(ts)`next
  {
    NextChain(head, Items(ts))
  }

  /** The cell holds the C string `s`; NULL holds None. */
  ghost predicate Holds(a: array?<byte>, s: Option<bytes>)
    reads Cell(a)
  {
    if a == null then s == None else s == Some(CString(a[..])) && |CString(a[..])| < a.Length
  }

  /** The bytes of a held string: no NULs, then one. */
  lemma {:induction false} HeldBytes(a: array<byte>, s: bytes)
    requires Holds(a, Some(s))
    ensures |s| < a.Length && a[|s|] == NUL && a[..|s|] == s && NoNul(s)
    ensures forall k | 0 <= k < |s| :: a[k] == s[k] && s[k] != NUL
  {
    assert forall k | 0 <= k < |s| :: a[..][k] == s[k];
  }

  /** The item and the cells below it hold the contents `j`, whatever its name. */
  ghost predicate Body(t: Tree, j: Json)
    reads t.item`kind, t.item`isReference, t.item`child, t.item`valuestring, t.item`valueint, t.item`valuedouble
    reads Inner(t), CellsOf(t.kids)
    decreases t, 0
  {
    && Fields(t.item, j) && t.item.valuestring == t.str && Holds(t.str, j.str)
    && |t.kids| == |j.kids|
    && ChildList(t.item.child, Items(t.kids))
    && forall k | 0 <= k < |t.kids| :: Models(t.kids[k], j.kids[k])
  }

  ghost predicate Fields(item: Item, j: Json)
    reads item`kind, item`isReference, item`valueint, item`valuedouble
  {
    && !item.isReference && item.kind == j.kind && item.valuedouble == j.num && item.valueint == j.valueint
  }

  /** The cells of the tree hold the contents `j`. */
  ghost predicate Models(t: Tree, j: Json)
    reads t.item`kind, t.item`isReference, t.item`child, t.item`valuestring, t.item`valueint, t.item`valuedouble
    reads t.item`stringIsConst, t.item`name, Cell(t.name), Inner(t)
    decreases t, 1
  {
    && !t.item.stringIsConst && t.item.name == t.name && Holds(t.name, j.key)
    && Body(t, j)
  }

  lemma {:induction false} ModelsOwned(t: Tree, j: Json)
    requires Models(t, j)
    ensures Owned(t)
    decreases t
  {
    forall k | 0 <= k < |t.kids| ensures Owned(t.kids[k]) {
      ModelsOwned(t.kids[k], j.kids[k]);
    }
  }

  /** The parts of the tree are among its cells. */
  lemma {:induction false} Parts(t: Tree)
    ensures t.item in Cells(t) && Inner(t) <= Cells(t) && Cell(t.name) <= Cells(t)
    ensures forall o | o in Cells(t) :: IsCell(o)
  {
  }

  /** The fields of an item, and the cells of its texts. */
  lemma {:induction false} ModelsParts(t: Tree, j: Json)
    requires Models(t, j)
    ensures Fields(t.item, j) && Holds(t.item.valuestring, j.str) && Holds(t.item.name, j.key)
    ensures Cell(t.item.valuestring) + Cell(t.item.name) <= Cells(t)
  {
  }

  /** Its list of children. */
  lemma {:induction false} ChildIs(t: Tree, j: Json)
    requires Models(t, j)
    ensures t.item.child == (if t.kids == [] then null else t.kids[0].item) && |t.kids| == |j.kids|
  {
  }

  /** The `n`th child of an item, its contents, and where its chain goes on. */
  lemma {:induction false} KidModels(t: Tree, j: Json, n: nat)
    requires Models(t, j) && n < |t.kids|
    ensures n < |j.kids| && Models(t.kids[n], j.kids[n]) && Cells(t.kids[n]) <= Cells(t)
    ensures t.kids[n].item.next == if n + 1 < |t.kids| then t.kids[n + 1].item else null
  {
    assert Items(t.kids)[n].next == if n + 1 < |t.kids| then Items(t.kids)[n + 1] else null;
  }

  // ----- cJSON_Delete -----

  /** A chain that `cJSON_Delete` can release. */
  ghost predicate Deletable(head: Item?, ts: seq<Tree>)
    reads CellsOf(ts)
  {
    && NextChain(head, Items(ts)) && ApartAll(ts)
    && forall k | 0 <= k < |ts| :: Owned(ts[k])
  }

  /**
   Releases an item, the items after it, and everything below them: exactly the cells they
   own, each of them once.
   */
  method Delete(heap: Allocator, item: Item?, ghost ts: seq<Tree>)
    requires Deletable(item, ts) && CellsOf(ts) <= heap.live
    modifies heap`live
    ensures heap.live == old(heap.live) - CellsOf(ts)
    decreases ts
  {
    hide Owned, Apart, ApartAll, Cells, CellsOf, Inner, Items;
    var current := item;
    ghost var n := 0;
    assert CellsOf(ts[..0]) == {} by { NoCells(ts); }
    while current != null
      invariant n <= |ts| && current == (if n < |ts| then ts[n].item else null)
      invariant heap.live == old(heap.live) - CellsOf(ts[..n])
      decreases |ts| - n
    {
      TakeNext(ts, n);
      assert current in heap.live;
      var next := current.next;
      Release(heap, current, ts[n]);
      current := next;
      n := n + 1;
    }
    assert ts[..|ts|] == ts;
  }

  /** The body of the loop: one item with everything below it. */
  method Release(heap: Allocator, item: Item, ghost t: Tree)
    requires t.item == item && Owned(t) && Apart(t) && Cells(t) <= heap.live
    modifies heap`live
    ensures heap.live == old(heap.live) - Cells(t)
    decreases t
  {
    hide CellsOf, ApartAll, Items;
    NoCells(t.kids);
    assert t.kids == [] ==> t.kids[..0] == t.kids;
    if !item.isReference && item.child != null {
      Delete(heap, item.child, t.kids);
    }
    if !item.isReference && item.valuestring != null {
      heap.Deallocate(item.valuestring);
    }
    if !item.stringIsConst && item.name != null {
      heap.Deallocate(item.name);
    }
    heap.Deallocate(item);
  }

  lemma {:induction false} NoCells(ts: seq<Tree>)
    ensures CellsOf(ts[..0]) == {}
  {
  }

  lemma {:induction false} TakeNext(ts: seq<Tree>, n: nat)
    requires ApartAll(ts) && n < |ts|
    ensures ApartAll(ts[..n]) && Apart(ts[n]) && CellsOf(ts[..n]) !! Cells(ts[n])
    ensures CellsOf(ts[..n + 1]) == CellsOf(ts[..n]) + Cells(ts[n])
    ensures Cells(ts[n]) <= CellsOf(ts)
  {
    hide Cells, Apart, ApartAll, CellsOf, Inner;
    var init := ts[..|ts| - 1];
    assert ts == init + [ts[|ts| - 1]];
    CellsSnoc(init, ts[|ts| - 1]);
    if n < |init| {
      TakeNext(init, n);
      assert init[..n] == ts[..n] && init[..n + 1] == ts[..n + 1];
    } else {
      assert ts[..n + 1] == ts;
    }
  }
}
