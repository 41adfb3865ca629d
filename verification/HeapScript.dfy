/** Any sequence of edits of an array in memory, against the same edits of what it holds. */
module HeapScript {
  import opened Bytes
  import opened Numbers
  import opened Json
  import opened Heap
  import opened HeapLists
  import opened HeapEdit
  import opened HeapCopy
  import opened HeapBuild
  import opened HeapArrays

  /**
   One call, or two for `Move` (detach and insert) and `Copy` (duplicate and insert), on an
   array.  The items that are new hold a number.
   */
  datatype Edit =
    | Append(num: real)
    | Insert(which: int, num: real)
    | Replace(which: int, num: real)
    | Remove(which: int)
    | Move(from: int, to: nat)
    | Copy(from: int, to: nat)

  /** Where an insertion before the `k`th child of `n` puts the item. */
  function Place(k: nat, n: nat): nat {
    if k < n then k else n
  }

  /** What an edit makes of the children. */
  function Edited(kids: seq<Json>, e: Edit): seq<Json> {
    match e
    case Append(num) => kids + [NumberItem(num)]
    case Insert(which, num) => if which < 0 then kids else Inserted(kids, Place(which, |kids|), NumberItem(num))
    case Replace(which, num) => if 0 <= which < |kids| then kids[which := NumberItem(num)] else kids
    case Remove(which) => if 0 <= which < |kids| then Without(kids, which) else kids
    case Move(from, to) =>
      if 0 <= from < |kids| then Inserted(Without(kids, from), Place(to, |kids| - 1), kids[from]) else kids
    case Copy(from, to) => if 0 <= from < |kids| then Inserted(kids, Place(to, |kids|), kids[from]) else kids
  }

  /** A whole sequence of edits, of which some are not done because an allocation is refused. */
  function Script(kids: seq<Json>, edits: seq<Edit>, done: seq<bool>): seq<Json>
    requires |done| == |edits|
    decreases |edits|
  {
    if edits == [] then kids
    else
      var n := |edits| - 1;
      var before := Script(kids, edits[..n], done[..n]);
      if done[n] then Edited(before, edits[n]) else before
  }

  /** After an edit the owner holds `j'`, its new cells are new ones, and no other cell is gained or lost. */
  twostate predicate Changed(heap: Allocator, owner: Item, t: Tree, new t': Tree, j': Json)
    reads heap`live, t'.item, Cells(t')
  {
    && Alive(heap, owner, t', j') && (forall o | o in Cells(t') :: o in Cells(t) || fresh(o))
    && heap.live - Cells(t') == old(heap.live) - Cells(t)
  }

  /** The children are cells of the array. */
  lemma {:induction false} KidsAmong(t: Tree)
    ensures t.item in Cells(t) && forall i | i in Items(t.kids) :: i in Cells(t)
  {
    Within(t.kids);
  }

  lemma {:induction false} SetsAdd(live: set<object>, t: set<object>, r: set<object>, more: set<object>,
                                   before: set<object>)
    requires r == t + more && live == before + more && more !! t && more !! before
    ensures live - r == before - t && (t <= before ==> r <= live)
  {
  }

  /** A new number at the end. */
  method AppendNumber(heap: Allocator, owner: Item, num: real, ghost t: Tree, ghost j: Json)
    returns (ghost t': Tree, ghost j': Json)
    requires Alive(heap, owner, t, j)
    modifies Cells(t), heap`requests, heap`live
    ensures heap.requests >= old(heap.requests) && Changed(heap, owner, t, t', j')
    ensures j' == if heap.RefusedSince(old(heap.requests)) then j else j.(kids := Edited(j.kids, Append(num)))
  {
    hide Cells, Models, Apart, Inner, CellsOf, ApartAll;
    KidsAmong(t);
    Parts(t);
    assert allocated(Cells(t));
    t', j' := t, j;
    var item;
    ghost var it;
    item, it := CreateNumber(heap, num);
    if item != null {
      t' := Attach(owner, item, t, j, it.value, NumberItem(num));
      j' := j.(kids := j.kids + [NumberItem(num)]);
      SetsAdd(heap.live, Cells(t), Cells(t'), Cells(it.value), old(heap.live));
    }
  }

  /** A new number before a child; at a negative index it is not taken and released again. */
  method InsertNumber(heap: Allocator, owner: Item, which: int, num: real, ghost t: Tree, ghost j: Json)
    returns (ghost t': Tree, ghost j': Json)
    requires Alive(heap, owner, t, j)
    modifies Cells(t), heap`requests, heap`live
    ensures heap.requests >= old(heap.requests) && Changed(heap, owner, t, t', j')
    ensures j' == if heap.RefusedSince(old(heap.requests)) then j else j.(kids := Edited(j.kids, Insert(which, num)))
  {
    hide Cells, Models, Apart, Inner, CellsOf, ApartAll, Inserted;
    KidsAmong(t);
    Parts(t);
    assert allocated(Cells(t));
    t', j' := t, j;
    var item;
    ghost var it;
    item, it := CreateNumber(heap, num);
    if item != null {
      t', j' := PutIn(heap, owner, which, item, t, j, it.value, NumberItem(num), old(heap.live));
    }
  }

  /** An item that is in no list goes into the array, or is released. */
  method PutIn(heap: Allocator, owner: Item, which: int, item: Item, ghost t: Tree, ghost j: Json, ghost it: Tree,
               ghost ij: Json, ghost before: set<object>)
    returns (ghost t': Tree, ghost j': Json)
    requires Alive(heap, owner, t, j) && Detached(heap, item, it, ij) && Cells(t) !! Cells(it)
    requires heap.live - Cells(it) == before
    modifies Cells(t), Cells(it), heap`live
    ensures t' == if which < 0 then t else t.(kids := Inserted(t.kids, Place(which, |t.kids|), it))
    ensures j' == if which < 0 then j else j.(kids := Inserted(j.kids, Place(which, |j.kids|), ij))
    ensures Alive(heap, owner, t', j') && heap.live - Cells(t') == before - Cells(t)
    ensures forall o | o in Cells(t') :: o in Cells(t) || o in Cells(it)
  {
    hide Cells, Models, Apart, Inner, CellsOf, ApartAll, Inserted, Owned, Deletable;
    KidsAmong(t);
    Parts(t);
    Parts(it);
    assert allocated(Cells(t)) && allocated(Cells(it));
    var ok;
    ok, t' := InsertInArray(owner, which, item, t, j, it, ij);
    j' := if which < 0 then j else j.(kids := Inserted(j.kids, Place(which, |j.kids|), ij));
    if !ok {
      ModelsOwned(it, ij);
      SingleDeletable(it);
      Delete(heap, item, [it]);
    }
  }

  /** A new number in the place of a child, which is released. */
  method ReplaceWithNumber(heap: Allocator, owner: Item, which: int, num: real, ghost t: Tree, ghost j: Json)
    returns (ghost t': Tree, ghost j': Json)
    requires Alive(heap, owner, t, j)
    modifies Cells(t), heap`requests, heap`live
    ensures heap.requests >= old(heap.requests) && Changed(heap, owner, t, t', j')
    ensures j' == if heap.RefusedSince(old(heap.requests)) then j else j.(kids := Edited(j.kids, Replace(which, num)))
  {
    hide Cells, Models, Apart, Inner, CellsOf, ApartAll, Owned, Deletable;
    KidsAmong(t);
    Parts(t);
    assert allocated(Cells(t));
    t', j' := t, j;
    var item;
    ghost var it;
    item, it := CreateNumber(heap, num);
    if item != null {
      t', j' := SwapOrDelete(heap, owner, which, item, t, j, it.value, NumberItem(num), old(heap.live));
    }
  }

  method SwapOrDelete(heap: Allocator, owner: Item, which: int, item: Item, ghost t: Tree, ghost j: Json,
                      ghost it: Tree,
                      ghost ij: Json, ghost before: set<object>)
    returns (ghost t': Tree, ghost j': Json)
    requires Alive(heap, owner, t, j) && Detached(heap, item, it, ij) && Cells(t) !! Cells(it)
    requires heap.live - Cells(it) == before
    modifies Cells(t), Cells(it), heap`live
    ensures j' == if 0 <= which < |j.kids| then j.(kids := j.kids[which := ij]) else j
    ensures Alive(heap, owner, t', j') && heap.live - Cells(t') == before - Cells(t)
    ensures forall o | o in Cells(t') :: o in Cells(t) || o in Cells(it)
  {
    hide Cells, Models, Apart, Inner, CellsOf, ApartAll, Owned, Deletable;
    KidsAmong(t);
    Parts(t);
    Parts(it);
    assert allocated(Cells(t)) && allocated(Cells(it));
    var ok;
    ok, t' := ReplaceItemInArray(heap, owner, which, item, t, j, it, ij);
    if ok {
      j' := j.(kids := j.kids[which := ij]);
      ChildCells(t, which);
    } else {
      j' := j;
      ModelsOwned(it, ij);
      SingleDeletable(it);
      Delete(heap, item, [it]);
    }
  }

  lemma {:induction false} ChildCells(t: Tree, k: nat)
    requires Apart(t) && k < |t.kids|
    ensures Cells(t.kids[k]) <= Cells(t)
  {
    hide Apart;
    ChildApart(t, k);
  }

  method RemoveChild(heap: Allocator, owner: Item, which: int, ghost t: Tree, ghost j: Json)
    returns (ghost t': Tree, ghost j': Json)
    requires Alive(heap, owner, t, j)
    modifies Cells(t), heap`live
    ensures Changed(heap, owner, t, t', j') && j' == j.(kids := Edited(j.kids, Remove(which)))
  {
    hide Cells, Models, Apart, Inner, CellsOf, ApartAll, Without;
    KidsAmong(t);
    Parts(t);
    SameLength(t, j);
    assert allocated(Cells(t));
    t' := DeleteItemFromArray(heap, owner, which, t, j);
    j' := j.(kids := Edited(j.kids, Remove(which)));
    if 0 <= which < |t.kids| {
      CellsWithout(t, which);
    }
  }

  lemma {:induction false} SameLength(t: Tree, j: Json)
    requires Models(t, j)
    ensures |t.kids| == |j.kids|
  {
  }

  /** A child detached and inserted elsewhere. */
  method MoveChild(heap: Allocator, owner: Item, from: int, to: nat, ghost t: Tree, ghost j: Json)
    returns (ghost t': Tree, ghost j': Json)
    requires Alive(heap, owner, t, j)
    modifies Cells(t), heap`live
    ensures Changed(heap, owner, t, t', j') && j' == j.(kids := Edited(j.kids, Move(from, to)))
  {
    hide Cells, Models, Apart, Inner, CellsOf, ApartAll, Without, Inserted;
    KidsAmong(t);
    Parts(t);
    SameLength(t, j);
    assert allocated(Cells(t));
    var item;
    ghost var r;
    item, r := DetachItemFromArray(owner, from, t, j);
    t', j' := r, j;
    if item != null {
      LessOne(t.kids, j.kids, from);
      t', j' := PutIn(heap, owner, to, item, r, j.(kids := Without(j.kids, from)), t.kids[from], j.kids[from],
                      heap.live - Cells(t.kids[from]));
    }
  }

  lemma {:induction false} LessOne(ts: seq<Tree>, js: seq<Json>, k: nat)
    requires |ts| == |js| && k < |ts|
    ensures |Without(ts, k)| == |Without(js, k)| == |js| - 1
  {
  }

  /** A child duplicated and the copy inserted. */
  method CopyChild(heap: Allocator, owner: Item, from: int, to: nat, ghost t: Tree, ghost j: Json)
    returns (ghost t': Tree, ghost j': Json)
    requires Alive(heap, owner, t, j)
    modifies Cells(t), heap`requests, heap`live
    ensures heap.requests >= old(heap.requests) && Changed(heap, owner, t, t', j')
    ensures j' == if heap.RefusedSince(old(heap.requests)) then j else j.(kids := Edited(j.kids, Copy(from, to)))
  {
    hide Cells, Models, Apart, Inner, CellsOf, ApartAll, Inserted, ChildList;
    KidsAmong(t);
    Parts(t);
    SameLength(t, j);
    ModelsLoose(t, j);
    assert allocated(Cells(t));
    t', j' := t, j;
    if from < 0 {
      return;
    }
    var child := GetArrayItem(owner, from, Items(t.kids));
    if child == null {
      return;
    }
    ChildCells(t, from);
    KidHolds(t, j, from);
    var item;
    ghost var it;
    item, it := Duplicate(heap, child, true, t.kids[from], j.kids[from]);
    if item != null {
      t', j' := PutIn(heap, owner, to, item, t, j, it.value, j.kids[from], old(heap.live));
    }
  }

  lemma {:induction false} KidHolds(t: Tree, j: Json, k: nat)
    requires Models(t, j) && k < |t.kids| == |j.kids|
    ensures Models(t.kids[k], j.kids[k]) && Items(t.kids)[k] == t.kids[k].item
  {
  }

  /** One edit. */
  method RunEdit(heap: Allocator, owner: Item, e: Edit, ghost t: Tree, ghost j: Json)
    returns (ghost t': Tree, ghost j': Json)
    requires Alive(heap, owner, t, j)
    modifies Cells(t), heap`requests, heap`live
    ensures heap.requests >= old(heap.requests) && Changed(heap, owner, t, t', j')
    ensures j' == if heap.RefusedSince(old(heap.requests)) then j else j.(kids := Edited(j.kids, e))
  {
    hide Cells, Changed, Alive, Edited;
    match e {
      case Append(num) => t', j' := AppendNumber(heap, owner, num, t, j);
      case Insert(which, num) => t', j' := InsertNumber(heap, owner, which, num, t, j);
      case Replace(which, num) => t', j' := ReplaceWithNumber(heap, owner, which, num, t, j);
      case Remove(which) => t', j' := RemoveChild(heap, owner, which, t, j);
      case Move(from, to) => t', j' := MoveChild(heap, owner, from, to, t, j);
      case Copy(from, to) => t', j' := CopyChild(heap, owner, from, to, t, j);
    }
  }

  lemma {:induction false} ScriptSnoc(kids: seq<Json>, edits: seq<Edit>, n: nat, done: seq<bool>, b: bool)
    requires n < |edits| && |done| == n
    ensures Script(kids, edits[..n + 1], done + [b]) ==
            if b then Edited(Script(kids, edits[..n], done), edits[n]) else Script(kids, edits[..n], done)
  {
    assert edits[..n + 1][..n] == edits[..n] && (done + [b])[..n] == done;
  }

  /**
   Any sequence of edits: the array holds what the same edits make of its contents, those left
   out for which an allocation was refused; and it owns exactly what was gained.
   */
  method RunScript(heap: Allocator, owner: Item, edits: seq<Edit>, ghost t: Tree, ghost j: Json)
    returns (ghost t': Tree, ghost j': Json, ghost done: seq<bool>)
    requires Alive(heap, owner, t, j)
    modifies Cells(t), heap`requests, heap`live
    ensures |done| == |edits| && j' == j.(kids := Script(j.kids, edits, done))
    ensures !heap.RefusedSince(old(heap.requests)) ==> forall k | 0 <= k < |done| :: done[k]
    ensures Changed(heap, owner, t, t', j')
  {
    hide Cells, Models, Apart, Edited, Script;
    t', j', done := t, j, [];
    KidsAmong(t);
    var n := 0;
    ScriptNothing(j.kids, edits);
    while n < |edits|
      invariant 0 <= n <= |edits| && |done| == n && heap.requests >= old(heap.requests)
      invariant j' == j.(kids := Script(j.kids, edits[..n], done))
      invariant !heap.RefusedSince(old(heap.requests)) ==> forall k | 0 <= k < |done| :: done[k]
      invariant Changed(heap, owner, t, t', j')
    {
      ghost var start, kids := heap.requests, j'.kids;
      t', j' := RunEdit(heap, owner, edits[n], t', j');
      ScriptSnoc(j.kids, edits, n, done, !heap.RefusedSince(start));
      done := done + [!heap.RefusedSince(start)];
      n := n + 1;
    }
    assert edits[..n] == edits;
  }

  lemma {:induction false} ScriptNothing(kids: seq<Json>, edits: seq<Edit>)
    ensures edits[..0] == [] && Script(kids, [], []) == kids
  {
  }
}
