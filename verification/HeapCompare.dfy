/** `cJSON_Compare` and `get_object_item` on items in memory. */
module HeapCompare {
  import opened Bytes
  import opened Numbers
  import opened Json
  import opened Heap
  import C = Compare

  /** `strcmp` on two held strings. */
  method Strcmp(x: array<byte>, y: array<byte>, ghost s: bytes, ghost t: bytes) returns (equal: bool)
    requires Holds(x, Some(s)) && Holds(y, Some(t))
    ensures equal <==> s == t
  {
    hide CString;
    HeldBytes(x, s);
    HeldBytes(y, t);
    var i := 0;
    while x[i] == y[i]
      invariant i <= |s| && i <= |t| && s[..i] == t[..i]
      decreases |s| - i
    {
      if x[i] == NUL {
        return true;
      }
      i := i + 1;
    }
    equal := false;
  }

  /** `case_insensitive_strcmp`: NULL equals nothing. */
  method CaseInsensitiveStrcmp(x: array?<byte>, y: array?<byte>, ghost s: Option<bytes>, ghost t: Option<bytes>)
    returns (equal: bool)
    requires Holds(x, s) && Holds(y, t)
    ensures equal <==> C.Match(s, t, false)
    ensures equal <==> s.Some? && t.Some? && C.SameName(s.value, t.value)
  {
    hide CString, C.SameName;
    if s.Some? && t.Some? {
      C.MatchIff(s.value, t.value);
    }
    if x == null || y == null {
      return false;
    }
    if x == y {
      return true;
    }
    HeldBytes(x, s.value);
    HeldBytes(y, t.value);
    ghost var u, v := C.Fold(s.value), C.Fold(t.value);
    var i := 0;
    while C.Lower(x[i]) == C.Lower(y[i])
      invariant i <= |u| && i <= |v| && u[..i] == v[..i]
      decreases |u| - i
    {
      if x[i] == NUL {
        return true;
      }
      i := i + 1;
    }
    equal := false;
  }

  /** `get_object_item`, against the look-up in the contents. */
  method LookUp(owner: Item?, name: array?<byte>, cased: bool, ghost t: Tree, ghost j: Json,
                ghost key: Option<bytes>)
    returns (item: Item?)
    requires owner != null ==> t.item == owner && Models(t, j)
    requires Holds(name, key)
    ensures owner == null ==> item == null
    ensures owner != null ==>
              && |t.kids| == |j.kids|
              && item == match C.Find(j.kids, key, cased) case None => null case Some(k) => t.kids[k].item
  {
    hide Models, Body, Cells, CellsOf, Inner, C.Find, CString, ChildList, Fields;
    if owner == null {
      return null;
    }
    ChildIs(t, j);
    if name == null {
      FindNothing(j.kids, key, cased);
      return null;
    }
    item := owner.child;
    Parts(t);
    assert allocated(Cells(t));
    ghost var n := 0;
    assert j.kids[0..] == j.kids;
    while item != null
      invariant n <= |t.kids| && item == (if n < |t.kids| then t.kids[n].item else null)
      invariant Models(t, j) && Holds(name, key)
      invariant C.Find(j.kids, key, cased) == Shift(C.Find(j.kids[n..], key, cased), n)
      decreases |t.kids| - n
    {
      KidModels(t, j, n);
      ModelsParts(t.kids[n], j.kids[n]);
      FindStep(j.kids, key, cased, n);
      if cased {
        if item.name == null {
          return null;
        }
        var equal := Strcmp(name, item.name, key.value, j.kids[n].key.value);
        if equal {
          return;
        }
      } else {
        var equal := CaseInsensitiveStrcmp(name, item.name, key, j.kids[n].key);
        if equal {
          return;
        }
      }
      item := item.next;
      n := n + 1;
    }
    FindNothing(j.kids[n..], key, cased);
  }

  /**
   `cJSON_GetObjectItem` and `cJSON_GetObjectItemCaseSensitive`: the first child under the
   name, or NULL if there is none.
   */
  method GetObjectItem(owner: Item?, name: array?<byte>, cased: bool, ghost t: Tree, ghost j: Json,
                       ghost key: Option<bytes>)
    returns (item: Item?)
    requires owner != null ==> t.item == owner && Models(t, j)
    requires Holds(name, key)
    ensures owner == null ==> item == null
    ensures owner != null ==>
              && |t.kids| == |j.kids|
              && item == match C.Find(j.kids, key, cased) case None => null case Some(k) => t.kids[k].item
    ensures owner != null && key.Some? ==>
              && (forall k: nat | C.IsFirst(j.kids, key.value, cased, k) :: k < |t.kids| && item == t.kids[k].item)
              && (item != null ==> exists k: nat :: C.IsFirst(j.kids, key.value, cased, k))
  {
    hide Models, Cells, C.Find, CString, C.IsFirst, C.Match, Holds;
    item := LookUp(owner, name, cased, t, j, key);
    if key.Some? {
      C.FindsFirst(j.kids, key.value, cased);
    }
  }

  /** An index counted from `n` on. */
  function Shift(k: Option<nat>, n: nat): Option<nat> {
    match k
    case None => None
    case Some(i) => Some(i + n)
  }

  lemma {:induction false} FindNothing(kids: seq<Json>, key: Option<bytes>, cased: bool)
    requires key == None || kids == []
    ensures C.Find(kids, key, cased) == None
  {
  }

  lemma {:induction false} FindStep(kids: seq<Json>, key: Option<bytes>, cased: bool, n: nat)
    requires n < |kids| && key.Some?
    ensures Shift(C.Find(kids[n..], key, cased), n) ==
            if cased && kids[n].key == None then None
            else if C.Match(key, kids[n].key, cased) then Some(n)
            else Shift(C.Find(kids[n + 1..], key, cased), n + 1)
  {
    hide C.Match;
    assert kids[n..][1..] == kids[n + 1..];
  }

  /** `cJSON_Compare`; two different items share no cells. */
  method Compare(a: Item?, b: Item?, cased: bool, ghost ta: Tree, ghost ja: Json, ghost tb: Tree, ghost jb: Json)
    returns (equal: bool)
    requires a != null ==> ta.item == a && Models(ta, ja)
    requires b != null ==> tb.item == b && Models(tb, jb)
    requires a != null && b != null && a != b ==> Cells(ta) !! Cells(tb)
    ensures equal <==> a != null && b != null && if a == b then ja.kind != Invalid else C.Equal(ja, jb, cased)
    decreases C.Size(ja) + C.Size(jb), 1
  {
    hide Models, Body, Cells, CellsOf, Inner, CString, CompareDouble, C.Covers, C.Size;
    if a == null || b == null || a.kind != b.kind {
      if a != null && b != null {
        ModelsParts(ta, ja);
        ModelsParts(tb, jb);
      }
      return false;
    }
    ModelsParts(ta, ja);
    ModelsParts(tb, jb);
    if a.kind == Invalid {
      return false;
    }
    if a == b {
      return true;
    }
    Parts(ta);
    Parts(tb);
    assert allocated(Cells(ta)) && allocated(Cells(tb));
    match a.kind {
      case Number => equal := CompareDouble(a.valuedouble, b.valuedouble);
      case String => equal := CompareText(a.valuestring, b.valuestring, ja.str, jb.str);
      case Raw => equal := CompareText(a.valuestring, b.valuestring, ja.str, jb.str);
      case Array => equal := CompareElements(a, b, cased, ta, ja, tb, jb);
      case Object =>
        equal := CompareMembers(a, b, cased, ta, ja, tb, jb);
        if equal {
          equal := CompareMembers(b, a, cased, tb, jb, ta, ja);
        }
      case _ => equal := true;
    }
  }

  method CompareText(x: array?<byte>, y: array?<byte>, ghost s: Option<bytes>, ghost t: Option<bytes>)
    returns (equal: bool)
    requires Holds(x, s) && Holds(y, t)
    ensures equal <==> s.Some? && s == t
  {
    hide CString;
    if x == null || y == null {
      return false;
    }
    equal := Strcmp(x, y, s.value, t.value);
  }

  /** Two arrays, element by element. */
  method CompareElements(a: Item, b: Item, cased: bool, ghost ta: Tree, ghost ja: Json, ghost tb: Tree, ghost jb: Json)
    returns (equal: bool)
    requires ta.item == a && Models(ta, ja) && tb.item == b && Models(tb, jb) && Cells(ta) !! Cells(tb)
    ensures equal <==>
              && |ja.kids| == |jb.kids|
              && forall k | 0 <= k < |ja.kids| :: C.Equal(ja.kids[k], jb.kids[k], cased)
    decreases C.Size(ja) + C.Size(jb), 0
  {
    hide Models, Body, Cells, CellsOf, Inner, C.Equal, C.Size, ChildList;
    ChildIs(ta, ja);
    ChildIs(tb, jb);
    Parts(ta);
    Parts(tb);
    assert allocated(Cells(ta)) && allocated(Cells(tb));
    var x, y := a.child, b.child;
    ghost var n := 0;
    while x != null && y != null
      invariant Models(ta, ja) && Models(tb, jb)
      invariant n <= |ta.kids| && x == (if n < |ta.kids| then ta.kids[n].item else null)
      invariant n <= |tb.kids| && y == (if n < |tb.kids| then tb.kids[n].item else null)
      invariant forall k | 0 <= k < n :: C.Equal(ja.kids[k], jb.kids[k], cased)
      decreases |ta.kids| - n
    {
      KidModels(ta, ja, n);
      KidModels(tb, jb, n);
      equal := Compare(x, y, cased, ta.kids[n], ja.kids[n], tb.kids[n], jb.kids[n]);
      if !equal {
        return;
      }
      x, y := x.next, y.next;
      n := n + 1;
    }
    if n < |ta.kids| {
      KidModels(ta, ja, n);
    }
    equal := x == y;
  }

  /** Every member of `a` against the one `b` has under its name. */
  method CompareMembers(a: Item, b: Item, cased: bool, ghost ta: Tree, ghost ja: Json, ghost tb: Tree, ghost jb: Json)
    returns (equal: bool)
    requires ta.item == a && Models(ta, ja) && tb.item == b && Models(tb, jb) && Cells(ta) !! Cells(tb)
    ensures equal <==> C.Covers(ja, jb, cased)
    decreases C.Size(ja) + C.Size(jb), 0
  {
    hide Models, Body, Cells, CellsOf, Inner, C.Equal, C.Size, ChildList, C.Find, Holds;
    ChildIs(ta, ja);
    ChildIs(tb, jb);
    Parts(ta);
    Parts(tb);
    assert allocated(Cells(ta)) && allocated(Cells(tb));
    var x := a.child;
    ghost var n := 0;
    while x != null
      invariant Models(ta, ja) && Models(tb, jb)
      invariant n <= |ta.kids| && x == (if n < |ta.kids| then ta.kids[n].item else null)
      invariant forall i | 0 <= i < n ::
                  var k := C.Find(jb.kids, ja.kids[i].key, cased);
                  k.Some? && C.Equal(ja.kids[i], jb.kids[k.value], cased)
      decreases |ta.kids| - n
    {
      KidModels(ta, ja, n);
      ModelsParts(ta.kids[n], ja.kids[n]);
      var y := LookUp(b, x.name, cased, tb, jb, ja.kids[n].key);
      if y == null {
        return false;
      }
      ghost var k := C.Find(jb.kids, ja.kids[n].key, cased).value;
      KidModels(tb, jb, k);
      equal := Compare(x, y, cased, ta.kids[n], ja.kids[n], tb.kids[k], jb.kids[k]);
      if !equal {
        return;
      }
      x := x.next;
      n := n + 1;
    }
    equal := true;
  }
}
