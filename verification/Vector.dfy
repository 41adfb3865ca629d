/**
 `nftp_vec`: a double-ended queue of pointers in a fixed array, against operations on
 sequences.  NULL entries are None.
 */
module Vector {
  import opened Bytes

  const NFTP_SIZE: nat := 32
  const NFTP_HEAD: int := -1
  const NFTP_TAIL: int := 0x7FFFFFFF

  /** 0 and the error codes. */
  datatype Rc = Ok | Overflow | Empty | BadFlag

  // ----- the specification -----

  /** Where the entries start in the array, and the entries. */
  datatype View<T> = View(low: nat, items: seq<Option<T>>)

  function Fresh<T>(): View<T> {
    View(NFTP_SIZE / 4, [])
  }

  /** There is a free slot after the last entry. */
  predicate TailFree<T>(v: View<T>) {
    v.low + |v.items| < NFTP_SIZE
  }

  function Pushed<T>(v: View<T>, entry: Option<T>, flag: int): (Rc, View<T>) {
    if flag == NFTP_HEAD then
      if v.low == 0 then (Overflow, v) else (Ok, View(v.low - 1, [entry] + v.items))
    else if flag == NFTP_TAIL then
      if !TailFree(v) then (Overflow, v) else (Ok, View(v.low, v.items + [entry]))
    else (BadFlag, v)
  }

  /** The result, the view, and the entry taken. */
  function Popped<T>(v: View<T>, flag: int): (Rc, View<T>, Option<T>) {
    if v.items == [] then (Empty, v, None)
    else if flag == NFTP_HEAD then (Ok, View(v.low + 1, v.items[1..]), v.items[0])
    else if flag == NFTP_TAIL then (Ok, View(v.low, v.items[..|v.items| - 1]), v.items[|v.items| - 1])
    else (BadFlag, v, None)
  }

  /** A negative position is converted to a huge unsigned one, so the entry goes to the tail. */
  function Inserted<T>(v: View<T>, entry: Option<T>, pos: int): (Rc, View<T>) {
    if !TailFree(v) then (Overflow, v)
    else if pos < 0 || pos > |v.items| then (Ok, View(v.low, v.items + [entry]))
    else (Ok, View(v.low, v.items[..pos] + [entry] + v.items[pos..]))
  }

  function Deleted<T>(v: View<T>, pos: int): (Rc, View<T>, Option<T>) {
    if pos < 0 || pos >= |v.items| then (Overflow, v, None)
    else (Ok, View(v.low, v.items[..pos] + v.items[pos + 1..]), v.items[pos])
  }

  function Joined<T>(v: View<T>, more: seq<Option<T>>): (Rc, View<T>) {
    if v.low + |v.items| + |more| > NFTP_SIZE then (Overflow, v) else (Ok, View(v.low, v.items + more))
  }

  // ----- the structure -----

  class Vec<T(==)> {
    const cap: nat := NFTP_SIZE
    var len: nat
    var low: nat
    const vec: array<Option<T>>

    ghost predicate Valid()
      reads this, vec
    {
      low + len <= cap == vec.Length
    }

    ghost function Contents(): View<T>
      reads this, vec
      requires Valid()
    {
      View(low, vec[low..low + len])
    }

    /** `nftp_vec_alloc`. */
    constructor ()
      ensures Valid() && Contents() == Fresh() && fresh(vec)
    {
      vec := new Option<T>[NFTP_SIZE](_ => None);
      len := 0;
      low := NFTP_SIZE / 4;
    }

    method Append(entry: Option<T>) returns (rc: Rc)
      requires Valid()
      modifies this, vec
      ensures Valid() && (rc, Contents()) == Pushed(old(Contents()), entry, NFTP_TAIL)
    {
      rc := Push(entry, NFTP_TAIL);
    }

    /** The tail is guarded as `nftp_vec_insert` guards it. */
    method Push(entry: Option<T>, flag: int) returns (rc: Rc)
      requires Valid()
      modifies this, vec
      ensures Valid() && (rc, Contents()) == Pushed(old(Contents()), entry, flag)
    {
      var pos;
      if flag == NFTP_HEAD {
        if low == 0 {
          return Overflow;
        }
        low := low - 1;
        pos := low;
      } else if flag == NFTP_TAIL {
        if low + len + 1 > cap {
          return Overflow;
        }
        pos := low + len;
      } else {
        return BadFlag;
      }
      len := len + 1;
      vec[pos] := entry;
      rc := Ok;
      assert flag == NFTP_HEAD ==> vec[low..low + len] == [entry] + old(vec[low..low + len]);
      assert flag == NFTP_TAIL ==> vec[low..low + len] == old(vec[low..low + len]) + [entry];
    }

    method Pop(flag: int) returns (rc: Rc, entry: Option<T>)
      requires Valid()
      modifies this, vec
      ensures Valid() && (rc, Contents(), entry) == Popped(old(Contents()), flag)
      ensures rc == Ok ==> old(len) > 0 && len == old(len) - 1
      ensures rc == Ok ==> low == old(low) + (if flag == NFTP_HEAD then 1 else 0)
      ensures rc == Ok ==> vec[if flag == NFTP_HEAD then old(low) else low + len] == None
    {
      entry := None;
      if len == 0 {
        return Empty, None;
      }
      var pos;
      if flag == NFTP_HEAD {
        pos := low;
        low := low + 1;
      } else if flag == NFTP_TAIL {
        pos := low + len - 1;
      } else {
        return BadFlag, None;
      }
      entry := vec[pos];
      vec[pos] := None;
      len := len - 1;
      rc := Ok;
      assert flag == NFTP_HEAD ==> vec[low..low + len] == old(vec[low..low + len])[1..];
      assert flag == NFTP_TAIL ==> vec[low..low + len] == old(vec[low..low + len])[..len];
    }

    method Insert(entry: Option<T>, pos: int) returns (rc: Rc)
      requires Valid()
      modifies this, vec
      ensures Valid() && (rc, Contents()) == Inserted(old(Contents()), entry, pos)
    {
      if low + len + 1 > cap {
        return Overflow;
      }
      if pos < 0 || pos > len {
        rc := Push(entry, NFTP_TAIL);
        return;
      }
      ghost var was := vec[..];
      ShiftUp(low + pos, low + len);
      vec[low + pos] := entry;
      len := len + 1;
      rc := Ok;
      InsertedAt(was, vec[..], low, len - 1, pos, entry);
    }

    /** The loop of `nftp_vec_insert`: the entries from `from` to `to` move up by one. */
    method ShiftUp(from: nat, to: nat)
      requires from <= to < vec.Length
      modifies vec
      ensures forall k {:trigger vec[k]} | 0 <= k < from :: vec[k] == old(vec[k])
      ensures forall k {:trigger old(vec[k])} | from <= k < to :: vec[k + 1] == old(vec[k])
    {
      ghost var was := vec[..];
      var i := to;
      while i > from
        invariant from <= i <= to
        invariant forall k {:trigger was[k]} | 0 <= k <= i :: vec[k] == was[k]
        invariant forall k {:trigger was[k]} | i <= k < to :: vec[k + 1] == was[k]
      {
        assert was[i - 1] == vec[i - 1];
        vec[i] := vec[i - 1];
        i := i - 1;
      }
    }

    /** The vector must not be empty: `v->len-1` is unsigned. */
    method Delete(pos: int) returns (rc: Rc, entry: Option<T>)
      requires Valid() && len > 0
      modifies this, vec
      ensures Valid() && (rc, Contents(), entry) == Deleted(old(Contents()), pos)
    {
      if pos < 0 || pos > len - 1 {
        return Overflow, None;
      }
      ghost var was := vec[..];
      entry := vec[low + pos];
      var i := low + pos + 1;
      while i < low + len
        invariant low == old(low) && len == old(len) && low + pos + 1 <= i <= low + len
        invariant forall k {:trigger was[k]} | 0 <= k < low + pos || i <= k < cap :: vec[k] == was[k]
        invariant forall k {:trigger was[k]} | low + pos < k < i :: vec[k - 1] == was[k]
      {
        assert was[i] == vec[i];
        vec[i - 1] := vec[i];
        i := i + 1;
      }
      len := len - 1;
      rc := Ok;
      DeletedAt(was, vec[..], low, len + 1, pos);
    }

    method Get(idx: int) returns (rc: Rc, entry: Option<T>)
      requires Valid()
      ensures rc == (if 0 <= idx < len then Ok else Overflow)
      ensures rc == Ok ==> entry == Contents().items[idx]
    {
      if idx >= len || idx < 0 {
        return Overflow, None;
      }
      rc, entry := Ok, vec[low + idx];
    }

    /** The first position of an entry. */
    method GetIdx(entry: Option<T>) returns (rc: Rc, idx: nat)
      requires Valid()
      ensures rc == (if entry in Contents().items then Ok else Empty)
      ensures rc == Ok ==> idx < len && Contents().items[idx] == entry && entry !in Contents().items[..idx]
    {
      var i := low;
      while i < low + len
        invariant low <= i <= low + len
        invariant entry !in vec[low..i]
      {
        if vec[i] == entry {
          assert Contents().items[i - low] == entry;
          assert Contents().items[..i - low] == vec[low..i];
          return Ok, i - low;
        }
        i := i + 1;
      }
      rc, idx := Empty, 0;
    }

    method Cat(sv: Vec<T>) returns (rc: Rc)
      requires Valid() && sv.Valid() && sv != this && sv.vec != vec
      modifies this, vec
      ensures Valid() && (rc, Contents()) == Joined(old(Contents()), sv.Contents().items)
      ensures unchanged(sv) && unchanged(sv.vec)
    {
      if low + len + sv.len > cap {
        return Overflow;
      }
      var idx := low + len;
      var i := 0;
      while i < sv.len
        invariant len == old(len) && low == old(low) && 0 <= i <= sv.len
        invariant vec[..idx] == old(vec[..idx])
        invariant vec[idx..idx + i] == sv.vec[sv.low..sv.low + i]
        invariant unchanged(sv) && unchanged(sv.vec)
      {
        vec[idx + i] := sv.vec[sv.low + i];
        i := i + 1;
      }
      len := len + sv.len;
      rc := Ok;
      assert vec[low..low + len] == vec[..idx][low..] + vec[idx..low + len];
    }
  }

  /** The array after the shift of an insertion. */
  lemma {:induction false} InsertedAt<T>(was: seq<T>, now: seq<T>, low: nat, len: nat, pos: nat, entry: T)
    requires pos <= len && low + len < |was| == |now|
    requires forall k {:trigger was[k]} | low <= k < low + pos :: now[k] == was[k]
    requires now[low + pos] == entry
    requires forall k {:trigger was[k]} | low + pos <= k < low + len :: now[k + 1] == was[k]
    ensures now[low..low + len + 1] == was[low..low + len][..pos] + [entry] + was[low..low + len][pos..]
  {
  }

  /** And of a deletion. */
  lemma {:induction false} DeletedAt<T>(was: seq<T>, now: seq<T>, low: nat, len: nat, pos: nat)
    requires pos < len && low + len <= |was| == |now|
    requires forall k {:trigger was[k]} | low <= k < low + pos :: now[k] == was[k]
    requires forall k {:trigger was[k]} | low + pos < k < low + len :: now[k - 1] == was[k]
    ensures now[low..low + len - 1] == was[low..low + len][..pos] + was[low..low + len][pos + 1..]
  {
  }

  // ----- runs -----

  datatype Op<T> =
    | PushOp(entry: Option<T>, flag: int)
    | PopOp(flag: int)
    | InsertOp(entry: Option<T>, pos: int)
    | DeleteOp(pos: int)
    | CatOp(more: seq<Option<T>>)

  function Apply<T>(v: View<T>, op: Op<T>): View<T> {
    match op
    case PushOp(entry, flag) => Pushed(v, entry, flag).1
    case PopOp(flag) => Popped(v, flag).1
    case InsertOp(entry, pos) => Inserted(v, entry, pos).1
    case DeleteOp(pos) => Deleted(v, pos).1
    case CatOp(more) => Joined(v, more).1
  }

  function Result<T>(v: View<T>, op: Op<T>): Rc {
    match op
    case PushOp(entry, flag) => Pushed(v, entry, flag).0
    case PopOp(flag) => Popped(v, flag).0
    case InsertOp(entry, pos) => Inserted(v, entry, pos).0
    case DeleteOp(pos) => Deleted(v, pos).0
    case CatOp(more) => Joined(v, more).0
  }

  function Run<T>(v: View<T>, ops: seq<Op<T>>): View<T>
    decreases |ops|
  {
    if ops == [] then v else Run(Apply(v, ops[0]), ops[1..])
  }

  /** Entries never leave the array, and an operation that fails changes nothing, in every run. */
  lemma {:induction false} RunFits<T>(v: View<T>, ops: seq<Op<T>>)
    requires v.low + |v.items| <= NFTP_SIZE
    ensures Run(v, ops).low + |Run(v, ops).items| <= 32
    ensures ops != [] && Result(v, ops[0]) != Ok ==> Run(v, ops) == Run(v, ops[1..])
    decreases |ops|
  {
    if ops != [] {
      RunFits(Apply(v, ops[0]), ops[1..]);
    }
  }

  /** A push and the pop at the same end cancel, wherever the push is accepted. */
  lemma {:induction false} PopUndoesPush<T>(v: View<T>, entry: Option<T>, flag: int)
    requires Pushed(v, entry, flag).0 == Ok
    ensures Popped(Pushed(v, entry, flag).1, flag) == (Ok, v, entry)
  {
    assert flag == NFTP_HEAD ==> ([entry] + v.items)[1..] == v.items;
    assert flag == NFTP_TAIL ==> (v.items + [entry])[..|v.items|] == v.items;
  }

  /** So do an insertion among the entries and the deletion at the same position. */
  lemma {:induction false} DeleteUndoesInsert<T>(v: View<T>, entry: Option<T>, pos: nat)
    requires Inserted(v, entry, pos).0 == Ok && pos <= |v.items|
    ensures Deleted(Inserted(v, entry, pos).1, pos) == (Ok, v, entry)
  {
    var s := v.items[..pos] + [entry] + v.items[pos..];
    assert s[..pos] + s[pos + 1..] == v.items;
  }

  // ----- a vector used as a queue -----

  predicate QueueOp<T>(op: Op<T>) {
    (op.PushOp? && op.flag == NFTP_TAIL) || (op.PopOp? && op.flag == NFTP_HEAD)
  }

  /** Appends and pops at the head only, as the proxy uses its vectors. */
  predicate QueueOps<T>(ops: seq<Op<T>>) {
    forall k | 0 <= k < |ops| :: QueueOp(ops[k])
  }

  /** The entries whose append was accepted. */
  function Accepted<T>(v: View<T>, ops: seq<Op<T>>): seq<Option<T>>
    decreases |ops|
  {
    if ops == [] then []
    else
      (if ops[0].PushOp? && Result(v, ops[0]) == Ok then [ops[0].entry] else []) + Accepted(Apply(v, ops[0]), ops[1..])
  }

  /** The entries popped. */
  function Delivered<T>(v: View<T>, ops: seq<Op<T>>): seq<Option<T>>
    decreases |ops|
  {
    if ops == [] then []
    else
      (if ops[0].PopOp? && Result(v, ops[0]) == Ok then [Popped(v, ops[0].flag).2] else []) +
      Delivered(Apply(v, ops[0]), ops[1..])
  }

  /** First in, first out: what was popped and what is left are what was there and what was accepted. */
  lemma {:induction false} QueueIsFifo<T>(v: View<T>, ops: seq<Op<T>>)
    requires QueueOps(ops)
    ensures Delivered(v, ops) + Run(v, ops).items == v.items + Accepted(v, ops)
    decreases |ops|
  {
    if ops == [] {
      assert Delivered(v, ops) + Run(v, ops).items == v.items == v.items + Accepted(v, ops);
    } else {
      var op, rest := ops[0], ops[1..];
      var w := Apply(v, op);
      assert QueueOp(op) && QueueOps(rest);
      QueueIsFifo(w, rest);
      FifoStep(v, op, Delivered(w, rest), Run(w, rest).items, Accepted(w, rest));
    }
  }

  lemma {:induction false} FifoStep<T>(v: View<T>, op: Op<T>, d: seq<Option<T>>, left: seq<Option<T>>,
                                       a: seq<Option<T>>)
    requires QueueOp(op)
    requires d + left == Apply(v, op).items + a
    ensures (if op.PopOp? && Result(v, op) == Ok then [Popped(v, op.flag).2] else []) + d + left ==
            v.items + ((if op.PushOp? && Result(v, op) == Ok then [op.entry] else []) + a)
  {
    if Result(v, op) != Ok {
      assert [] + d + left == d + left && [] + a == a;
    } else if op.PopOp? {
      assert [v.items[0]] + (v.items[1..] + a) == v.items + a;
      assert [v.items[0]] + (d + left) == [v.items[0]] + d + left;
      assert [] + a == a;
    } else {
      assert v.items + [op.entry] + a == v.items + ([op.entry] + a);
      assert [] + d + left == d + left;
    }
  }

  /**
   Popping never makes room again: the end of the entries moves by one for every append
   accepted, so that a new vector accepts at most three quarters of its size in its life.
   */
  lemma {:induction false} AppendBudget<T>(v: View<T>, ops: seq<Op<T>>)
    requires QueueOps(ops) && v.low + |v.items| <= NFTP_SIZE
    ensures var w := Run(v, ops); w.low + |w.items| == v.low + |v.items| + |Accepted(v, ops)|
    ensures v == Fresh() ==> |Accepted(v, ops)| <= 24
    decreases |ops|
  {
    if ops != [] {
      assert QueueOp(ops[0]) && QueueOps(ops[1..]);
      AppendBudget(Apply(v, ops[0]), ops[1..]);
      RunFits(v, ops);
    }
  }

  /** The budget is reached: once it is used up, appending fails for good. */
  lemma {:induction false} SpentForGood<T>(v: View<T>, ops: seq<Op<T>>)
    requires QueueOps(ops) && v.low + |v.items| == NFTP_SIZE
    ensures Accepted(v, ops) == []
  {
    AppendBudget(v, ops);
    RunFits(v, ops);
  }

  /** The guard of `nftp_vec_push` itself, on line 110, which this model does not use. */
  predicate PushGuard<T>(v: View<T>) {
    v.low + |v.items| <= NFTP_SIZE
  }

  /**
   That guard never refuses in a run of a new queue, yet there is a slot to write to if and
   only if fewer than 24 appends were accepted.
   */
  lemma {:induction false} GuardTooLate<T>(ops: seq<Op<T>>)
    requires QueueOps(ops)
    ensures PushGuard(Run<T>(Fresh(), ops))
    ensures TailFree(Run<T>(Fresh(), ops)) <==> |Accepted<T>(Fresh(), ops)| < 24
  {
    AppendBudget<T>(Fresh(), ops);
    RunFits<T>(Fresh(), ops);
  }
}
