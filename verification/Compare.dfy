/** `cJSON_Compare`: what it decides, and when that is an equality. */
module Compare {
  import opened Bytes
  import opened Doubles
  import opened Numbers
  import opened Json

  // ----- names and look-up -----

  /** `tolower` in the C locale. */
  function Lower(b: byte): byte {
    if 65 <= b <= 90 then b + 32 else b
  }

  function Fold(s: bytes): (r: bytes)
    ensures |r| == |s|
    ensures forall k | 0 <= k < |s| :: r[k] == Lower(s[k])
  {
    seq(|s|, k requires 0 <= k < |s| => Lower(s[k]))
  }

  /** Two names that `strcmp`, or `case_insensitive_strcmp`, calls equal; NULL equals nothing. */
  predicate Match(x: Option<bytes>, y: Option<bytes>, cased: bool) {
    x.Some? && y.Some? && if cased then x == y else Fold(x.value) == Fold(y.value)
  }

  /** `get_object_item`: a case-sensitive look-up gives up at the first item without a name. */
  function Find(kids: seq<Json>, name: Option<bytes>, cased: bool): (r: Option<nat>)
    ensures r.Some? ==> r.value < |kids| && Match(name, kids[r.value].key, cased)
  {
    if name == None || kids == [] || (cased && kids[0].key == None) then None
    else if Match(name, kids[0].key, cased) then Some(0)
    else match Find(kids[1..], name, cased)
      case None => None
      case Some(k) => Some(k + 1)
  }

  /** The same byte, or the capital and the small form of one of the 26 letters. */
  predicate SameLetter(a: byte, b: byte) {
    || a == b
    || ('A' as int <= a <= 'Z' as int && b - 'a' as int == a - 'A' as int)
    || ('A' as int <= b <= 'Z' as int && a - 'a' as int == b - 'A' as int)
  }

  /** Two names that differ in the case of letters at most. */
  predicate SameName(x: bytes, y: bytes) {
    |x| == |y| && forall k | 0 <= k < |x| :: SameLetter(x[k], y[k])
  }

  lemma {:induction false} LowerIff(a: byte, b: byte)
    ensures Lower(a) == Lower(b) <==> SameLetter(a, b)
  {
  }

  /** Names match without regard to case if and only if they agree letter by letter, but for the case. */
  lemma {:induction false} MatchIff(x: bytes, y: bytes)
    ensures Match(Some(x), Some(y), false) <==> SameName(x, y)
    ensures Match(Some(x), Some(y), true) <==> x == y
  {
    hide Lower, SameLetter;
    forall a: byte, b: byte ensures Lower(a) == Lower(b) <==> SameLetter(a, b) {
      LowerIff(a, b);
    }
    if SameName(x, y) {
      assert Fold(x) == Fold(y);
    }
    if Match(Some(x), Some(y), false) {
      forall k | 0 <= k < |x| ensures SameLetter(x[k], y[k]) {
        assert Fold(x)[k] == Fold(y)[k];
      }
    }
  }

  /** The item is under the name. */
  predicate Bears(j: Json, name: bytes, cased: bool) {
    j.key.Some? && if cased then j.key.value == name else SameName(name, j.key.value)
  }

  /** `k` is the first item under the name; a case-sensitive look-up stops at an item without one. */
  predicate IsFirst(kids: seq<Json>, name: bytes, cased: bool, k: nat) {
    && k < |kids| && Bears(kids[k], name, cased)
    && forall i | 0 <= i < k :: !Bears(kids[i], name, cased) && (cased ==> kids[i].key.Some?)
  }

  /** A look-up finds the first item under the name, and nothing if there is none. */
  lemma {:induction false} FindsFirst(kids: seq<Json>, name: bytes, cased: bool)
    ensures forall k: nat :: Find(kids, Some(name), cased) == Some(k) <==> IsFirst(kids, name, cased, k)
  {
    hide Match, SameName;
    if kids != [] {
      FindsFirst(kids[1..], name, cased);
      if kids[0].key.Some? {
        MatchIff(name, kids[0].key.value);
      }
      NoName(kids[0], name, cased);
      forall k: nat ensures Find(kids, Some(name), cased) == Some(k) <==> IsFirst(kids, name, cased, k) {
        if k > 0 {
          FirstLater(kids, name, cased, k);
        }
      }
    }
  }

  lemma {:induction false} NoName(j: Json, name: bytes, cased: bool)
    ensures j.key == None ==> !Match(Some(name), j.key, cased)
  {
  }

  lemma {:induction false} FirstLater(kids: seq<Json>, name: bytes, cased: bool, k: nat)
    requires kids != [] && k > 0
    ensures IsFirst(kids, name, cased, k) <==>
              && !Bears(kids[0], name, cased) && (cased ==> kids[0].key.Some?)
              && IsFirst(kids[1..], name, cased, k - 1)
  {
    hide Bears;
    assert forall i | 0 < i < |kids| :: kids[i] == kids[1..][i - 1];
  }

  // ----- comparison -----

  function Size(j: Json): (n: nat)
    ensures n > 0
    ensures forall k {:trigger j.kids[k]} | 0 <= k < |j.kids| :: Size(j.kids[k]) < n
    decreases j, 0
  {
    1 + SizeAll(j.kids)
  }

  function SizeAll(js: seq<Json>): (n: nat)
    ensures forall k {:trigger js[k]} | 0 <= k < |js| :: Size(js[k]) <= n
    decreases js
  {
    if js == [] then 0
    else
      assert forall k {:trigger js[k]} | 1 <= k < |js| :: js[k] == js[1..][k - 1];
      Size(js[0]) + SizeAll(js[1..])
  }

  /** `cJSON_Compare` of two trees that share no cell. */
  predicate Equal(a: Json, b: Json, cased: bool)
    decreases Size(a) + Size(b), 1
  {
    && a.kind == b.kind && a.kind != Invalid
    && match a.kind
       case Number => CompareDouble(a.num, b.num)
       case String => a.str.Some? && a.str == b.str
       case Raw => a.str.Some? && a.str == b.str
       case Array => |a.kids| == |b.kids| && forall k | 0 <= k < |a.kids| :: Equal(a.kids[k], b.kids[k], cased)
       case Object => Covers(a, b, cased) && Covers(b, a, cased)
       case _ => true
  }

  /** Every member of `a` is found in `b` under its name and compares equal. */
  predicate Covers(a: Json, b: Json, cased: bool)
    decreases Size(a) + Size(b), 0
  {
    forall i | 0 <= i < |a.kids| ::
      var k := Find(b.kids, a.kids[i].key, cased);
      k.Some? && Equal(a.kids[i], b.kids[k.value], cased)
  }

  // ----- symmetry -----

  lemma {:induction false} DoubleSymmetric(a: real, b: real)
    ensures CompareDouble(a, b) <==> CompareDouble(b, a)
  {
  }

  /** For all trees whatever. */
  lemma {:induction false} Symmetric(a: Json, b: Json, cased: bool)
    ensures Equal(a, b, cased) <==> Equal(b, a, cased)
    decreases Size(a)
  {
    hide Covers, CompareDouble, Size;
    DoubleSymmetric(a.num, b.num);
    if a.kind == Array && b.kind == Array && |a.kids| == |b.kids| {
      forall k | 0 <= k < |a.kids|
        ensures Equal(a.kids[k], b.kids[k], cased) <==> Equal(b.kids[k], a.kids[k], cased)
      {
        Symmetric(a.kids[k], b.kids[k], cased);
      }
    }
  }

  // ----- transitivity -----

  /** Names that match are found, or not, alike. */
  lemma {:induction false} FindAlike(kids: seq<Json>, x: Option<bytes>, y: Option<bytes>, cased: bool)
    requires Match(x, y, cased)
    ensures Find(kids, x, cased) == Find(kids, y, cased)
  {
    hide Fold;
    if kids != [] {
      FindAlike(kids[1..], x, y, cased);
    }
  }

  /** Every number in the tree is among `numbers`. */
  predicate NumbersIn(j: Json, numbers: real -> bool)
    decreases j
  {
    && (j.kind == Number ==> numbers(j.num))
    && forall k | 0 <= k < |j.kids| :: NumbersIn(j.kids[k], numbers)
  }

  /** `compare_double` is transitive among these numbers. */
  ghost predicate NumbersTransitive(numbers: real -> bool) {
    forall x, y, z {:trigger CompareDouble(x, y), CompareDouble(y, z)} |
      numbers(x) && numbers(y) && numbers(z) && CompareDouble(x, y) && CompareDouble(y, z) :: CompareDouble(x, z)
  }

  /** Comparison is transitive among the trees with these numbers. */
  ghost predicate TreesTransitive(numbers: real -> bool, cased: bool) {
    forall a: Json, b: Json, c: Json {:trigger Equal(a, b, cased), Equal(b, c, cased)} |
      NumbersIn(a, numbers) && NumbersIn(b, numbers) && NumbersIn(c, numbers) &&
      Equal(a, b, cased) && Equal(b, c, cased) ::
      Equal(a, c, cased)
  }

  lemma {:induction false} Transitive(a: Json, b: Json, c: Json, numbers: real -> bool, cased: bool)
    requires NumbersTransitive(numbers) && NumbersIn(a, numbers) && NumbersIn(b, numbers) && NumbersIn(c, numbers)
    requires Equal(a, b, cased) && Equal(b, c, cased)
    ensures Equal(a, c, cased)
    decreases Size(a) + Size(c), 1
  {
    hide Covers, CompareDouble;
    match a.kind {
      case Array =>
        forall k | 0 <= k < |a.kids| ensures Equal(a.kids[k], c.kids[k], cased) {
          Transitive(a.kids[k], b.kids[k], c.kids[k], numbers, cased);
        }
      case Object =>
        CoversTransitive(a, b, c, numbers, cased);
        CoversTransitive(c, b, a, numbers, cased);
      case _ =>
    }
  }

  lemma {:induction false} CoversTransitive(a: Json, b: Json, c: Json, numbers: real -> bool, cased: bool)
    requires NumbersTransitive(numbers) && NumbersIn(a, numbers) && NumbersIn(b, numbers) && NumbersIn(c, numbers)
    requires Covers(a, b, cased) && Covers(b, c, cased)
    ensures Covers(a, c, cased)
    decreases Size(a) + Size(c), 0
  {
    hide Equal, CompareDouble, Find, Match, NumbersTransitive;
    forall i | 0 <= i < |a.kids|
      ensures var k := Find(c.kids, a.kids[i].key, cased);
              k.Some? && Equal(a.kids[i], c.kids[k.value], cased)
    {
      var m := Find(b.kids, a.kids[i].key, cased).value;
      FindAlike(c.kids, a.kids[i].key, b.kids[m].key, cased);
      var k := Find(c.kids, b.kids[m].key, cased).value;
      Transitive(a.kids[i], b.kids[m], c.kids[k], numbers, cased);
    }
  }

  /**
   Whatever numbers are allowed, comparison is transitive among all trees with them, repeated
   and missing names included, if and only if it is among the numbers themselves.
   */
  lemma {:induction false} TransitiveIff(numbers: real -> bool, cased: bool)
    ensures TreesTransitive(numbers, cased) <==> NumbersTransitive(numbers)
  {
    hide Equal, NumbersIn, CompareDouble;
    if NumbersTransitive(numbers) {
      forall a: Json, b: Json, c: Json |
        NumbersIn(a, numbers) && NumbersIn(b, numbers) && NumbersIn(c, numbers) &&
        Equal(a, b, cased) && Equal(b, c, cased)
        ensures Equal(a, c, cased)
      {
        Transitive(a, b, c, numbers, cased);
      }
    }
    if TreesTransitive(numbers, cased) {
      forall x: real, y: real, z: real |
        numbers(x) && numbers(y) && numbers(z) && CompareDouble(x, y) && CompareDouble(y, z)
        ensures CompareDouble(x, z)
      {
        Numeral(x, y, numbers, cased);
        Numeral(y, z, numbers, cased);
        Numeral(x, z, numbers, cased);
      }
    }
  }

  lemma {:induction false} Numeral(x: real, y: real, numbers: real -> bool, cased: bool)
    ensures Equal(NumberItem(x), NumberItem(y), cased) <==> CompareDouble(x, y)
    ensures numbers(x) ==> NumbersIn(NumberItem(x), numbers)
    ensures numbers(y) ==> NumbersIn(NumberItem(y), numbers)
  {
    hide CompareDouble;
  }

  const LIMIT_52: int := 4503599627370496

  predicate IsInteger52(x: real) {
    x == x.Floor as real && -LIMIT_52 < x.Floor < LIMIT_52
  }

  /** On integers below 2^52 `compare_double` is equality. */
  lemma {:induction false} IntegersCompare(m: int, n: int)
    requires -LIMIT_52 < m < LIMIT_52 && -LIMIT_52 < n < LIMIT_52
    ensures CompareDouble(m as real, n as real) <==> m == n
  {
    var max := if Abs(m as real) > Abs(n as real) then Abs(m as real) else Abs(n as real);
    assert max <= (LIMIT_52 - 1) as real;
    assert max * EPSILON < 1.0;
    assert max * EPSILON >= 0.0;
  }

  /** So integers below 2^52 are such numbers. */
  lemma {:induction false} IntegersTransitive()
    ensures NumbersTransitive(IsInteger52)
  {
    hide CompareDouble;
    forall x: real, y: real, z: real |
      IsInteger52(x) && IsInteger52(y) && IsInteger52(z) && CompareDouble(x, y) && CompareDouble(y, z)
      ensures CompareDouble(x, z)
    {
      IntegersCompare(x.Floor, y.Floor);
      IntegersCompare(y.Floor, z.Floor);
    }
  }

  /** All doubles are not: 1, 1 + 2^-52 and 1 + 2^-51. */
  lemma {:induction false} NotTransitive(cased: bool)
    ensures IsDouble(1.0) && IsDouble(1.0 + EPSILON) && IsDouble(1.0 + 2.0 * EPSILON)
    ensures var a, b, c := NumberItem(1.0), NumberItem(1.0 + EPSILON), NumberItem(1.0 + 2.0 * EPSILON);
            Equal(a, b, cased) && Equal(b, c, cased) && !Equal(a, c, cased)
  {
    hide IsDouble;
    NearOne();
    assert CompareDouble(1.0, 1.0 + EPSILON);
    assert CompareDouble(1.0 + EPSILON, 1.0 + 2.0 * EPSILON);
    assert !CompareDouble(1.0, 1.0 + 2.0 * EPSILON);
  }

  lemma {:induction false} NearOne()
    ensures IsDouble(1.0) && IsDouble(1.0 + EPSILON) && IsDouble(1.0 + 2.0 * EPSILON)
  {
    hide Pow2, IsDouble;
    var u := Pow2(-52);
    assert u == EPSILON by { PowersOfTwo(); }
    Representable(1.0, LIMIT_52, -52);
    Representable(1.0 + EPSILON, LIMIT_52 + 1, -52);
    Representable(1.0 + 2.0 * EPSILON, LIMIT_52 + 2, -52);
  }

  // ----- comparison as equality of maps -----

  /** Names that match are those with the same canonical form. */
  function Canon(name: bytes, cased: bool): bytes {
    if cased then name else Fold(name)
  }

  /** The items as a map from canonical names; the first of several with one name counts. */
  function Table(kids: seq<Json>, cased: bool): (m: map<bytes, Json>)
    ensures forall n | n in m :: Size(m[n]) <= SizeAll(kids)
  {
    if kids == [] then map[]
    else
      var rest := Table(kids[1..], cased);
      if kids[0].key.Some? then rest[Canon(kids[0].key.value, cased) := kids[0]] else rest
  }

  predicate AllNamed(kids: seq<Json>) {
    forall i | 0 <= i < |kids| :: kids[i].key.Some?
  }

  predicate DistinctNames(kids: seq<Json>, cased: bool) {
    forall i, k | 0 <= i < k < |kids| :: !Match(kids[i].key, kids[k].key, cased)
  }

  /** Members of objects have distinct names, in the given mode, throughout the tree. */
  predicate WellKeyed(j: Json, cased: bool)
    decreases j
  {
    && (j.kind == Object ==> AllNamed(j.kids) && DistinctNames(j.kids, cased))
    && (j.kind == Array || j.kind == Object ==> forall k | 0 <= k < |j.kids| :: WellKeyed(j.kids[k], cased))
  }

  /** Arrays agree in order and objects as maps. */
  predicate Same(a: Json, b: Json, cased: bool)
    decreases Size(a)
  {
    && a.kind == b.kind && a.kind != Invalid
    && match a.kind
       case Number => CompareDouble(a.num, b.num)
       case String => a.str.Some? && a.str == b.str
       case Raw => a.str.Some? && a.str == b.str
       case Array => |a.kids| == |b.kids| && forall k | 0 <= k < |a.kids| :: Same(a.kids[k], b.kids[k], cased)
       case Object =>
         var s, t := Table(a.kids, cased), Table(b.kids, cased);
         s.Keys == t.Keys && forall n | n in s && n in t :: Same(s[n], t[n], cased)
       case _ => true
  }

  /** Look-up finds what the map says. */
  lemma {:induction false} FindTable(kids: seq<Json>, name: bytes, cased: bool)
    requires AllNamed(kids)
    ensures var k := Find(kids, Some(name), cased);
            var m := Table(kids, cased);
            if Canon(name, cased) in m then k.Some? && kids[k.value] == m[Canon(name, cased)] else k == None
  {
    hide Fold, Size, SizeAll;
    if kids != [] {
      FindTable(kids[1..], name, cased);
    }
  }

  lemma {:induction false} TableFrom(kids: seq<Json>, cased: bool, n: bytes) returns (i: nat)
    requires n in Table(kids, cased)
    ensures i < |kids| && kids[i].key.Some? && Canon(kids[i].key.value, cased) == n && Table(kids, cased)[n] == kids[i]
  {
    hide Canon, Size, SizeAll;
    if kids[0].key.Some? && Canon(kids[0].key.value, cased) == n {
      i := 0;
    } else {
      var k := TableFrom(kids[1..], cased, n);
      i := k + 1;
    }
  }

  lemma {:induction false} TableOwn(kids: seq<Json>, cased: bool, i: nat)
    requires AllNamed(kids) && DistinctNames(kids, cased) && i < |kids|
    ensures var n := Canon(kids[i].key.value, cased); n in Table(kids, cased) && Table(kids, cased)[n] == kids[i]
  {
    hide Fold, Size, SizeAll;
    if i > 0 {
      assert !Match(kids[0].key, kids[i].key, cased);
      TableOwn(kids[1..], cased, i - 1);
    }
  }

  /** On trees with distinct names, comparison is equality of the data. */
  lemma {:induction false} EqualIffSame(a: Json, b: Json, cased: bool)
    requires WellKeyed(a, cased) && WellKeyed(b, cased)
    ensures Equal(a, b, cased) <==> Same(a, b, cased)
    decreases Size(a), 1
  {
    hide CompareDouble, Covers, Table, AllNamed, DistinctNames;
    if a.kind == b.kind == Array && |a.kids| == |b.kids| {
      forall k | 0 <= k < |a.kids| ensures Equal(a.kids[k], b.kids[k], cased) <==> Same(a.kids[k], b.kids[k], cased) {
        EqualIffSame(a.kids[k], b.kids[k], cased);
      }
    } else if a.kind == b.kind == Object {
      if Equal(a, b, cased) {
        CoversKeys(a, b, cased);
        CoversKeys(b, a, cased);
        CoversSame(a, b, cased);
      }
      if Same(a, b, cased) {
        SameCovers(a, b, cased);
      }
    }
  }

  lemma {:induction false} CoversKeys(a: Json, b: Json, cased: bool)
    requires AllNamed(b.kids) && Covers(a, b, cased)
    ensures Table(a.kids, cased).Keys <= Table(b.kids, cased).Keys
  {
    hide Equal, Table, Find, Canon, AllNamed;
    forall n | n in Table(a.kids, cased) ensures n in Table(b.kids, cased) {
      var i := TableFrom(a.kids, cased, n);
      FindTable(b.kids, a.kids[i].key.value, cased);
    }
  }

  lemma {:induction false} CoversSame(a: Json, b: Json, cased: bool)
    requires WellKeyed(a, cased) && WellKeyed(b, cased) && a.kind == b.kind == Object && Covers(a, b, cased)
    ensures var s, t := Table(a.kids, cased), Table(b.kids, cased);
            forall n | n in s && n in t :: Same(s[n], t[n], cased)
    decreases Size(a), 0
  {
    hide Equal, Same, Table, Find, Canon, AllNamed, DistinctNames;
    var s, t := Table(a.kids, cased), Table(b.kids, cased);
    forall n | n in s && n in t ensures Same(s[n], t[n], cased) {
      var i := TableFrom(a.kids, cased, n);
      FindTable(b.kids, a.kids[i].key.value, cased);
      EqualIffSame(s[n], t[n], cased);
    }
  }

  lemma {:induction false} SameCovers(a: Json, b: Json, cased: bool)
    requires WellKeyed(a, cased) && WellKeyed(b, cased) && a.kind == b.kind == Object && Same(a, b, cased)
    ensures Covers(a, b, cased) && Covers(b, a, cased)
    decreases Size(a), 0
  {
    hide Equal, Table, Find, Canon, AllNamed, DistinctNames, Fold;
    var s, t := Table(a.kids, cased), Table(b.kids, cased);
    forall i | 0 <= i < |a.kids|
      ensures var k := Find(b.kids, a.kids[i].key, cased); k.Some? && Equal(a.kids[i], b.kids[k.value], cased)
    {
      MemberOf(a, cased, i);
      FindTable(b.kids, a.kids[i].key.value, cased);
      var n := Canon(a.kids[i].key.value, cased);
      assert n in s.Keys && n in t.Keys;
      EqualIffSame(a.kids[i], t[n], cased);
    }
    forall i | 0 <= i < |b.kids|
      ensures var k := Find(a.kids, b.kids[i].key, cased); k.Some? && Equal(b.kids[i], a.kids[k.value], cased)
    {
      MemberOf(b, cased, i);
      FindTable(a.kids, b.kids[i].key.value, cased);
      var n := Canon(b.kids[i].key.value, cased);
      assert n in t.Keys && n in s.Keys;
      EqualIffSame(s[n], b.kids[i], cased);
      Symmetric(s[n], b.kids[i], cased);
    }
  }

  lemma {:induction false} MemberOf(a: Json, cased: bool, i: nat)
    requires WellKeyed(a, cased) && a.kind == Object && i < |a.kids|
    ensures a.kids[i].key.Some? && AllNamed(a.kids) && WellKeyed(a.kids[i], cased)
    ensures var n := Canon(a.kids[i].key.value, cased);
            n in Table(a.kids, cased) && Table(a.kids, cased)[n] == a.kids[i]
  {
    hide Table, Canon, DistinctNames;
    TableOwn(a.kids, cased, i);
  }

  // ----- reflexivity and key order -----

  /** Every item has a type that can be compared, and strings have a text. */
  predicate Comparable(j: Json)
    decreases j
  {
    && j.kind != Invalid && (j.kind == String || j.kind == Raw ==> j.str.Some?)
    && (j.kind == Array || j.kind == Object ==> forall k | 0 <= k < |j.kids| :: Comparable(j.kids[k]))
  }

  /** A tree with distinct names equals another with the same contents, such as its duplicate, if it can be compared. */
  lemma {:induction false} Reflexive(j: Json, cased: bool)
    requires WellKeyed(j, cased)
    ensures Equal(j, j, cased) <==> Comparable(j)
    decreases j
  {
    hide CompareDouble, Find, Canon, Table, DistinctNames, AllNamed, Match;
    DoubleReflexive(j.num);
    if j.kind == Array || j.kind == Object {
      forall k | 0 <= k < |j.kids| ensures Equal(j.kids[k], j.kids[k], cased) <==> Comparable(j.kids[k]) {
        Reflexive(j.kids[k], cased);
      }
    }
    if j.kind == Object {
      forall i | 0 <= i < |j.kids|
        ensures var k := Find(j.kids, j.kids[i].key, cased); k.Some? && j.kids[k.value] == j.kids[i]
      {
        MemberOf(j, cased, i);
        FindTable(j.kids, j.kids[i].key.value, cased);
      }
    }
  }

  lemma {:induction false} DoubleReflexive(d: real)
    ensures CompareDouble(d, d)
  {
  }

  /** The order of the members of an object does not matter. */
  lemma {:induction false} KeyOrderIrrelevant(a: Json, b: Json, cased: bool)
    requires WellKeyed(a, cased) && WellKeyed(b, cased) && Comparable(a)
    requires a.kind == b.kind == Object && multiset(a.kids) == multiset(b.kids)
    ensures Equal(a, b, cased)
  {
    hide Equal, Find, Canon, Table, Match, Comparable, WellKeyed, AllNamed, DistinctNames;
    SameItems(a.kids, b.kids);
    SameItems(b.kids, a.kids);
    KidsComparable(a);
    HalfOrder(a, b, cased);
    HalfOrder(b, a, cased);
    ObjectEqual(a, b, cased);
  }

  lemma {:induction false} SameItems(s: seq<Json>, t: seq<Json>)
    requires multiset(s) == multiset(t)
    ensures forall j | j in s :: j in t
  {
    forall j | j in s ensures j in t {
      assert j in multiset(t);
    }
  }

  lemma {:induction false} KidsComparable(j: Json)
    requires Comparable(j) && j.kind == Object
    ensures forall k | k in j.kids :: Comparable(k)
  {
  }

  lemma {:induction false} ObjectEqual(a: Json, b: Json, cased: bool)
    requires a.kind == b.kind == Object && Covers(a, b, cased) && Covers(b, a, cased)
    ensures Equal(a, b, cased)
  {
    hide Covers;
  }

  lemma {:induction false} HalfOrder(a: Json, b: Json, cased: bool)
    requires WellKeyed(a, cased) && WellKeyed(b, cased) && a.kind == b.kind == Object
    requires forall j | j in a.kids :: j in b.kids
    requires forall j | j in a.kids :: Comparable(j)
    ensures Covers(a, b, cased)
  {
    hide Equal, Find, Canon, Table, Match, Comparable, DistinctNames;
    forall i | 0 <= i < |a.kids|
      ensures var k := Find(b.kids, a.kids[i].key, cased); k.Some? && Equal(a.kids[i], b.kids[k.value], cased)
    {
      assert a.kids[i] in b.kids;
      var m :| 0 <= m < |b.kids| && b.kids[m] == a.kids[i];
      MemberOf(b, cased, m);
      FindTable(b.kids, a.kids[i].key.value, cased);
      Reflexive(a.kids[i], cased);
    }
  }
}
