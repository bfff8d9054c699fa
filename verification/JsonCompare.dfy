/** cJSON_Compare with case-sensitive names, and what it decides. */
module JsonCompare {
  import opened Bytes
  import opened JsonTree
  import opened JsonString

  // ---- sizes, for recursion on both trees at once ----

  function Size(j: Json): (n: nat)
    decreases j, 1
  {
    match j
    case Array(items) => 1 + SizeOfItems(items)
    case Object(members) => 1 + SizeOfMembers(members)
    case _ => 0
  }

  function SizeOfItems(items: seq<Json>): (n: nat)
    decreases items, 0
  {
    if items == [] then 0 else 1 + Size(items[0]) + SizeOfItems(items[1..])
  }

  function SizeOfMembers(members: seq<Member>): (n: nat)
    decreases members, 0
  {
    if members == [] then 0 else 1 + Size(members[0].value) + SizeOfMembers(members[1..])
  }

  // ---- the comparison ----

  /** get_object_item: the value of the first member with that name. */
  function Lookup(members: seq<Member>, key: seq<byte>): (r: Option<Json>)
    ensures r.Some? ==> Size(r.value) < SizeOfMembers(members)
    ensures r.None? <==> forall m | m in members :: m.key != key
    ensures r.Some? ==> Member(key, r.value) in members
  {
    if members == [] then None
    else if members[0].key == key then Some(members[0].value)
    else Lookup(members[1..], key)
  }

  /** It is the first one, whatever stands behind it. */
  lemma {:induction false} LookupIsFirst(members: seq<Member>, i: nat)
    requires i < |members| && forall k :: 0 <= k < i ==> members[k].key != members[i].key
    ensures Lookup(members, members[i].key) == Some(members[i].value)
  {
    if i > 0 {
      LookupIsFirst(members[1..], i - 1);
    }
  }

  function Equal(a: Json, b: Json): bool
    decreases Size(a) + Size(b), 0
  {
    match (a, b)
    case (Null, Null) => true
    case (False, False) => true
    case (True, True) => true
    case (Number(x), Number(y)) => x == y
    case (String(s), String(t)) => s == t
    case (Raw(s), Raw(t)) => s == t
    case (Array(x), Array(y)) => EqualItems(x, y)
    case (Object(x), Object(y)) => Matched(x, y) && Matched(y, x)
    case _ => false
  }

  function EqualItems(x: seq<Json>, y: seq<Json>): bool
    decreases SizeOfItems(x) + SizeOfItems(y), 1
  {
    if x == [] || y == [] then x == [] && y == []
    else Equal(x[0], y[0]) && EqualItems(x[1..], y[1..])
  }

  /** Every member of `x` is equal to the first member of `y` with its name. */
  function Matched(x: seq<Member>, y: seq<Member>): bool
    decreases SizeOfMembers(x) + SizeOfMembers(y), |x| + 1
  {
    x == [] ||
    match Lookup(y, x[0].key)
    case None => false
    case Some(v) => Equal(x[0].value, v) && Matched(x[1..], y)
  }

  method FindItem(members: seq<Member>, key: seq<byte>) returns (r: Option<Json>)
    ensures r == Lookup(members, key)
  {
    var i := 0;
    assert members[0..] == members;
    while i < |members| && members[i].key != key
      invariant 0 <= i <= |members|
      invariant Lookup(members, key) == Lookup(members[i..], key)
    {
      assert members[i..][1..] == members[i + 1..];
      i := i + 1;
    }
    r := if i < |members| then Some(members[i].value) else None;
  }

  method Compare(a: Json, b: Json) returns (equal: bool)
    ensures equal == Equal(a, b)
    decreases Size(a) + Size(b), 0
  {
    match (a, b) {
      case (Null, Null) => equal := true;
      case (False, False) => equal := true;
      case (True, True) => equal := true;
      case (Number(x), Number(y)) => equal := x == y;
      case (String(s), String(t)) => equal := s == t;
      case (Raw(s), Raw(t)) => equal := s == t;
      case (Array(x), Array(y)) => equal := CompareItems(x, y);
      case (Object(x), Object(y)) =>
        equal := CompareMembers(x, y);
        if equal {
          equal := CompareMembers(y, x);
        }
      case _ => equal := false;
    }
  }

  /** The loop over two arrays: it stops at the end of the shorter one. */
  method CompareItems(x: seq<Json>, y: seq<Json>) returns (equal: bool)
    ensures equal == EqualItems(x, y)
    decreases SizeOfItems(x) + SizeOfItems(y), 1
  {
    var i := 0;
    assert x[0..] == x && y[0..] == y;
    while i < |x| && i < |y|
      invariant 0 <= i <= |x| && i <= |y|
      invariant EqualItems(x, y) == EqualItems(x[i..], y[i..])
      invariant SizeOfItems(x[i..]) <= SizeOfItems(x) && SizeOfItems(y[i..]) <= SizeOfItems(y)
    {
      assert x[i..][1..] == x[i + 1..] && y[i..][1..] == y[i + 1..];
      equal := Compare(x[i], y[i]);
      if !equal {
        return;
      }
      i := i + 1;
    }
    equal := i == |x| && i == |y|;
  }

  /** One of the two loops over objects. */
  method CompareMembers(x: seq<Member>, y: seq<Member>) returns (equal: bool)
    ensures equal == Matched(x, y)
    decreases SizeOfMembers(x) + SizeOfMembers(y), 1
  {
    var i := 0;
    assert x[0..] == x;
    while i < |x|
      invariant 0 <= i <= |x|
      invariant Matched(x, y) == Matched(x[i..], y)
      invariant SizeOfMembers(x[i..]) <= SizeOfMembers(x)
    {
      assert x[i..][1..] == x[i + 1..];
      var found := FindItem(y, x[i].key);
      if found.None? {
        return false;
      }
      equal := Compare(x[i].value, found.value);
      if !equal {
        return;
      }
      i := i + 1;
    }
    equal := true;
  }

  // ---- what is compared: trees up to the order of members ----

  datatype Canon =
    | CNull
    | CFalse
    | CTrue
    | CNumber(value: real)
    | CString(text: seq<byte>)
    | CRaw(raw: seq<byte>)
    | CArray(items: seq<Canon>)
    | CObject(fields: map<seq<byte>, Canon>)

  function Canonical(j: Json): Canon
    decreases j, 1
  {
    match j
    case Null => CNull
    case False => CFalse
    case True => CTrue
    case Number(v) => CNumber(v)
    case String(s) => CString(s)
    case Raw(s) => CRaw(s)
    case Array(items) => CArray(CanonicalItems(items))
    case Object(members) => CObject(Fields(members))
  }

  function CanonicalItems(items: seq<Json>): seq<Canon>
    decreases items, 0
  {
    if items == [] then [] else [Canonical(items[0])] + CanonicalItems(items[1..])
  }

  /** The value of each name: that of its first member. */
  function Fields(members: seq<Member>): map<seq<byte>, Canon>
    decreases members, 0
  {
    if members == [] then map[] else Fields(members[1..])[members[0].key := Canonical(members[0].value)]
  }

  /** In every object of the tree, members with the same name have the same value. */
  predicate Coherent(j: Json)
    decreases j, 1
  {
    match j
    case Array(items) => CoherentItems(items)
    case Object(members) =>
      CoherentValues(members) && forall m | m in members :: m.key in Fields(members) && Fields(members)[m.key] == Canonical(m.value)
    case _ => true
  }

  predicate CoherentItems(items: seq<Json>)
    decreases items, 0
  {
    items == [] || (Coherent(items[0]) && CoherentItems(items[1..]))
  }

  predicate CoherentValues(members: seq<Member>)
    decreases members, 0
  {
    members == [] || (Coherent(members[0].value) && CoherentValues(members[1..]))
  }

  lemma {:induction false} FieldsLookup(members: seq<Member>, key: seq<byte>)
    ensures key in Fields(members) <==> Lookup(members, key).Some?
    ensures key in Fields(members) ==> Fields(members)[key] == Canonical(Lookup(members, key).value)
  {
    if members != [] && members[0].key != key {
      FieldsLookup(members[1..], key);
    }
  }

  lemma {:induction false} CoherentMember(members: seq<Member>, m: Member)
    requires CoherentValues(members) && m in members
    ensures Coherent(m.value)
  {
    if m != members[0] {
      CoherentMember(members[1..], m);
    }
  }

  /** A member of `x` agrees with what its name stands for in `y`. */
  ghost predicate Agrees(m: Member, y: seq<Member>) {
    m.key in Fields(y) && Fields(y)[m.key] == Canonical(m.value)
  }

  /**
   * The comparison holds exactly when the two trees are coherent and the same up to the
   * order of members at every level.
   */
  lemma {:induction false} EqualIffSame(a: Json, b: Json)
    ensures Equal(a, b) <==> Coherent(a) && Coherent(b) && Canonical(a) == Canonical(b)
    decreases Size(a) + Size(b), 0
  {
    match (a, b) {
      case (Array(x), Array(y)) =>
        ItemsEqualIffSame(x, y);
      case (Object(x), Object(y)) =>
        ObjectsEqualIffSame(x, y);
      case _ =>
    }
  }

  lemma {:induction false} ItemsEqualIffSame(x: seq<Json>, y: seq<Json>)
    ensures EqualItems(x, y) <==> CoherentItems(x) && CoherentItems(y) && CanonicalItems(x) == CanonicalItems(y)
    decreases SizeOfItems(x) + SizeOfItems(y), 1
  {
    if x == [] {
      ItemsCoherentEmpty(x, y);
    } else if y == [] {
      ItemsCoherentEmpty(y, x);
    } else {
      EqualIffSame(x[0], y[0]);
      ItemsEqualIffSame(x[1..], y[1..]);
      assert CanonicalItems(x)[0] == Canonical(x[0]) && CanonicalItems(x)[1..] == CanonicalItems(x[1..]);
      assert CanonicalItems(y)[0] == Canonical(y[0]) && CanonicalItems(y)[1..] == CanonicalItems(y[1..]);
    }
  }

  lemma ItemsCoherentEmpty(x: seq<Json>, y: seq<Json>)
    requires x == []
    ensures CoherentItems(x) && (CanonicalItems(x) == CanonicalItems(y) <==> y == [])
  {
  }

  lemma {:induction false} MatchedIffAgrees(x: seq<Member>, y: seq<Member>)
    ensures Matched(x, y) ==> CoherentValues(x)
    ensures Matched(x, y) ==> forall m | m in x :: Agrees(m, y)
    ensures CoherentValues(x) && CoherentValues(y) && (forall m | m in x :: Agrees(m, y)) ==> Matched(x, y)
    decreases SizeOfMembers(x) + SizeOfMembers(y), |x| + 1
  {
    if x != [] {
      FieldsLookup(y, x[0].key);
      MatchedIffAgrees(x[1..], y);
      assert x == [x[0]] + x[1..];
      var r := Lookup(y, x[0].key);
      if r.Some? {
        EqualIffSame(x[0].value, r.value);
        if CoherentValues(y) {
          CoherentMember(y, Member(x[0].key, r.value));
        }
      }
      assert x[0] in x && forall m | m in x[1..] :: m in x;
    }
  }

  lemma ObjectsEqualIffSame(x: seq<Member>, y: seq<Member>)
    ensures Equal(Object(x), Object(y)) <==>
            Coherent(Object(x)) && Coherent(Object(y)) && Fields(x) == Fields(y)
    decreases SizeOfMembers(x) + SizeOfMembers(y), |x| + |y| + 2
  {
    MatchedIffAgrees(x, y);
    MatchedIffAgrees(y, x);
    if Matched(x, y) && Matched(y, x) {
      AgreeingFields(x, y);
    }
  }

  lemma AgreeingFields(x: seq<Member>, y: seq<Member>)
    requires (forall m | m in x :: Agrees(m, y)) && (forall m | m in y :: Agrees(m, x))
    ensures Fields(x) == Fields(y)
  {
    forall key
      ensures key in Fields(x) <==> key in Fields(y)
      ensures key in Fields(x) ==> Fields(x)[key] == Fields(y)[key]
    {
      FieldsLookup(x, key);
      FieldsLookup(y, key);
    }
  }

  // ---- trees with distinct names ----

  /** In every object of the tree the names are pairwise distinct. */
  predicate DistinctNames(j: Json)
    decreases j, 1
  {
    match j
    case Array(items) => DistinctInItems(items)
    case Object(members) =>
      DistinctInMembers(members)
      && forall i, k :: 0 <= i < k < |members| ==> members[i].key != members[k].key
    case _ => true
  }

  predicate DistinctInItems(items: seq<Json>)
    decreases items, 0
  {
    items == [] || (DistinctNames(items[0]) && DistinctInItems(items[1..]))
  }

  predicate DistinctInMembers(members: seq<Member>)
    decreases members, 0
  {
    members == [] || (DistinctNames(members[0].value) && DistinctInMembers(members[1..]))
  }

  lemma {:induction false} DistinctCoherent(j: Json)
    requires DistinctNames(j)
    ensures Coherent(j)
    decreases j, 1
  {
    match j
    case Array(items) => DistinctCoherentItems(items);
    case Object(members) =>
      DistinctCoherentMembers(members);
      forall m | m in members
        ensures Agrees(m, members)
      {
        DistinctFields(members, m);
      }
    case _ =>
  }

  lemma {:induction false} DistinctCoherentItems(items: seq<Json>)
    requires DistinctInItems(items)
    ensures CoherentItems(items)
    decreases items, 0
  {
    if items != [] {
      DistinctCoherent(items[0]);
      DistinctCoherentItems(items[1..]);
    }
  }

  lemma {:induction false} DistinctCoherentMembers(members: seq<Member>)
    requires DistinctInMembers(members)
    ensures CoherentValues(members)
    decreases members, 0
  {
    if members != [] {
      DistinctCoherent(members[0].value);
      DistinctCoherentMembers(members[1..]);
    }
  }

  lemma {:induction false} DistinctFields(members: seq<Member>, m: Member)
    requires m in members
    requires forall i, k :: 0 <= i < k < |members| ==> members[i].key != members[k].key
    ensures Agrees(m, members)
    decreases |members|
  {
    if m != members[0] {
      var k :| 0 < k < |members| && members[k] == m;
      assert m == members[1..][k - 1];
      DistinctFields(members[1..], m);
    }
  }

  /** On trees with distinct names the comparison decides equality up to the order of members. */
  lemma DistinctEqualIffSame(a: Json, b: Json)
    requires DistinctNames(a) && DistinctNames(b)
    ensures Equal(a, b) <==> Canonical(a) == Canonical(b)
  {
    DistinctCoherent(a);
    DistinctCoherent(b);
    EqualIffSame(a, b);
  }

  /** It is symmetric and transitive on all trees, and reflexive exactly on the coherent ones. */
  lemma EqualIsEquivalence(a: Json, b: Json, c: Json)
    ensures Equal(a, a) <==> Coherent(a)
    ensures Equal(a, b) <==> Equal(b, a)
    ensures Equal(a, b) && Equal(b, c) ==> Equal(a, c)
  {
    EqualIffSame(a, a);
    EqualIffSame(a, b);
    EqualIffSame(b, a);
    EqualIffSame(b, c);
    EqualIffSame(a, c);
  }

  /** A tree with two members of one name and different values differs from its own copy. */
  lemma RepeatedNameUnequalToCopy(key: seq<byte>)
    ensures
      var j := Object([Member(key, True), Member(key, False)]);
      !Equal(j, j)
  {
    var members := [Member(key, True), Member(key, False)];
    assert Lookup(members, key) == Some(True);
    assert members[1..][0] == Member(key, False);
    assert !Matched(members[1..], members);
  }
}
