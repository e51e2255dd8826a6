/** `cJSON_Compare` with exact case. */
module Compare {
  import opened Bytes
  import opened JsonValue

  // ----- what a tree means when the order of members does not count -----

  datatype Meaning =
    | MNull
    | MFalse
    | MTrue
    | MNumber(number: int)
    | MString(text: bytes)
    | MArray(elements: seq<Meaning>)
    | MObject(members: map<bytes, Meaning>)

  function MeaningOf(v: Json): Meaning {
    match v
    case Null => MNull
    case False => MFalse
    case True => MTrue
    case Number(n) => MNumber(n)
    case String(s) => MString(s)
    case Array(e) => MArray(MeaningOfElements(e))
    case Object(m) => MObject(MeaningOfMembers(m))
  }

  function MeaningOfElements(e: Elements): seq<Meaning> {
    if e.NoElement? then [] else [MeaningOf(e.value)] + MeaningOfElements(e.next)
  }

  function MeaningOfMembers(m: Members): map<bytes, Meaning> {
    if m.NoMember? then map[] else MeaningOfMembers(m.next)[m.key := MeaningOf(m.value)]
  }

  // ----- unique keys -----

  function Keys(m: Members): set<bytes> {
    if m.NoMember? then {} else {m.key} + Keys(m.next)
  }

  predicate UniqueKeys(v: Json) {
    match v
    case Array(e) => UniqueKeysElements(e)
    case Object(m) => UniqueKeysMembers(m)
    case _ => true
  }

  predicate UniqueKeysElements(e: Elements) {
    e.Element? ==> UniqueKeys(e.value) && UniqueKeysElements(e.next)
  }

  predicate UniqueKeysMembers(m: Members) {
    m.Member? ==> m.key !in Keys(m.next) && UniqueKeys(m.value) && UniqueKeysMembers(m.next)
  }

  // ----- the comparison -----

  /** `get_object_item` with exact case: the first member of that name. */
  function Find(m: Members, key: bytes): (r: Option<Json>)
    ensures r.Some? ==> r.value < m
  {
    if m.NoMember? then None
    else if m.key == key then Some(m.value)
    else Find(m.next, key)
  }

  /** `DBL_EPSILON`. */
  const EPSILON: real := 1.0 / 4503599627370496.0

  function Abs(x: real): real {
    if x < 0.0 then -x else x
  }

  /** `compare_double`, over the reals. */
  predicate CompareDouble(a: real, b: real) {
    var largest := if Abs(a) > Abs(b) then Abs(a) else Abs(b);
    Abs(a - b) <= largest * EPSILON
  }

  lemma CompareIntegers(a: int, b: int)
    requires Int32(a) && Int32(b)
    ensures CompareDouble(a as real, b as real) <==> a == b
  {
  }

  function Size(v: Json): nat {
    match v
    case Array(e) => 1 + ElementsSize(e)
    case Object(m) => 1 + MembersSize(m)
    case _ => 1
  }

  function ElementsSize(e: Elements): nat {
    if e.NoElement? then 0 else 1 + Size(e.value) + ElementsSize(e.next)
  }

  function MembersSize(m: Members): nat {
    if m.NoMember? then 0 else 1 + Size(m.value) + MembersSize(m.next)
  }

  lemma {:induction false} FindSmaller(m: Members, key: bytes)
    ensures Find(m, key).Some? ==> Size(Find(m, key).value) < MembersSize(m)
  {
    if m.NoMember? || m.key == key {
    } else {
      FindSmaller(m.next, key);
    }
  }

  /** `cJSON_Compare` as a function; objects are checked both ways. */
  predicate Same(a: Json, b: Json)
    decreases Size(a) + Size(b)
  {
    match (a, b)
    case (Null, Null) => true
    case (False, False) => true
    case (True, True) => true
    case (Number(x), Number(y)) => CompareDouble(x as real, y as real)
    case (String(s), String(t)) => s == t
    case (Array(e), Array(f)) => SameElements(e, f)
    case (Object(m), Object(n)) => Covers(m, n) && Covers(n, m)
    case _ => false
  }

  predicate SameElements(e: Elements, f: Elements)
    decreases ElementsSize(e) + ElementsSize(f)
  {
    if e.NoElement? || f.NoElement? then e == f
    else Same(e.value, f.value) && SameElements(e.next, f.next)
  }

  /** Every member of `m` has a partner in `n`. */
  predicate Covers(m: Members, n: Members)
    decreases MembersSize(m) + MembersSize(n)
  {
    if m.NoMember? then true
    else
      FindSmaller(n, m.key);
      var found := Find(n, m.key);
      found.Some? && Same(m.value, found.value) && Covers(m.next, n)
  }

  // ----- when comparing is equality of meanings -----

  /** Members of one name agree: what `get_object_item` does not see of an object, because a member of
      the same name stands before it, means nothing new. */
  predicate Steady(v: Json) {
    match v
    case Array(e) => SteadyElements(e)
    case Object(m) => SteadyMembers(m)
    case _ => true
  }

  predicate SteadyElements(e: Elements) {
    e.Element? ==> Steady(e.value) && SteadyElements(e.next)
  }

  predicate SteadyMembers(m: Members) {
    m.Member? ==>
      && Steady(m.value) && SteadyMembers(m.next)
      && (m.key in MeaningOfMembers(m.next) ==> MeaningOfMembers(m.next)[m.key] == MeaningOf(m.value))
  }

  lemma {:induction false} FindMeaning(m: Members, key: bytes)
    ensures MeaningOfMembers(m).Keys == Keys(m)
    ensures Find(m, key).Some? <==> key in Keys(m)
    ensures Find(m, key).Some? ==> MeaningOfMembers(m)[key] == MeaningOf(Find(m, key).value)
    ensures SteadyMembers(m) && Find(m, key).Some? ==> Steady(Find(m, key).value)
    ensures StorableMembers(m) && Find(m, key).Some? ==> Storable(Find(m, key).value)
  {
    if m.NoMember? {
    } else {
      FindMeaning(m.next, key);
    }
  }

  ghost predicate Within(m: map<bytes, Meaning>, n: map<bytes, Meaning>) {
    forall k :: k in m ==> k in n && m[k] == n[k]
  }

  /** Every member of `m` is steady, and so is its partner in `n`, which means the same. */
  predicate Matched(m: Members, n: Members) {
    m.Member? ==>
      && Find(n, m.key).Some? && Steady(m.value) && Steady(Find(n, m.key).value)
      && MeaningOf(m.value) == MeaningOf(Find(n, m.key).value)
      && Matched(m.next, n)
  }

  /** Comparing, exactly: on all trees of 32-bit integers, repeated keys or not, two trees compare equal if
      and only if both are steady and they mean the same. */
  lemma {:induction false} CompareExactly(a: Json, b: Json)
    requires Storable(a) && Storable(b)
    ensures Same(a, b) <==> Steady(a) && Steady(b) && MeaningOf(a) == MeaningOf(b)
    decreases Size(a) + Size(b)
  {
    hide CompareDouble, SteadyElements, SteadyMembers, StorableElements, StorableMembers;
    match (a, b)
    case (Number(x), Number(y)) => CompareIntegers(x, y);
    case (Array(e), Array(f)) => ElementsExactly(e, f);
    case (Object(m), Object(n)) =>
      CoversExactly(m, n);
      CoversExactly(n, m);
      MatchedBothWays(m, n);
    case _ =>
  }

  lemma {:induction false} ElementsExactly(e: Elements, f: Elements)
    requires StorableElements(e) && StorableElements(f)
    ensures SameElements(e, f) <==>
            SteadyElements(e) && SteadyElements(f) && MeaningOfElements(e) == MeaningOfElements(f)
    decreases ElementsSize(e) + ElementsSize(f)
  {
    hide Same, MeaningOf, Steady, Storable;
    if e.NoElement? || f.NoElement? {
    } else {
      CompareExactly(e.value, f.value);
      ElementsExactly(e.next, f.next);
      var s, t := MeaningOfElements(e), MeaningOfElements(f);
      assert s[0] == MeaningOf(e.value) && s[1..] == MeaningOfElements(e.next);
      assert t[0] == MeaningOf(f.value) && t[1..] == MeaningOfElements(f.next);
    }
  }

  lemma {:induction false} CoversExactly(m: Members, n: Members)
    requires StorableMembers(m) && StorableMembers(n)
    ensures Covers(m, n) <==> Matched(m, n)
    decreases MembersSize(m) + MembersSize(n)
  {
    hide Same, MeaningOf, Steady, Storable;
    if m.NoMember? {
    } else {
      FindSmaller(n, m.key);
      FindMeaning(n, m.key);
      if Find(n, m.key).Some? {
        CompareExactly(m.value, Find(n, m.key).value);
      }
      CoversExactly(m.next, n);
    }
  }

  lemma MatchedBothWays(m: Members, n: Members)
    ensures Matched(m, n) && Matched(n, m) <==>
            SteadyMembers(m) && SteadyMembers(n) && MeaningOfMembers(m) == MeaningOfMembers(n)
  {
    hide Matched, SteadyMembers, MeaningOfMembers;
    if Matched(m, n) && Matched(n, m) {
      MatchedWithin(m, n);
      MatchedWithin(n, m);
    } else if SteadyMembers(m) && SteadyMembers(n) && MeaningOfMembers(m) == MeaningOfMembers(n) {
      WithinMatched(m, n);
      WithinMatched(n, m);
    }
  }

  lemma {:induction false} MatchedWithin(m: Members, n: Members)
    requires Matched(m, n)
    ensures SteadyMembers(m) && Within(MeaningOfMembers(m), MeaningOfMembers(n))
  {
    hide Steady, MeaningOf;
    if m.NoMember? {
    } else {
      FindMeaning(n, m.key);
      MatchedWithin(m.next, n);
    }
  }

  lemma {:induction false} WithinMatched(m: Members, n: Members)
    requires SteadyMembers(m) && SteadyMembers(n) && Within(MeaningOfMembers(m), MeaningOfMembers(n))
    ensures Matched(m, n)
  {
    hide Steady, MeaningOf;
    if m.NoMember? {
    } else {
      var all, rest := MeaningOfMembers(m), MeaningOfMembers(m.next);
      FindMeaning(n, m.key);
      forall k | k in rest
        ensures k in MeaningOfMembers(n) && rest[k] == MeaningOfMembers(n)[k]
      {
        assert all[k] == rest[k];
      }
      WithinMatched(m.next, n);
    }
  }

  // ----- what follows -----

  /** Comparing is symmetric and transitive on all trees, and reflexive exactly on the steady ones. */
  lemma CompareIsPartialEquivalence(a: Json, b: Json, c: Json)
    requires Storable(a) && Storable(b) && Storable(c)
    ensures Same(a, b) ==> Same(b, a)
    ensures Same(a, b) && Same(b, c) ==> Same(a, c)
    ensures Same(a, a) <==> Steady(a)
  {
    hide Same, Steady, MeaningOf, Storable;
    CompareExactly(a, a);
    CompareExactly(a, b);
    CompareExactly(b, a);
    CompareExactly(b, c);
    CompareExactly(a, c);
  }

  /** Trees without repeated keys are steady. */
  lemma {:induction false} UniqueIsSteady(v: Json)
    requires UniqueKeys(v)
    ensures Steady(v)
  {
    match v
    case Array(e) => UniqueElementsSteady(e);
    case Object(m) => UniqueMembersSteady(m);
    case _ =>
  }

  lemma {:induction false} UniqueElementsSteady(e: Elements)
    requires UniqueKeysElements(e)
    ensures SteadyElements(e)
  {
    if e.NoElement? {
    } else {
      UniqueIsSteady(e.value);
      UniqueElementsSteady(e.next);
    }
  }

  lemma {:induction false} UniqueMembersSteady(m: Members)
    requires UniqueKeysMembers(m)
    ensures SteadyMembers(m)
  {
    if m.NoMember? {
    } else {
      UniqueIsSteady(m.value);
      UniqueMembersSteady(m.next);
      FindMeaning(m.next, m.key);
    }
  }

  /** So without repeated keys, two trees compare equal exactly when they are equal up to the order of
      members. */
  lemma CompareIsSameMeaning(a: Json, b: Json)
    requires UniqueKeys(a) && UniqueKeys(b) && Storable(a) && Storable(b)
    ensures Same(a, b) <==> MeaningOf(a) == MeaningOf(b)
  {
    hide Same, Steady, MeaningOf, Storable, UniqueKeys;
    CompareExactly(a, b);
    UniqueIsSteady(a);
    UniqueIsSteady(b);
  }

  /** ... and comparing is an equivalence relation. */
  lemma CompareIsEquivalence(a: Json, b: Json, c: Json)
    requires UniqueKeys(a) && UniqueKeys(b) && UniqueKeys(c)
    requires Storable(a) && Storable(b) && Storable(c)
    ensures Same(a, a)
    ensures Same(a, b) ==> Same(b, a)
    ensures Same(a, b) && Same(b, c) ==> Same(a, c)
  {
    hide Same, Steady, Storable, UniqueKeys;
    UniqueIsSteady(a);
    CompareIsPartialEquivalence(a, b, c);
  }

  /** A repeated key does no harm as long as the values agree ... */
  lemma RepeatedKeyAgrees(key: bytes)
    requires NoNul(key)
    ensures var v := Object(Member(key, Null, Member(key, Null, NoMember))); !UniqueKeys(v) && Same(v, v)
  {
    var last := Member(key, Null, NoMember);
    assert MeaningOfMembers(last)[key] == MNull;
    assert StorableMembers(NoMember) && StorableMembers(last);
    assert SteadyMembers(NoMember) && SteadyMembers(last);
    CompareExactly(Object(Member(key, Null, last)), Object(Member(key, Null, last)));
  }

  /** ... but an object with two different values under one name differs from every separate copy of it. */
  lemma RepeatedKeyDiffersFromCopy(key: bytes)
    requires NoNul(key)
    ensures var v := Object(Member(key, Null, Member(key, True, NoMember))); !Same(v, v)
  {
    var last := Member(key, True, NoMember);
    assert MeaningOfMembers(last)[key] == MTrue;
    assert StorableMembers(NoMember) && StorableMembers(last);
    assert Storable(True) && StorableMembers(Member(key, Null, last));
    CompareExactly(Object(Member(key, Null, last)), Object(Member(key, Null, last)));
  }
}
