/** `cJSON_Compare` as it runs, on trees of items. */
module CompareHeap {
  import opened Bytes
  import opened JsonValue
  import opened ChildList
  import opened Compare

  /** Two trees on which taking an item to equal itself cannot matter: they share no item, or equality to
      oneself holds anyway. */
  ghost predicate Apart(a: Item, b: Item)
    reads a`repr, a`model, b`repr, b`model
  {
    a.repr !! b.repr || (Storable(a.model) && Storable(b.model) && Steady(a.model) && Steady(b.model))
  }

  /** What the result of a comparison tells. */
  ghost predicate Tells(r: bool, a: Item, b: Item)
    reads a`repr, a`model, b`repr, b`model
  {
    && (Same(a.model, b.model) ==> r)
    && (r && Apart(a, b) ==> Same(a.model, b.model))
  }

  // ----- children -----

  function Total(v: Json, w: Json): nat {
    Size(v) + Size(w)
  }

  lemma TreeIsList(item: Item)
    requires item.Tree()
    ensures IsList(item, item.kids)
  {
  }

  lemma KidTree(item: Item, k: nat)
    requires item.Tree() && k < |item.kids|
    ensures item.kids[k].Tree() && item.kids[k].repr <= item.repr
  {
  }

  lemma KindTells(item: Item)
    requires item.Tree()
    ensures item.kind == match item.model
                         case Null => KindNull
                         case False => KindFalse
                         case True => KindTrue
                         case Number(_) => KindNumber
                         case String(_) => KindString
                         case Array(_) => KindArray
                         case Object(_) => KindObject
    ensures item.model.Number? ==> item.number == item.model.number
    ensures item.model.String? ==> item.text == item.model.text
    ensures item.model.Array? ==> ElementsMatch(item.model.elements, item.kids)
    ensures item.model.Object? ==> MembersMatch(item.model.members, item.kids)
  {
  }

  lemma {:induction false} ElementKid(e: Elements, kids: seq<Item>, k: nat)
    requires ElementsMatch(e, kids) && k < |kids|
    ensures Size(kids[k].model) < 1 + ElementsSize(e)
    ensures StorableElements(e) ==> Storable(kids[k].model)
    ensures SteadyElements(e) ==> Steady(kids[k].model)
    decreases |kids|
  {
    if k == 0 {
    } else {
      ElementKid(e.next, kids[1..], k - 1);
    }
  }

  lemma {:induction false} MemberKid(m: Members, kids: seq<Item>, k: nat)
    requires MembersMatch(m, kids) && k < |kids|
    ensures Size(kids[k].model) < 1 + MembersSize(m)
    ensures StorableMembers(m) ==> Storable(kids[k].model)
    ensures SteadyMembers(m) ==> Steady(kids[k].model)
    ensures kids[k].name.Some?
    decreases |kids|
  {
    if k == 0 {
    } else {
      MemberKid(m.next, kids[1..], k - 1);
    }
  }

  lemma Kid(item: Item, k: nat)
    requires item.Tree() && k < |item.kids|
    ensures item.kids[k].Tree() && item.kids[k].repr <= item.repr
    ensures Size(item.kids[k].model) < Size(item.model)
    ensures Storable(item.model) ==> Storable(item.kids[k].model)
    ensures Steady(item.model) ==> Steady(item.kids[k].model)
  {
    hide Item.Tree, StorableElements, StorableMembers, SteadyElements, SteadyMembers, ElementsMatch, MembersMatch;
    KidTree(item, k);
    KindTells(item);
    HasChildren(item);
    match item.model
    case Array(e) => ElementKid(e, item.kids, k);
    case Object(m) => MemberKid(m, item.kids, k);
    case _ =>
  }

  lemma HasChildren(item: Item)
    requires item.Tree() && item.kids != []
    ensures item.model.Array? || item.model.Object?
  {
  }

  lemma KidsApart(a: Item, i: nat, b: Item, j: nat)
    requires a.Tree() && b.Tree() && i < |a.kids| && j < |b.kids| && Apart(a, b)
    ensures Apart(a.kids[i], b.kids[j])
  {
    hide Item.Tree, Storable, Steady;
    Kid(a, i);
    Kid(b, j);
  }

  /** The member `get_object_item` finds. */
  lemma {:induction false} NamedKid(m: Members, kids: seq<Item>, k: nat, key: bytes)
    requires MembersMatch(m, kids)
    ensures Names(kids, k, key) ==> Find(m, key) == Some(kids[k].model)
    ensures Find(m, key).Some? ==> exists j :: 0 <= j < |kids| && Names(kids, j, key)
    decreases |kids|
  {
    if kids == [] {
    } else if m.key == key {
      assert Names(kids, 0, key);
    } else {
      var rest := kids[1..];
      NamedKid(m.next, rest, if k == 0 then 0 else k - 1, key);
      if Names(kids, k, key) {
        assert k > 0 && rest[k - 1] == kids[k];
        assert forall i :: 0 <= i < k - 1 ==> rest[i] == kids[i + 1];
      }
      if j :| 0 <= j < |rest| && Names(rest, j, key) {
        assert forall i :: 0 < i <= j ==> kids[i] == rest[i - 1];
        assert kids[0].name == Some(m.key) && kids[j + 1] == rest[j];
        assert Names(kids, j + 1, key);
      }
    }
  }

  // ----- the comparison -----

  /** `cJSON_Compare`: an item equals itself; otherwise trees that share nothing, and steady trees in any
      case, compare as their values do. */
  method CompareItems(a: Item?, b: Item?) returns (r: bool)
    requires a != null ==> a.Tree()
    requires b != null ==> b.Tree()
    ensures a == null || b == null ==> !r
    ensures a != null && a == b ==> r
    ensures a != null && b != null ==> Tells(r, a, b)
    decreases if a == null || b == null then 0 else Total(a.model, b.model), 2
  {
    hide Item.Tree, CompareDouble, SameElements, Covers, Storable, Steady;
    if a == null || b == null {
      return false;
    }
    KindTells(a);
    KindTells(b);
    if a.kind != b.kind {
      return false;
    }
    if a == b {
      SelfApart(a);
      return true;
    }
    match a.kind {
      case KindNumber => r := CompareDouble(a.number as real, b.number as real);
      case KindString => r := a.text == b.text;
      case KindArray => r := CompareChildren(a, b);
      case KindObject =>
        r := CompareMembers(a, b);
        if r {
          r := CompareMembers(b, a);
        }
      case _ => r := true;
    }
  }

  lemma SelfApart(a: Item)
    requires a.Tree()
    ensures Tells(true, a, a)
  {
    hide Same, Steady, Storable;
    assert a in a.repr;
    if Apart(a, a) {
      CompareExactly(a.model, a.model);
    }
  }

  /** The loop over two arrays. */
  method CompareChildren(a: Item, b: Item) returns (r: bool)
    requires a.Tree() && b.Tree() && a.model.Array? && b.model.Array?
    ensures SameElements(a.model.elements, b.model.elements) ==> r
    ensures r && Apart(a, b) ==> SameElements(a.model.elements, b.model.elements)
    decreases Total(a.model, b.model), 0
  {
    hide Item.Tree, Same, Storable, Steady, Apart, ElementsMatch, Size;
    KindTells(a);
    KindTells(b);
    FirstChild(a);
    FirstChild(b);
    ghost var same := SameElements(a.model.elements, b.model.elements);
    ghost var e, f, i := a.model.elements, b.model.elements, 0;
    var left, right := a.child, b.child;
    while left != null && right != null
      invariant i <= |a.kids| && i <= |b.kids|
      invariant left == (if i < |a.kids| then a.kids[i] else null)
      invariant right == if i < |b.kids| then b.kids[i] else null
      invariant ElementsMatch(e, a.kids[i..]) && ElementsMatch(f, b.kids[i..])
      invariant same ==> SameElements(e, f)
      invariant Apart(a, b) && SameElements(e, f) ==> same
      decreases |a.kids| - i
    {
      Kid(a, i);
      Kid(b, i);
      NextKid(a, i);
      NextKid(b, i);
      NextElement(e, a.kids, i);
      NextElement(f, b.kids, i);
      r := CompareItems(left, right);
      if Apart(a, b) {
        KidsApart(a, i, b, i);
      }
      if !r {
        return;
      }
      e, f, i := e.next, f.next, i + 1;
      left, right := left.next, right.next;
    }
    LastElement(e, a.kids, i);
    LastElement(f, b.kids, i);
    r := left == right;
  }

  lemma FirstChild(item: Item)
    requires item.Tree()
    ensures item.child == if item.kids == [] then null else item.kids[0]
    ensures item.kids[0..] == item.kids
  {
  }

  lemma NextKid(item: Item, k: nat)
    requires item.Tree() && k < |item.kids|
    ensures item.kids[k].next == NextOf(item.kids, k)
  {
  }

  lemma NextElement(e: Elements, kids: seq<Item>, k: nat)
    requires k < |kids| && ElementsMatch(e, kids[k..])
    ensures e.Element? && e.value == kids[k].model && ElementsMatch(e.next, kids[k + 1..])
  {
    assert kids[k..][1..] == kids[k + 1..];
  }

  lemma LastElement(e: Elements, kids: seq<Item>, k: nat)
    requires k <= |kids| && ElementsMatch(e, kids[k..])
    ensures e.NoElement? <==> k == |kids|
  {
  }

  /** One of the two loops over members: every member of `a` has a partner in `b`. */
  method CompareMembers(a: Item, b: Item) returns (r: bool)
    requires a.Tree() && b.Tree() && a.model.Object? && b.model.Object?
    ensures Covers(a.model.members, b.model.members) ==> r
    ensures r && Apart(a, b) ==> Covers(a.model.members, b.model.members)
    decreases Total(a.model, b.model), 1
  {
    hide Item.Tree, Same, Storable, Steady, Apart, MembersMatch, Size, Names, Find;
    KindTells(a);
    KindTells(b);
    FirstChild(a);
    ghost var n := b.model.members;
    ghost var covered := Covers(a.model.members, n);
    ghost var m, i := a.model.members, 0;
    var current := a.child;
    while current != null
      invariant i <= |a.kids| && MembersMatch(m, a.kids[i..])
      invariant current == if i < |a.kids| then a.kids[i] else null
      invariant covered ==> Covers(m, n)
      invariant Apart(a, b) && Covers(m, n) ==> covered
      decreases |a.kids| - i
    {
      Kid(a, i);
      NextKid(a, i);
      NextMember(m, a.kids, i);
      r := ComparePartner(current, a, i, b);
      if !r {
        return;
      }
      m, i, current := m.next, i + 1, current.next;
    }
    LastMember(m, a.kids, i);
    r := true;
  }

  /** A member of `a` against the member of that name in `b`. */
  method ComparePartner(kid: Item, ghost a: Item, ghost i: nat, b: Item) returns (r: bool)
    requires a.Tree() && b.Tree() && b.model.Object? && i < |a.kids| && kid == a.kids[i] && kid.name.Some?
    ensures var found := Find(b.model.members, kid.name.value);
            && (found.Some? && Same(kid.model, found.value) ==> r)
            && (r && Apart(a, b) ==> found.Some? && Same(kid.model, found.value))
    decreases Total(a.model, b.model), 0
  {
    hide Item.Tree, Same, Storable, Steady, Apart, MembersMatch, Size, Find, Names, IsList;
    KindTells(b);
    TreeIsList(b);
    var found;
    ghost var k;
    found, k := GetObjectItem(b, kid.name, b.kids);
    NamedKid(b.model.members, b.kids, k, kid.name.value);
    r := false;
    if found != null {
      NameInside(b.kids, k, kid.name.value);
      Kid(a, i);
      Kid(b, k);
      if Apart(a, b) {
        KidsApart(a, i, b, k);
      }
      r := CompareItems(kid, found);
    }
  }

  lemma NameInside(kids: seq<Item>, k: nat, name: bytes)
    requires Names(kids, k, name)
    ensures k < |kids|
  {
  }

  lemma NextMember(m: Members, kids: seq<Item>, k: nat)
    requires k < |kids| && MembersMatch(m, kids[k..])
    ensures m.Member? && m.value == kids[k].model && kids[k].name == Some(m.key) && MembersMatch(m.next, kids[k + 1..])
  {
    assert kids[k..][1..] == kids[k + 1..];
  }

  lemma LastMember(m: Members, kids: seq<Item>, k: nat)
    requires k <= |kids| && MembersMatch(m, kids[k..])
    ensures m.NoMember? <==> k == |kids|
  {
  }
}
