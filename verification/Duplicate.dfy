/** `cJSON_Duplicate_rec` on the heap. */
module Duplicate {
  import opened Bytes
  import opened JsonValue
  import opened ChildList
  import opened Forest

  const CIRCULAR_LIMIT: nat := 10000

  /** Levels of children below the root. */
  function Height(v: Json): nat {
    match v
    case Array(e) => ElementsHeight(e)
    case Object(m) => MembersHeight(m)
    case _ => 0
  }

  function ElementsHeight(e: Elements): nat {
    if e.NoElement? then 0 else Max(1 + Height(e.value), ElementsHeight(e.next))
  }

  function MembersHeight(m: Members): nat {
    if m.NoMember? then 0 else Max(1 + Height(m.value), MembersHeight(m.next))
  }

  /** The depth limit counts children, not containers: an empty array or object at the bottom adds nothing. */
  lemma {:induction false} HeightAndNesting(v: Json)
    ensures Height(v) <= Nesting(v) <= Height(v) + 1
    ensures !v.Array? && !v.Object? ==> Height(v) == 0
    decreases v
  {
    match v
    case Array(e) => ElementsHeightAndNesting(e);
    case Object(m) => MembersHeightAndNesting(m);
    case _ =>
  }

  lemma {:induction false} ElementsHeightAndNesting(e: Elements)
    ensures NestingElements(e) <= ElementsHeight(e) <= NestingElements(e) + 1
    decreases e
  {
    if e.Element? {
      HeightAndNesting(e.value);
      ElementsHeightAndNesting(e.next);
    }
  }

  lemma {:induction false} MembersHeightAndNesting(m: Members)
    ensures NestingMembers(m) <= MembersHeight(m) <= NestingMembers(m) + 1
    decreases m
  {
    if m.Member? {
      HeightAndNesting(m.value);
      MembersHeightAndNesting(m.next);
    }
  }

  /** What a copy without recursion represents. */
  function Shallow(v: Json): Json {
    match v
    case Array(_) => Array(NoElement)
    case Object(_) => Object(NoMember)
    case _ => v
  }

  /** The copies made so far of the first of `kids`, all inside `foot`. */
  ghost predicate Copies(kids: seq<Item>, copies: seq<Item>, foot: set<Item>)
    reads kids, foot
  {
    && |copies| <= |kids| && Grove(copies, foot)
    && forall i :: 0 <= i < |copies| ==> copies[i].model == kids[i].model && copies[i].name == kids[i].name
  }

  lemma {:induction false} CopiedElements(e: Elements, kids: seq<Item>, copies: seq<Item>)
    requires ElementsMatch(e, kids) && |copies| == |kids|
    requires forall i :: 0 <= i < |kids| ==> copies[i].model == kids[i].model
    ensures ElementsMatch(e, copies)
    decreases |kids|
  {
    if kids == [] {
    } else {
      CopiedElements(e.next, kids[1..], copies[1..]);
    }
  }

  lemma {:induction false} CopiedMembers(m: Members, kids: seq<Item>, copies: seq<Item>)
    requires MembersMatch(m, kids) && |copies| == |kids|
    requires forall i :: 0 <= i < |kids| ==> copies[i].model == kids[i].model && copies[i].name == kids[i].name
    ensures MembersMatch(m, copies)
    decreases |kids|
  {
    if kids == [] {
    } else {
      CopiedMembers(m.next, kids[1..], copies[1..]);
    }
  }

  lemma {:induction false} ElementsWithin(e: Elements, kids: seq<Item>, bound: nat)
    requires ElementsMatch(e, kids)
    ensures ElementsHeight(e) <= bound <==> forall i :: 0 <= i < |kids| ==> 1 + Height(kids[i].model) <= bound
    decreases |kids|
  {
    if kids == [] {
    } else {
      ElementsWithin(e.next, kids[1..], bound);
      assert forall i :: 1 <= i < |kids| ==> kids[i] == kids[1..][i - 1];
      assert forall i :: 0 <= i < |kids| - 1 ==> kids[1..][i] == kids[i + 1];
    }
  }

  lemma {:induction false} MembersWithin(m: Members, kids: seq<Item>, bound: nat)
    requires MembersMatch(m, kids)
    ensures MembersHeight(m) <= bound <==> forall i :: 0 <= i < |kids| ==> 1 + Height(kids[i].model) <= bound
    decreases |kids|
  {
    if kids == [] {
    } else {
      MembersWithin(m.next, kids[1..], bound);
      assert forall i :: 1 <= i < |kids| ==> kids[i] == kids[1..][i - 1];
      assert forall i :: 0 <= i < |kids| - 1 ==> kids[1..][i] == kids[i + 1];
    }
  }

  lemma ChildrenWithin(v: Json, kids: seq<Item>, bound: nat)
    requires Children(v, kids)
    ensures Height(v) <= bound <==> forall i :: 0 <= i < |kids| ==> 1 + Height(kids[i].model) <= bound
  {
    match v
    case Array(e) => ElementsWithin(e, kids, bound);
    case Object(m) => MembersWithin(m, kids, bound);
    case _ =>
  }

  /** One allocation call. */
  method Allocate(grants: Allocator, calls: nat) returns (granted: bool, after: nat)
    ensures NeverFails(grants) ==> granted
  {
    granted, after := grants(calls), calls + 1;
  }

  /** The scalar fields of a copy. */
  method CopyFields(item: Item, grants: Allocator, calls: nat) returns (copy: Item?, after: nat)
    ensures NeverFails(grants) ==> copy != null
    ensures copy != null ==> fresh(copy) && Detached(copy) && copy.child == null && copy.kids == []
    ensures copy != null ==> copy.kind == item.kind && copy.number == item.number && copy.text == item.text
    ensures copy != null ==> copy.name == item.name && copy.repr == {copy}
  {
    var granted;
    granted, after := Allocate(grants, calls);
    if !granted {
      return null, after;
    }
    copy := new Item();
    copy.kind, copy.number := item.kind, item.number;
    if item.kind == KindString {
      granted, after := Allocate(grants, after);
      if !granted {
        return null, after;
      }
    }
    copy.text := item.text;
    if item.name.Some? {
      granted, after := Allocate(grants, after);
      if !granted {
        return null, after;
      }
    }
    copy.name := item.name;
  }

  /** Links a new copy behind the last one. */
  method StringOn(
      ghost kids: seq<Item>, ghost copies: seq<Item>, ghost foot: set<Item>, last: Item, item: Item)
    requires Distinct(copies) && Strung(copies) && copies != [] && last == copies[|copies| - 1]
    requires Detached(item) && item !in copies && Copies(kids, copies + [item], foot)
    modifies last`next, item`prev
    ensures Strung(copies + [item]) && Copies(kids, copies + [item], foot)
  {
    hide Item.Tree;
    ghost var all := copies + [item];
    LinksOnly(kids, copies, foot, last, item);
    forall i | 0 <= i < |all|
      ensures all[i].next == NextOf(all, i) && (i >= 1 ==> all[i].prev == PrevOf(all, i))
    {
      assert i < |copies| ==> all[i] == copies[i] && (i + 1 < |copies| ==> copies[i] != last);
    }
  }

  /** The assignments of `StringOn`: the trees do not depend on their roots' own links. */
  method LinksOnly(
      ghost kids: seq<Item>, ghost copies: seq<Item>, ghost foot: set<Item>, last: Item, item: Item)
    requires Copies(kids, copies + [item], foot) && copies != [] && last == copies[|copies| - 1]
    modifies last`next, item`prev
    ensures last.next == item && item.prev == last && Copies(kids, copies + [item], foot)
  {
    hide Item.Tree;
    ghost var all := copies + [item];
    OnlyRoots(all, |copies| - 1);
    OnlyRoots(all, |copies|);
    last.next := item;
    item.prev := last;
  }

  /** A new tree beside the copies is one more copy. */
  lemma OneMore(kids: seq<Item>, copies: seq<Item>, foot: set<Item>, item: Item)
    requires Copies(kids, copies, foot) && |copies| < |kids|
    requires item in item.repr && item.Tree() && foot !! item.repr
    requires item.model == kids[|copies|].model && item.name == kids[|copies|].name
    ensures Copies(kids, copies + [item], foot + item.repr)
  {
    hide Item.Tree;
    var all := copies + [item];
    assert forall i :: 0 <= i < |all| ==> all[i] == if i < |copies| then copies[i] else item;
  }

  lemma CopiesDistinct(kids: seq<Item>, copies: seq<Item>, foot: set<Item>)
    requires Copies(kids, copies, foot)
    ensures Distinct(copies) && forall x :: x in copies ==> x in foot
  {
  }

  lemma Kid(item: Item, k: nat)
    requires item.Tree() && k < |item.kids|
    ensures item.kids[k].Tree() && item.kids[k].repr < item.repr
    ensures item.kids[k].next == NextOf(item.kids, k)
  {
    assert item.kids[k] in item.repr;
  }

  lemma KidsInside(item: Item)
    requires item.Tree()
    ensures forall x :: x in item.kids ==> x in item.repr
  {
  }

  lemma FirstKid(item: Item)
    requires item.Tree()
    ensures item.child == if item.kids == [] then null else item.kids[0]
  {
  }

  method CopyChildren(item: Item, copy: Item, depth: nat, grants: Allocator, calls: nat)
    returns (ok: bool, after: nat, ghost copies: seq<Item>, ghost foot: set<Item>)
    requires item.Tree() && depth <= CIRCULAR_LIMIT && copy !in item.repr && copy.child == null
    modifies copy`child
    ensures fresh(foot)
    ensures ok ==> |copies| == |item.kids| && Copies(item.kids, copies, foot) && Strung(copies)
    ensures ok ==> copy.child == if copies == [] then null else copies[0]
    ensures ok ==> copies != [] ==> copies[0].prev == copies[|copies| - 1]
    ensures ok ==> forall i :: 0 <= i < |item.kids| ==> depth + 1 + Height(item.kids[i].model) <= CIRCULAR_LIMIT
    ensures NeverFails(grants)
            && (forall i :: 0 <= i < |item.kids| ==> depth + 1 + Height(item.kids[i].model) <= CIRCULAR_LIMIT)
            ==> ok
    decreases item.repr, 0
  {
    hide Item.Tree, Copies, Strung, Height;
    ok, after, copies, foot := false, calls, [], {};
    FirstKid(item);
    NoCopies(item.kids);
    var child := item.child;
    var last: Item? := null;
    while child != null
      invariant item.Tree() && Copies(item.kids, copies, foot) && Strung(copies) && fresh(foot)
      invariant |copies| <= |item.kids|
      invariant child == if |copies| < |item.kids| then item.kids[|copies|] else null
      invariant copy.child == if copies == [] then null else copies[0]
      invariant last == if copies == [] then null else copies[|copies| - 1]
      invariant forall i :: 0 <= i < |copies| ==> depth + 1 + Height(item.kids[i].model) <= CIRCULAR_LIMIT
      decreases |item.kids| - |copies|
    {
      Kid(item, |copies|);
      if depth >= CIRCULAR_LIMIT {
        return;
      }
      var newchild;
      newchild, after := Duplicate(child, depth + 1, true, grants, after);
      if newchild == null {
        return;
      }
      CopiesDistinct(item.kids, copies, foot);
      OneMore(item.kids, copies, foot, newchild);
      foot := foot + newchild.repr;
      if last != null {
        assert last in copies && last in foot && last !in item.repr && newchild !in item.repr;
        StringOn(item.kids, copies, foot, last, newchild);
      } else {
        assert copy !in foot && copy !in item.repr && copies + [newchild] == [newchild];
        KidsInside(item);
        copy.child := newchild;
        StrungOne(newchild);
      }
      last := newchild;
      copies := copies + [newchild];
      Kid(item, |copies| - 1);
      child := child.next;
    }
    if copy.child != null {
      CopiesDistinct(item.kids, copies, foot);
      assert copies[0] in copies && copies[0] in foot;
      CloseCopies(item.kids, copies, foot, copy.child, last);
    }
    ok := true;
  }

  /** The head's `prev` becomes the tail. */
  method CloseCopies(
      ghost kids: seq<Item>, ghost copies: seq<Item>, ghost foot: set<Item>, head: Item, last: Item?)
    requires Strung(copies) && copies != [] && head == copies[0] && Copies(kids, copies, foot)
    modifies head`prev
    ensures Strung(copies) && head.prev == last && Copies(kids, copies, foot)
  {
    hide Item.Tree, Grove;
    CloseRing(copies, foot, head, last);
  }

  lemma NoCopies(kids: seq<Item>)
    ensures Copies(kids, [], {}) && Strung([])
  {
  }

  /** `cJSON_Duplicate_rec`: a recursive copy is a fresh tree that represents the same value, and
      exists exactly when the tree is not too high (and memory lasts). */
  method Duplicate(item: Item?, depth: nat, recurse: bool, grants: Allocator, calls: nat)
    returns (copy: Item?, after: nat)
    requires item != null ==> item.Tree()
    requires depth <= CIRCULAR_LIMIT
    ensures item == null ==> copy == null
    ensures copy != null ==> fresh(copy.repr) && copy in copy.repr && copy.Tree() && Detached(copy)
    ensures copy != null ==> copy.name == item.name
    ensures copy != null ==> copy.model == if recurse then item.model else Shallow(item.model)
    ensures copy != null && recurse ==> depth + Height(item.model) <= CIRCULAR_LIMIT
    ensures item != null && NeverFails(grants) && (recurse ==> depth + Height(item.model) <= CIRCULAR_LIMIT)
            ==> copy != null
    decreases if item == null then {} else item.repr, 1
  {
    hide Item.Tree, Copies, Strung, Height;
    after := calls;
    if item == null {
      return null, after;
    }
    copy, after := CopyFields(item, grants, after);
    if copy == null {
      return;
    }
    if !recurse {
      AdoptNone(item, copy);
      return;
    }
    TreeChildren(item, CIRCULAR_LIMIT - depth);
    var ok;
    ghost var copies, foot;
    ok, after, copies, foot := CopyChildren(item, copy, depth, grants, after);
    if !ok {
      return null, after;
    }
    Adopt(item, copy, copies, foot);
  }

  lemma TreeChildren(item: Item, bound: nat)
    requires item.Tree()
    ensures Height(item.model) <= bound <==>
            forall i :: 0 <= i < |item.kids| ==> 1 + Height(item.kids[i].model) <= bound
  {
    ChildrenWithin(item.model, item.kids, bound);
  }

  /** Ghost bookkeeping: a finished copy owns its children. */
  ghost method Adopt(item: Item, copy: Item, copies: seq<Item>, foot: set<Item>)
    requires item.Tree() && copy !in item.repr && |copies| == |item.kids|
    requires Copies(item.kids, copies, foot) && Strung(copies) && copy !in foot
    requires copies != [] ==> copies[0].prev == copies[|copies| - 1]
    requires copy.child == if copies == [] then null else copies[0]
    requires copy.kind == item.kind && copy.number == item.number && copy.text == item.text
    modifies copy`model, copy`kids, copy`repr
    ensures copy.Tree() && copy.model == item.model && copy.repr == {copy} + foot
  {
    hide Item.Tree, Children, Shape, Strung;
    ItemShape(item);
    CopiesDistinct(item.kids, copies, foot);
    SameChildren(item.model, item.kids, copies);
    hide Copies;
    copy.model, copy.kids, copy.repr := item.model, copies, {copy} + foot;
    Assemble(copy, foot);
  }

  lemma ItemShape(item: Item)
    requires item.Tree()
    ensures Shape(item.kind, item.number, item.text, item.model) && Children(item.model, item.kids)
  {
  }

  lemma SameChildren(v: Json, kids: seq<Item>, copies: seq<Item>)
    requires Children(v, kids) && |copies| == |kids|
    requires forall i :: 0 <= i < |kids| ==> copies[i].model == kids[i].model && copies[i].name == kids[i].name
    ensures Children(v, copies)
  {
    match v
    case Array(e) => CopiedElements(e, kids, copies);
    case Object(m) => CopiedMembers(m, kids, copies);
    case _ =>
  }

  ghost method AdoptNone(item: Item, copy: Item)
    requires item.Tree() && copy.child == null && copy.kids == [] && copy.repr == {copy}
    requires copy.kind == item.kind && copy.number == item.number && copy.text == item.text
    modifies copy`model
    ensures copy.Tree() && copy.model == Shallow(item.model)
  {
    copy.model := Shallow(item.model);
  }
}
