/** The child lists of cJSON on the heap: a `next` chain from the parent's `child`, with `prev` links
    the other way and the head's `prev` pointing at the tail. */
module ChildList {
  import opened Bytes
  import opened JsonValue

  datatype Kind = KindNull | KindFalse | KindTrue | KindNumber | KindString | KindArray | KindObject

  class Item {
    var next: Item?
    var prev: Item?
    var child: Item?
    var kind: Kind
    var number: int
    var text: bytes
    var name: Option<bytes>

    /** The children as a sequence, every item of this tree, and the tree they make up; the list
        operations below do not rely on them. */
    ghost var kids: seq<Item>
    ghost var repr: set<Item>
    ghost var model: Json

    /** `cJSON_New_Item`. */
    constructor ()
      ensures next == null && prev == null && child == null && name == None
      ensures kids == [] && repr == {this}
    {
      next, prev, child, kind, number, text, name := null, null, null, KindNull, 0, [], None;
      kids, repr, model := [], {this}, Null;
    }

    /** This item and everything below it form a tree of disjoint, properly linked lists that
        represents `model`; its own `next` and `prev` belong to its parent's list. */
    ghost predicate Tree()
      reads `kids, `repr, `model, `child, `kind, `number, `text, repr - {this}
      decreases repr
    {
      && this in repr
      && child == (if kids == [] then null else kids[0])
      && (forall i :: 0 <= i < |kids| ==> kids[i] in repr && kids[i].repr <= repr - {this})
      && (forall i :: 0 <= i < |kids| ==> kids[i] in kids[i].repr && kids[i].Tree())
      && (forall i :: 0 <= i < |kids| ==> kids[i].next == NextOf(kids, i) && kids[i].prev == PrevOf(kids, i))
      && (forall i, j :: 0 <= i < j < |kids| ==> kids[i].repr !! kids[j].repr)
      && Shape(kind, number, text, model)
      && Children(model, kids)
    }
  }

  predicate Shape(kind: Kind, number: int, text: bytes, v: Json) {
    match v
    case Null => kind == KindNull
    case False => kind == KindFalse
    case True => kind == KindTrue
    case Number(n) => kind == KindNumber && number == n
    case String(s) => kind == KindString && text == s
    case Array(_) => kind == KindArray
    case Object(_) => kind == KindObject
  }

  ghost predicate Children(v: Json, s: seq<Item>)
    reads s`model, s`name
  {
    match v
    case Array(e) => ElementsMatch(e, s)
    case Object(m) => MembersMatch(m, s)
    case _ => s == []
  }

  ghost predicate ElementsMatch(e: Elements, s: seq<Item>)
    reads s`model
  {
    if s == [] then e.NoElement?
    else e.Element? && s[0].model == e.value && ElementsMatch(e.next, s[1..])
  }

  ghost predicate MembersMatch(m: Members, s: seq<Item>)
    reads s`model, s`name
  {
    if s == [] then m.NoMember?
    else m.Member? && s[0].model == m.value && s[0].name == Some(m.key) && MembersMatch(m.next, s[1..])
  }

  ghost predicate Distinct(s: seq<Item>) {
    forall i, j :: 0 <= i < j < |s| ==> s[i] != s[j]
  }

  ghost function NextOf(s: seq<Item>, i: nat): Item?
    requires i < |s|
  {
    if i + 1 < |s| then s[i + 1] else null
  }

  /** The head's `prev` is the tail. */
  ghost function PrevOf(s: seq<Item>, i: nat): Item?
    requires i < |s|
  {
    if i > 0 then s[i - 1] else s[|s| - 1]
  }

  /** The children of `parent` are exactly `s`, in order. */
  ghost predicate IsList(parent: Item, s: seq<Item>)
    reads parent, s
  {
    && Distinct(s)
    && parent !in s
    && parent.child == (if s == [] then null else s[0])
    && forall i :: 0 <= i < |s| ==> s[i].next == NextOf(s, i) && s[i].prev == PrevOf(s, i)
  }

  ghost function Those(item: Item?): set<Item> {
    if item == null then {} else {item}
  }

  ghost predicate Detached(item: Item)
    reads item
  {
    item.next == null && item.prev == null
  }

  /** Assigns the `next` of `s[k]`; no other item of the list is that one. */
  method SetNext(item: Item, next: Item?, ghost s: seq<Item>, ghost k: int)
    requires Distinct(s) && 0 <= k < |s| && s[k] == item
    modifies item`next
    ensures forall i :: 0 <= i < |s| ==> s[i].next == if i == k then next else old(s[i].next)
  {
    item.next := next;
  }

  method SetPrev(item: Item, prev: Item?, ghost s: seq<Item>, ghost k: int)
    requires Distinct(s) && 0 <= k < |s| && s[k] == item
    modifies item`prev
    ensures forall i :: 0 <= i < |s| ==> s[i].prev == if i == k then prev else old(s[i].prev)
  {
    item.prev := prev;
  }

  /** Clears the links of `s[k]`. */
  method Forget(item: Item, ghost s: seq<Item>, ghost k: nat)
    requires Distinct(s) && k < |s| && s[k] == item
    modifies item`next, item`prev
    ensures Detached(item)
    ensures forall i :: 0 <= i < |s| && i != k ==> s[i].next == old(s[i].next) && s[i].prev == old(s[i].prev)
  {
    item.prev := null;
    item.next := null;
  }

  /** `add_item_to_array`: the result is the longer list exactly when the item was not in it and, unless
      the list was empty, was the end of its own chain. */
  method AddItem(parent: Item?, item: Item?, ghost s: seq<Item>) returns (ok: bool)
    requires parent != null ==> IsList(parent, s)
    modifies Those(parent)`child, Those(item)`next, Those(item)`prev, s`next, s`prev
    ensures ok <==> parent != null && item != null && parent != item
    ensures ok ==> (IsList(parent, s + [item]) <==> item !in s && (s == [] || old(item.next) == null))
    ensures !ok && parent != null ==> IsList(parent, s)
  {
    if item == null || parent == null || parent == item {
      return false;
    }
    var child := parent.child;
    if child == null {
      parent.child := item;
      item.prev := item;
      item.next := null;
    } else {
      Append(parent, item, s);
    }
    return true;
  }

  /** The part of `add_item_to_array` for a list that is not empty. */
  method Append(parent: Item, item: Item, ghost s: seq<Item>)
    requires IsList(parent, s) && s != [] && item != parent
    modifies item`prev, s`next, s`prev
    ensures IsList(parent, s + [item]) <==> item !in s && old(item.next) == null
  {
    var last := parent.child.prev;
    if last != null {
      last.next := item;
      item.prev := last;
      parent.child.prev := item;
    }
    if item in s {
      RepeatedItem(s, item);
    } else {
      LongerList(parent, s, item, last);
    }
  }

  lemma RepeatedItem(s: seq<Item>, item: Item)
    requires item in s
    ensures !Distinct(s + [item])
  {
    var t := s + [item];
    var i :| 0 <= i < |s| && s[i] == item;
    assert t[i] == t[|s|];
  }

  /** The links after appending: the item is the end of the list if it is the end of its own chain. */
  lemma LongerList(parent: Item, s: seq<Item>, item: Item, last: Item?)
    requires Distinct(s) && s != [] && parent !in s && item !in s && item != parent
    requires parent.child == s[0] && last == s[|s| - 1] && item.prev == last
    requires forall i :: 0 <= i < |s| ==> s[i].next == if i + 1 < |s| then s[i + 1] else item
    requires forall i :: 0 <= i < |s| ==> s[i].prev == if i > 0 then s[i - 1] else item
    ensures IsList(parent, s + [item]) <==> item.next == null
  {
    var t := s + [item];
    forall i | 0 <= i < |t|
      ensures t[i].prev == PrevOf(t, i) && (i < |s| ==> t[i].next == NextOf(t, i))
    {
      assert t[|s|] == item && forall j :: 0 <= j < |s| ==> t[j] == s[j];
      if i < |s| {
        assert s[i].next == if i + 1 < |s| then s[i + 1] else item;
        assert s[i].prev == if i > 0 then s[i - 1] else item;
      }
    }
    assert t[|s|] == item;
  }

  ghost function Without(s: seq<Item>, k: nat): seq<Item>
    requires k < |s|
  {
    s[..k] + s[k + 1..]
  }

  /** `cJSON_DetachItemViaPointer`; `k` is where `item` stands, if it is in the list at all. */
  method Detach(parent: Item?, item: Item?, ghost s: seq<Item>, ghost k: nat) returns (r: Item?)
    requires parent != null ==> IsList(parent, s)
    requires parent != null && item != null ==>
               (k < |s| && s[k] == item) || (item !in s && item.prev == null)
    modifies Those(parent)`child, s`next, s`prev
    ensures r == if parent != null && item != null && item in s then item else null
    ensures r != null ==> IsList(parent, s[..k] + s[k + 1..]) && Detached(r)
    ensures r == null && parent != null ==> IsList(parent, s)
  {
    if parent == null || item == null || (item != parent.child && item.prev == null) {
      return null;
    }
    Bypass(parent, item, s, k);
    Forget(item, s, k);
    RelinkWithout(parent, s, k);
    return item;
  }

  /** The links between the neighbours of a detached item. */
  method BypassBetween(item: Item, first: Item?, ghost s: seq<Item>, ghost k: nat)
    requires Distinct(s) && k < |s| && s[k] == item && first == s[0]
    requires forall i :: 0 <= i < |s| ==> s[i].next == NextOf(s, i) && s[i].prev == PrevOf(s, i)
    modifies s`next, s`prev
    ensures forall i :: 0 <= i < |s| ==>
              s[i].next == (if i + 1 == k then NextOf(s, k) else NextOf(s, i))
              && s[i].prev == if i == k + 1 then PrevOf(s, k) else PrevOf(s, i)
  {
    assert k > 0 ==> s[0] != s[k];
    hide Distinct;
    if item != first {
      SetNext(item.prev, item.next, s, k - 1);
    }
    if item.next != null {
      SetPrev(item.next, item.prev, s, k + 1);
    }
  }

  /** The pointer updates of `cJSON_DetachItemViaPointer` around the item. */
  method Bypass(parent: Item, item: Item, ghost s: seq<Item>, ghost k: nat)
    requires IsList(parent, s) && k < |s| && s[k] == item
    modifies parent`child, s`next, s`prev
    ensures parent.child == if k > 0 then s[0] else NextOf(s, 0)
    ensures forall i :: 0 <= i < |s| && i != k ==> BridgedOver(s, k, i)
  {
    assert k > 0 ==> s[0] != s[k];
    hide Distinct;
    BypassBetween(item, parent.child, s, k);
    BypassEnds(parent, item, s, k);
  }

  /** The first child, or the head's `prev`, when the detached item was head or tail. */
  method BypassEnds(parent: Item, item: Item, ghost s: seq<Item>, ghost k: nat)
    requires Distinct(s) && parent !in s && k < |s| && s[k] == item && parent.child == s[0]
    requires k > 0 ==> s[0] != s[k]
    requires forall i :: 0 <= i < |s| ==>
               s[i].next == (if i + 1 == k then NextOf(s, k) else NextOf(s, i))
               && s[i].prev == if i == k + 1 then PrevOf(s, k) else PrevOf(s, i)
    modifies parent`child, s`prev
    ensures parent.child == if k > 0 then s[0] else NextOf(s, 0)
    ensures forall i :: 0 <= i < |s| && i != k ==> BridgedOver(s, k, i)
  {
    hide Distinct;
    if item == parent.child {
      parent.child := item.next;
    } else if item.next == null {
      SetPrev(parent.child, item.prev, s, 0);
    }
  }

  /** The links that detaching `s[k]` leaves on the other items. */
  ghost predicate BridgedOver(s: seq<Item>, k: nat, i: nat)
    requires k < |s| && i < |s|
    reads s[i]
  {
    && s[i].next == NextOf(s, if i + 1 == k then k else i)
    && s[i].prev == PrevOf(s, if i == k + 1 || (i == 0 && k + 1 == |s|) then k else i)
  }

  lemma RelinkWithout(parent: Item, s: seq<Item>, k: nat)
    requires k < |s| && Distinct(s) && parent !in s
    requires parent.child == if k > 0 then s[0] else NextOf(s, 0)
    requires forall i :: 0 <= i < |s| && i != k ==> BridgedOver(s, k, i)
    ensures IsList(parent, Without(s, k))
  {
    var t := Without(s, k);
    WithoutDistinct(s, k);
    forall j | 0 <= j < |t|
      ensures t[j].next == NextOf(t, j) && t[j].prev == PrevOf(t, j)
    {
      var i := if j < k then j else j + 1;
      assert t[j] == s[i] && BridgedOver(s, k, i);
    }
  }

  lemma WithoutDistinct(s: seq<Item>, k: nat)
    requires k < |s| && Distinct(s)
    ensures Distinct(Without(s, k)) && s[k] !in Without(s, k)
    ensures forall x :: x in Without(s, k) ==> x in s
  {
  }

  lemma InsertedDistinct(s: seq<Item>, k: nat, item: Item)
    requires k <= |s| && Distinct(s) && item !in s
    ensures Distinct(Inserted(s, k, item))
    ensures forall x :: x in Inserted(s, k, item) ==> x in s || x == item
  {
  }

  /** `get_array_item`. */
  method GetItem(parent: Item, index: nat, ghost s: seq<Item>) returns (r: Item?)
    requires IsList(parent, s)
    ensures r == if index < |s| then s[index] else null
  {
    r := parent.child;
    var left: nat := index;
    ghost var at := 0;
    while r != null && left > 0
      invariant 0 <= at <= |s| && r == if at < |s| then s[at] else null
      invariant left + at == index
      decreases left
    {
      r, left, at := r.next, left - 1, at + 1;
    }
  }

  ghost function Inserted(s: seq<Item>, k: nat, item: Item): seq<Item>
    requires k <= |s|
  {
    s[..k] + [item] + s[k..]
  }

  /** `cJSON_InsertItemInArray`: past the end it appends. */
  method Insert(parent: Item, which: int, item: Item?, ghost s: seq<Item>) returns (ok: bool)
    requires IsList(parent, s)
    requires item != null ==> item !in s && (item == parent ==> which >= |s|)
    modifies Those(parent)`child, Those(item)`next, Those(item)`prev, s`next, s`prev
    ensures ok <==> which >= 0 && item != null && item != parent
    ensures ok ==> var at := if which < |s| then which else |s|;
                   (IsList(parent, s[..at] + [item] + s[at..]) <==>
                    which < |s| || s == [] || old(item.next) == null)
    ensures !ok ==> IsList(parent, s)
  {
    hide Distinct;
    if which < 0 || item == null {
      return false;
    }
    var after := GetItem(parent, which, s);
    if after == null {
      ok := AddItem(parent, item, s);
      assert ok ==> Inserted(s, |s|, item) == s + [item];
      return;
    }
    if after != parent.child && after.prev == null {
      return false;
    }
    item.next := after;
    item.prev := after.prev;
    InsertBefore(parent, after, item, s, which);
    RelinkInserted(parent, s, which, item);
    return true;
  }

  /** The pointer updates of `cJSON_InsertItemInArray`. */
  method InsertBefore(parent: Item, after: Item, item: Item, ghost s: seq<Item>, ghost k: nat)
    requires IsList(parent, s) && k < |s| && s[k] == after && item !in s && item != parent
    requires item.next == after && item.prev == PrevOf(s, k)
    modifies parent`child, s`next, s`prev
    ensures parent.child == if k > 0 then s[0] else item
    ensures forall i :: 0 <= i < |s| ==> MadeRoom(s, k, item, i)
  {
    assert k > 0 ==> s[0] != s[k];
    hide Distinct;
    SetPrev(after, item, s, k);
    if after == parent.child {
      parent.child := item;
    } else {
      SetNext(item.prev, item, s, k - 1);
    }
  }

  /** The links that inserting `item` before `s[k]` leaves on the items of `s`. */
  ghost predicate MadeRoom(s: seq<Item>, k: nat, item: Item, i: nat)
    requires k < |s| && i < |s|
    reads s[i]
  {
    && s[i].next == (if i + 1 == k then item else NextOf(s, i))
    && s[i].prev == (if i == k then item else PrevOf(s, i))
  }

  lemma RelinkInserted(parent: Item, s: seq<Item>, k: nat, item: Item)
    requires k < |s| && Distinct(s) && parent !in s && item !in s && item != parent
    requires parent.child == if k > 0 then s[0] else item
    requires item.next == s[k] && item.prev == PrevOf(s, k)
    requires forall i :: 0 <= i < |s| ==> MadeRoom(s, k, item, i)
    ensures IsList(parent, Inserted(s, k, item))
  {
    var t := Inserted(s, k, item);
    InsertedDistinct(s, k, item);
    forall j | 0 <= j < |t|
      ensures t[j].next == NextOf(t, j) && t[j].prev == PrevOf(t, j)
    {
      if j < k {
        assert t[j] == s[j] && MadeRoom(s, k, item, j);
      } else if j > k {
        assert t[j] == s[j - 1] && MadeRoom(s, k, item, j - 1);
      }
    }
  }

  /** `cJSON_ReplaceItemViaPointer`, up to the deletion of the replaced item. */
  method Replace(parent: Item?, item: Item?, replacement: Item?, ghost s: seq<Item>, ghost k: nat)
    returns (ok: bool)
    requires parent != null ==> IsList(parent, s) && parent != replacement
    requires parent != null && item != null ==> k < |s| && s[k] == item
    requires replacement != null && replacement != item ==> replacement !in s
    modifies Those(parent)`child, Those(replacement)`next, Those(replacement)`prev, s`next, s`prev
    ensures ok <==> parent != null && item != null && replacement != null
    ensures ok ==> IsList(parent, s[k := replacement])
    ensures ok && replacement != item ==> Detached(item)
    ensures !ok && parent != null ==> IsList(parent, s)
  {
    if parent == null || parent.child == null || replacement == null || item == null {
      return false;
    }
    hide Distinct;
    if replacement == item {
      assert s[k := replacement] == s;
      return true;
    }
    ReplaceOther(parent, item, replacement, s, k);
    return true;
  }

  method ReplaceOther(parent: Item, item: Item, replacement: Item, ghost s: seq<Item>, ghost k: nat)
    requires IsList(parent, s) && k < |s| && s[k] == item && replacement !in s && replacement != parent
    modifies parent`child, replacement`next, replacement`prev, s`next, s`prev
    ensures IsList(parent, s[k := replacement]) && Detached(item)
  {
    hide Distinct;
    replacement.next := item.next;
    replacement.prev := item.prev;
    Substitute(parent, item, replacement, s, k);
    ForgetReplaced(item, s, k, replacement);
    RelinkReplaced(parent, s, k, replacement);
  }

  /** Clearing the replaced item's own links touches no other item. */
  method ForgetReplaced(item: Item, ghost s: seq<Item>, ghost k: nat, ghost replacement: Item)
    requires Distinct(s) && k < |s| && s[k] == item
    requires forall i :: 0 <= i < |s| && i != k ==> Rewired(s, k, replacement, i)
    modifies item`next, item`prev
    ensures Detached(item)
    ensures forall i :: 0 <= i < |s| && i != k ==> Rewired(s, k, replacement, i)
  {
    Forget(item, s, k);
  }

  /** The pointer updates of `cJSON_ReplaceItemViaPointer` around the replaced item. */
  method Substitute(parent: Item, item: Item, replacement: Item, ghost s: seq<Item>, ghost k: nat)
    requires IsList(parent, s) && k < |s| && s[k] == item && replacement !in s && replacement != parent
    requires replacement.next == NextOf(s, k) && replacement.prev == PrevOf(s, k)
    modifies parent`child, replacement`prev, s`next, s`prev
    ensures parent.child == if k > 0 then s[0] else replacement
    ensures replacement.prev == if |s| == 1 then replacement else PrevOf(s, k)
    ensures forall i :: 0 <= i < |s| && i != k ==> Rewired(s, k, replacement, i)
  {
    assert k > 0 ==> s[0] != s[k];
    assert |s| > 1 ==> s[0] != s[|s| - 1];
    hide Distinct;
    if replacement.next != null {
      SetPrev(replacement.next, replacement, s, k + 1);
    }
    if parent.child == item {
      SubstituteHead(parent, replacement, s);
    } else {
      SubstituteBehind(parent, replacement, s, k);
    }
  }

  /** The pointer updates of `cJSON_ReplaceItemViaPointer` when the replaced item is the head; in a list
      of one, the head's `prev` is itself. */
  method SubstituteHead(parent: Item, replacement: Item, ghost s: seq<Item>)
    requires s != [] && parent.child == s[0] && replacement != parent && parent !in s
    requires s[0].prev == s[0] <==> |s| == 1
    modifies parent`child, replacement`prev
    ensures parent.child == replacement
    ensures replacement.prev == if |s| == 1 then replacement else old(replacement.prev)
  {
    if parent.child.prev == parent.child {
      replacement.prev := replacement;
    }
    parent.child := replacement;
  }

  /** The pointer updates of `cJSON_ReplaceItemViaPointer` when the replaced item is not the head. */
  method SubstituteBehind(parent: Item, replacement: Item, ghost s: seq<Item>, ghost k: nat)
    requires 0 < k < |s| && Distinct(s) && parent !in s && parent.child == s[0]
    requires replacement !in s && replacement != parent
    requires replacement.next == NextOf(s, k) && replacement.prev == s[k - 1]
    requires forall i :: 0 <= i < |s| ==>
               s[i].next == NextOf(s, i) && s[i].prev == if i == k + 1 then replacement else PrevOf(s, i)
    modifies s`next, s`prev
    ensures forall i :: 0 <= i < |s| ==> Rewired(s, k, replacement, i)
  {
    hide Distinct;
    if replacement.prev != null {
      SetNext(replacement.prev, replacement, s, k - 1);
    }
    if replacement.next == null {
      SetPrev(parent.child, replacement, s, 0);
    }
  }

  /** The links that putting `item` in the place of `s[k]` leaves on the other items. */
  ghost predicate Rewired(s: seq<Item>, k: nat, item: Item, i: nat)
    requires k < |s| && i < |s|
    reads s[i]
  {
    && s[i].next == (if i + 1 == k then item else NextOf(s, i))
    && s[i].prev == (if i == k + 1 || (i == 0 && k + 1 == |s|) then item else PrevOf(s, i))
  }

  lemma RelinkReplaced(parent: Item, s: seq<Item>, k: nat, item: Item)
    requires k < |s| && Distinct(s) && parent !in s && item !in s && item != parent
    requires parent.child == if k > 0 then s[0] else item
    requires item.next == NextOf(s, k) && item.prev == if |s| == 1 then item else PrevOf(s, k)
    requires forall i :: 0 <= i < |s| && i != k ==> Rewired(s, k, item, i)
    ensures IsList(parent, s[k := item])
  {
    var t := s[k := item];
    forall j | 0 <= j < |t|
      ensures t[j].next == NextOf(t, j) && t[j].prev == PrevOf(t, j)
    {
      assert j != k ==> t[j] == s[j] && Rewired(s, k, item, j);
    }
  }

  /** All links of a list but the head's `prev`. */
  ghost predicate Strung(s: seq<Item>)
    reads s`next, s`prev
  {
    && (forall i :: 0 <= i < |s| ==> s[i].next == NextOf(s, i))
    && (forall i :: 1 <= i < |s| ==> s[i].prev == PrevOf(s, i))
  }

  lemma StrungOne(item: Item)
    requires Detached(item)
    ensures Strung([item])
  {
  }

  /** A parsed item is linked behind the last one. */
  method LinkBehind(last: Item, item: Item, ghost s: seq<Item>)
    requires s != [] && Distinct(s) && Strung(s) && last == s[|s| - 1] && item !in s && Detached(item)
    modifies last`next, item`prev
    ensures Strung(s + [item])
  {
    last.next := item;
    item.prev := last;
  }

  /** `get_object_item` with exact case: the first child of that name, if none before it is nameless. */
  ghost predicate Names(s: seq<Item>, k: nat, name: bytes)
    reads s
  {
    k < |s| && s[k].name == Some(name) && forall i :: 0 <= i < k ==> s[i].name.Some? && s[i].name != Some(name)
  }

  method GetObjectItem(parent: Item?, name: Option<bytes>, ghost s: seq<Item>) returns (r: Item?, ghost k: nat)
    requires parent != null ==> IsList(parent, s)
    ensures parent == null || name.None? ==> r == null
    ensures r != null ==> name.Some? && Names(s, k, name.value) && r == s[k]
    ensures r == null && parent != null && name.Some? ==> forall j :: 0 <= j < |s| ==> !Names(s, j, name.value)
  {
    k := 0;
    if parent == null || name.None? {
      return null, 0;
    }
    r := parent.child;
    while r != null && r.name.Some? && r.name != name
      invariant 0 <= k <= |s| && r == if k < |s| then s[k] else null
      invariant forall i :: 0 <= i < k ==> s[i].name.Some? && s[i].name != name
      decreases |s| - k
    {
      r, k := r.next, k + 1;
    }
    if r == null || r.name.None? {
      r := null;
    }
  }

  /** Detaching what was just inserted gives back the same list. */
  method InsertThenDetach(parent: Item, which: nat, item: Item, ghost s: seq<Item>)
    requires IsList(parent, s) && item !in s && item != parent && Detached(item)
    modifies parent`child, item`next, item`prev, s`next, s`prev
    ensures IsList(parent, s) && Detached(item)
  {
    hide NextOf, PrevOf, Distinct;
    ghost var k := if which < |s| then which else |s|;
    var ok := Insert(parent, which, item, s);
    var r := Detach(parent, item, Inserted(s, k, item), k);
    assert Without(Inserted(s, k, item), k) == s;
  }
}
