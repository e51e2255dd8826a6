/** Finished trees beside each other, on the way to becoming the children of one item. */
module Forest {
  import opened Bytes
  import opened JsonValue
  import opened ChildList

  /** The items of `s` are the roots of disjoint trees, all inside `foot`. */
  ghost predicate Grove(s: seq<Item>, foot: set<Item>)
    reads foot
  {
    && (forall i :: 0 <= i < |s| ==> s[i] in foot)
    && (forall i :: 0 <= i < |s| ==> s[i] in s[i].repr && s[i].repr <= foot)
    && (forall i :: 0 <= i < |s| ==> s[i].Tree())
    && (forall i, j :: 0 <= i < j < |s| ==> s[i].repr !! s[j].repr)
  }

  /** No root lies inside another tree. */
  lemma OnlyRoots(s: seq<Item>, k: nat)
    requires k < |s| && forall i :: 0 <= i < |s| ==> s[i] in s[i].repr
    requires forall i, j :: 0 <= i < j < |s| ==> s[i].repr !! s[j].repr
    ensures forall i :: 0 <= i < |s| && i != k ==> s[k] !in s[i].repr
  {
  }

  lemma GroveDistinct(s: seq<Item>, foot: set<Item>)
    requires Grove(s, foot)
    ensures Distinct(s) && forall x :: x in s ==> x in foot
  {
  }

  /** A new tree beside the others. */
  lemma GroveMore(s: seq<Item>, foot: set<Item>, item: Item)
    requires Grove(s, foot) && item in item.repr && item.Tree() && foot !! item.repr
    ensures Grove(s + [item], foot + item.repr)
  {
    hide Item.Tree;
    var all := s + [item];
    assert forall i :: 0 <= i < |all| ==> all[i] == if i < |s| then s[i] else item;
  }

  /** The head's `prev` becomes the tail; trees do not depend on their roots' own links. */
  method CloseRing(ghost s: seq<Item>, ghost foot: set<Item>, head: Item, last: Item?)
    requires Strung(s) && Grove(s, foot) && s != [] && head == s[0]
    modifies head`prev
    ensures Strung(s) && head.prev == last && Grove(s, foot)
  {
    hide Item.Tree;
    GroveDistinct(s, foot);
    OnlyRoots(s, 0);
    head.prev := last;
  }

  /** What makes an item with finished children a tree. */
  lemma Assemble(item: Item, foot: set<Item>)
    requires item.repr == {item} + foot && item !in foot
    requires item.child == if item.kids == [] then null else item.kids[0]
    requires Grove(item.kids, foot) && Strung(item.kids)
    requires item.kids != [] ==> item.kids[0].prev == item.kids[|item.kids| - 1]
    requires Shape(item.kind, item.number, item.text, item.model) && Children(item.model, item.kids)
    ensures item.Tree()
  {
    hide Shape, Children;
  }

  /** An item without children, which nothing else owns yet. */
  ghost predicate Blank(item: Item)
    reads item
  {
    item.child == null && item.kids == [] && item.repr == {item}
  }

  /** A list under construction: all links but the head's `prev`. */
  ghost predicate Growing(head: Item?, last: Item?, s: seq<Item>, foot: set<Item>)
    reads foot, s`next, s`prev
  {
    && Strung(s) && Grove(s, foot)
    && head == (if s == [] then null else s[0])
    && last == if s == [] then null else s[|s| - 1]
  }

  /** Links a new item, not yet filled, behind the last tree. */
  method LinkNext(last: Item, item: Item, ghost s: seq<Item>, ghost foot: set<Item>)
    requires Strung(s) && Grove(s, foot) && s != [] && last == s[|s| - 1]
    requires item !in foot && Detached(item)
    modifies last`next, item`prev
    ensures Strung(s + [item]) && Grove(s, foot)
  {
    hide Item.Tree;
    GroveDistinct(s, foot);
    OnlyRoots(s, |s| - 1);
    LinkBehind(last, item, s);
  }

  /** The fields of an item without children. */
  method SetLeaf(item: Item, kind: Kind, number: int, text: bytes, ghost v: Json)
    requires Blank(item) && Shape(kind, number, text, v) && Children(v, [])
    modifies item`kind, item`number, item`text, item`model
    ensures Blank(item) && item.Tree() && item.model == v
  {
    item.kind, item.number, item.text := kind, number, text;
    item.model := v;
  }

  /** The end of a parser's loop: the list is closed and becomes the children of `item`. */
  method AdoptChildren(
      item: Item, kind: Kind, head: Item?, last: Item?, ghost v: Json, ghost s: seq<Item>, ghost foot: set<Item>)
    requires Growing(head, last, s, foot) && item !in foot
    requires Shape(kind, item.number, item.text, v) && Children(v, s)
    modifies item`kind, item`child, item`kids, item`repr, item`model, Those(head)`prev
    ensures item.Tree() && item.model == v && item.repr == {item} + foot
  {
    hide Grove, Strung, Shape, Children, Item.Tree;
    if head != null {
      CloseRing(s, foot, head, last);
    }
    item.kind, item.child := kind, head;
    item.kids, item.repr, item.model := s, {item} + foot, v;
    GroveInside(s, foot);
    Assemble(item, foot);
  }

  lemma GroveInside(s: seq<Item>, foot: set<Item>)
    requires Grove(s, foot)
    ensures forall x :: x in s ==> x in foot
  {
  }
}
