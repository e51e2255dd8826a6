/** cJSON trees: the `next` chain of children is the list `Elements` or `Members`. */
module JsonValue {
  import opened Bytes

  datatype Json =
    | Null
    | False
    | True
    | Number(number: int)
    | String(text: bytes)
    | Array(elements: Elements)
    | Object(members: Members)

  datatype Elements = NoElement | Element(value: Json, next: Elements)

  datatype Members = NoMember | Member(key: bytes, value: Json, next: Members)

  /** A tree that the C structures can hold: 32-bit integers and C strings. */
  predicate Storable(v: Json) {
    match v
    case Number(n) => Int32(n)
    case String(s) => NoNul(s)
    case Array(e) => StorableElements(e)
    case Object(m) => StorableMembers(m)
    case _ => true
  }

  predicate StorableElements(e: Elements) {
    e.Element? ==> Storable(e.value) && StorableElements(e.next)
  }

  predicate StorableMembers(m: Members) {
    m.Member? ==> NoNul(m.key) && Storable(m.value) && StorableMembers(m.next)
  }

  function Max(a: nat, b: nat): nat {
    if a < b then b else a
  }

  /** How many arrays and objects enclose the innermost one, itself included. */
  function Nesting(v: Json): nat {
    match v
    case Array(e) => 1 + NestingElements(e)
    case Object(m) => 1 + NestingMembers(m)
    case _ => 0
  }

  function NestingElements(e: Elements): nat {
    if e.NoElement? then 0 else Max(Nesting(e.value), NestingElements(e.next))
  }

  function NestingMembers(m: Members): nat {
    if m.NoMember? then 0 else Max(Nesting(m.value), NestingMembers(m.next))
  }
}
