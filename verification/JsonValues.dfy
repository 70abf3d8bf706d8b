/**
 JSON values.  A number is kept as its spelling, split along the grammar of section 6 of
 RFC 8259; an object is its members in textual order.
 */
module JsonValues {
  import opened Unicode

  datatype Exponent = NoExponent | Exponent(mark: int, sign: Text, digits: Text)

  // An absent fraction is the empty text.
  datatype Number = Number(minus: bool, whole: Text, fraction: Text, exponent: Exponent)

  datatype Json =
    | Null
    | Bool(b: bool)
    | Num(n: Number)
    | Str(s: Text)
    | Arr(items: seq<Json>)
    | Obj(members: seq<Member>)

  datatype Member = Member(key: Text, value: Json)

  function Max(a: nat, b: nat): nat { if a < b then b else a }

  // How many levels of nesting lie below the root of a value.
  function Height(v: Json): nat
    decreases v, 1
  {
    match v
    case Arr(items) => ItemsHeight(items)
    case Obj(members) => MembersHeight(members)
    case _ => 0
  }

  function ItemsHeight(items: seq<Json>): nat
    decreases items, 0
  {
    if items == [] then 0 else Max(1 + Height(items[0]), ItemsHeight(items[1..]))
  }

  function MembersHeight(members: seq<Member>): nat
    decreases members, 0
  {
    if members == [] then 0 else Max(1 + Height(members[0].value), MembersHeight(members[1..]))
  }

  // The number of values in a value, itself included; member names are not values.
  function Count(v: Json): nat
    decreases v, 1
  {
    match v
    case Arr(items) => 1 + ItemsCount(items)
    case Obj(members) => 1 + MembersCount(members)
    case _ => 1
  }

  function ItemsCount(items: seq<Json>): nat
    decreases items, 0
  {
    if items == [] then 0 else Count(items[0]) + ItemsCount(items[1..])
  }

  function MembersCount(members: seq<Member>): nat
    decreases members, 0
  {
    if members == [] then 0 else Count(members[0].value) + MembersCount(members[1..])
  }

  function Keys(members: seq<Member>): seq<Text> {
    seq(|members|, i requires 0 <= i < |members| => members[i].key)
  }
}
