/** The abstract value of a cJSON item: what the item and its child chain denote. */
module JsonTree {
  import opened Bytes

  // Levels of arrays and objects the parser accepts (cJSON.h).
  const NESTING_LIMIT: nat := 10

  datatype Json =
    | Null
    | False
    | True
    | Number(value: real)
    | String(text: seq<byte>)
    | Raw(raw: seq<byte>)
    | Array(items: seq<Json>)
    | Object(members: seq<Member>)

  /** A child of an object: its name and its value. */
  datatype Member = Member(key: seq<byte>, value: Json)

  function Max(a: nat, b: nat): nat {
    if a < b then b else a
  }

  /** The number of arrays and objects on the deepest path. */
  function Nesting(j: Json): nat
    decreases j, 1
  {
    match j
    case Array(items) => 1 + NestingOfItems(items)
    case Object(members) => 1 + NestingOfMembers(members)
    case _ => 0
  }

  function NestingOfItems(items: seq<Json>): nat
    decreases items, 0
  {
    if items == [] then 0 else Max(Nesting(items[0]), NestingOfItems(items[1..]))
  }

  function NestingOfMembers(members: seq<Member>): nat
    decreases members, 0
  {
    if members == [] then 0
    else Max(Nesting(members[0].value), NestingOfMembers(members[1..]))
  }
}
