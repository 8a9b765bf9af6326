/** JSON value trees, and the events that visiting one sends to a handler. */
module JsonTree {

  /** A number: an integer of up to 64 bits, or a double, known by its text only. */
  datatype Num = Integer(i: int) | Double(token: string)

  datatype Value =
    | Null
    | Bool(b: bool)
    | Number(n: Num)
    | Str(s: string)
    | Arr(items: seq<Value>)
    | Obj(members: seq<Member>)

  datatype Member = Member(name: string, value: Value)

  datatype Event =
    | OnNull
    | OnBool(b: bool)
    | OnNumber(n: Num)
    | OnString(s: string)
    | StartObject
    | OnKey(s: string)
    | EndObject(count: nat)
    | StartArray
    | EndArray(count: nat)

  /** `Accept`: the events of a tree. */
  function Events(v: Value): seq<Event>
    decreases v, 0
  {
    match v
    case Null => [OnNull]
    case Bool(b) => [OnBool(b)]
    case Number(n) => [OnNumber(n)]
    case Str(s) => [OnString(s)]
    case Arr(items) => [StartArray] + ItemEvents(items) + [EndArray(|items|)]
    case Obj(members) => [StartObject] + MemberEvents(members) + [EndObject(|members|)]
  }

  function ItemEvents(items: seq<Value>): seq<Event>
    decreases items
  {
    if items == [] then [] else Events(items[0]) + ItemEvents(items[1..])
  }

  function MemberEvents(members: seq<Member>): seq<Event>
    decreases members
  {
    if members == [] then []
    else [OnKey(members[0].name)] + Events(members[0].value) + MemberEvents(members[1..])
  }
}
