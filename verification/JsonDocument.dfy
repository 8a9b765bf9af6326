/** The document as a handler: events push values on a stack, and the end of an array or object pops its
    children into it. */
module JsonDocument {
  import opened Arith
  import opened Bits
  import opened JsonTree

  // ----- Numbers and their flags -----

  datatype Flags = Flags(isInt: bool, isUint: bool, isInt64: bool, isUint64: bool, isDouble: bool)

  /** The handler's methods for numbers, and with them the constructors. */
  datatype NumCall =
    | CallInt(i: int)
    | CallUint(u: nat)
    | CallInt64(i64: int)
    | CallUint64(u64: nat)
    | CallDouble(token: string)

  const INT_LIMIT: int := 0x8000_0000
  const UINT_LIMIT: int := 0x1_0000_0000
  const INT64_LIMIT: int := 0x8000_0000_0000_0000
  const UINT64_LIMIT: int := 0x1_0000_0000_0000_0000

  predicate InRange(call: NumCall) {
    match call
    case CallInt(i) => -INT_LIMIT <= i < INT_LIMIT
    case CallUint(u) => u < UINT_LIMIT
    case CallInt64(i) => -INT64_LIMIT <= i < INT64_LIMIT
    case CallUint64(u) => u < UINT64_LIMIT
    case CallDouble(_) => true
  }

  /** A stored value. A member is a name and a value, side by side. */
  datatype Node =
    | NullNode
    | BoolNode(b: bool)
    | NumberNode(n: Num, flags: Flags)
    | StringNode(s: string)
    | ArrayNode(items: seq<Node>)
    | ObjectNode(members: seq<NodeMember>)

  datatype NodeMember = NodeMember(name: Node, value: Node)

  /** The constructors for numbers, with their bit tests. */
  function Construct(call: NumCall): Node
    requires InRange(call)
  {
    match call
    case CallInt(i) =>
      NumberNode(Integer(i), Flags(true, i >= 0, true, i >= 0, false))
    case CallUint(u) =>
      var high := And(u, 0x8000_0000) != 0;
      NumberNode(Integer(u), Flags(!high, true, true, true, false))
    case CallInt64(i) =>
      if i >= 0 then
        NumberNode(Integer(i), Flags(And(i, 0xFFFF_FFFF_8000_0000) == 0, And(i, 0xFFFF_FFFF_0000_0000) == 0, true,
            true, false))
      else
        NumberNode(Integer(i), Flags(i >= -INT_LIMIT, false, true, false, false))
    case CallUint64(u) =>
      NumberNode(Integer(u), Flags(And(u, 0xFFFF_FFFF_8000_0000) == 0, And(u, 0xFFFF_FFFF_0000_0000) == 0,
                                   And(u, 0x8000_0000_0000_0000) == 0, true, false))
    case CallDouble(t) => NumberNode(Double(t), Flags(false, false, false, false, true))
  }

  /** What the flags mean: which integer types hold the number. */
  function RangeFlags(n: Num): Flags {
    match n
    case Double(_) => Flags(false, false, false, false, true)
    case Integer(i) =>
      Flags(-INT_LIMIT <= i < INT_LIMIT, 0 <= i < UINT_LIMIT, -INT64_LIMIT <= i < INT64_LIMIT, 0 <= i < UINT64_LIMIT,
          false)
  }

  lemma {:induction false} AndEven(x: nat, z: nat)
    ensures And(x, 2 * z) == 2 * And(x / 2, z)
  {
    if z == 0 || x == 0 {
    } else {
      assert (2 * z) / 2 == z && (2 * z) % 2 == 0;
    }
  }

  /** Masking with `m` ones above the `n` low bits gives zero exactly for numbers below `Pow2(n)`. */
  lemma {:induction false} AndHigh(x: nat, n: nat, m: nat)
    requires x < Pow2(n + m)
    ensures (Pow2(m) - 1) * Pow2(n) >= 0 && (And(x, (Pow2(m) - 1) * Pow2(n)) == 0 <==> x < Pow2(n))
    decreases n
  {
    hide And;
    if n == 0 {
      AndOnes(x, m);
      DivModSmall(x, Pow2(m));
    } else {
      AndHigh(x / 2, n - 1, m);
      var z := (Pow2(m) - 1) * Pow2(n - 1);
      Doubled(Pow2(m) - 1, Pow2(n - 1));
      AndEven(x, z);
    }
  }

  lemma Doubled(a: int, b: int)
    ensures a * (2 * b) == 2 * (a * b)
  {
  }

  lemma Powers()
    ensures Pow2(1) == 2 && Pow2(31) == 0x8000_0000 && Pow2(32) == 0x1_0000_0000 && Pow2(33) == 0x2_0000_0000
    ensures Pow2(63) == 0x8000_0000_0000_0000 && Pow2(64) == 0x1_0000_0000_0000_0000
  {
    assert Pow2(8) == 0x100;
    assert Pow2(16) == 0x1_0000;
    assert Pow2(24) == 0x100_0000;
    assert Pow2(32) == 0x1_0000_0000;
    assert Pow2(40) == 0x100_0000_0000;
    assert Pow2(48) == 0x1_0000_0000_0000;
    assert Pow2(56) == 0x100_0000_0000_0000;
  }

  lemma MaskTests(x: nat)
    requires x < UINT64_LIMIT
    ensures And(x, 0xFFFF_FFFF_8000_0000) == 0 <==> x < INT_LIMIT
    ensures And(x, 0xFFFF_FFFF_0000_0000) == 0 <==> x < UINT_LIMIT
    ensures And(x, 0x8000_0000_0000_0000) == 0 <==> x < INT64_LIMIT
    ensures x < UINT_LIMIT ==> (And(x, 0x8000_0000) == 0 <==> x < INT_LIMIT)
  {
    Powers();
    hide Pow2, And;
    AndHigh(x, 31, 33);
    AndHigh(x, 32, 32);
    AndHigh(x, 63, 1);
    if x < UINT_LIMIT {
      AndHigh(x, 31, 1);
    }
  }

  /** Whichever constructor made a number, its flags say which integer types hold it. */
  lemma FlagsAreRanges(call: NumCall)
    requires InRange(call)
    ensures Construct(call).flags == RangeFlags(Construct(call).n)
  {
    hide And;
    match call
    case CallInt(_) =>
    case CallUint(u) => MaskTests(u);
    case CallInt64(i) =>
      if i >= 0 {
        MaskTests(i);
      }
    case CallUint64(u) => MaskTests(u);
    case CallDouble(_) =>
  }

  /** The branch of `Accept` for numbers, by the flags. */
  function Dispatch(n: Num, flags: Flags): NumCall
    requires flags.isDouble <==> n.Double?
    requires n.Integer? && !flags.isInt && flags.isUint ==> n.i >= 0
    requires n.Integer? && !flags.isInt && !flags.isUint && !flags.isInt64 ==> n.i >= 0
  {
    if flags.isDouble then CallDouble(n.token)
    else if flags.isInt then CallInt(n.i)
    else if flags.isUint then CallUint(n.i)
    else if flags.isInt64 then CallInt64(n.i)
    else CallUint64(n.i)
  }

  predicate NumOk(n: Num) {
    n.Integer? ==> -INT64_LIMIT <= n.i < UINT64_LIMIT
  }

  /** Sending a number on by its flags and constructing it again gives the same number and flags. */
  lemma NumberRebuilt(n: Num)
    requires NumOk(n)
    ensures InRange(Dispatch(n, RangeFlags(n))) && Construct(Dispatch(n, RangeFlags(n))) == NumberNode(n, RangeFlags(n))
  {
    FlagsAreRanges(Dispatch(n, RangeFlags(n)));
  }

  // ----- Trees of stored values -----

  predicate Storable(v: Value)
    decreases v
  {
    match v
    case Number(n) => NumOk(n)
    case Arr(items) => forall k :: 0 <= k < |items| ==> Storable(items[k])
    case Obj(members) => forall k :: 0 <= k < |members| ==> Storable(members[k].value)
    case _ => true
  }

  /** The stored form of a tree, however its numbers were constructed. */
  function Stored(v: Value): Node
    decreases v
  {
    match v
    case Null => NullNode
    case Bool(b) => BoolNode(b)
    case Number(n) => NumberNode(n, RangeFlags(n))
    case Str(s) => StringNode(s)
    case Arr(items) => ArrayNode(seq(|items|, k requires 0 <= k < |items| => Stored(items[k])))
    case Obj(members) =>
      ObjectNode(seq(|members|, k requires 0 <= k < |members| =>
          NodeMember(StringNode(members[k].name), Stored(members[k].value))))
  }

  // ----- The handler -----

  /** What an event does to the stack, if the stack has what the event pops. */
  predicate Fits(stack: seq<Node>, e: Event) {
    match e
    case EndArray(n) => n + 1 <= |stack|
    case EndObject(n) => 2 * n + 1 <= |stack|
    case OnNumber(n) => NumOk(n)
    case _ => true
  }

  /** The last `2 * n` values, two by two. */
  function Pairs(nodes: seq<Node>): seq<NodeMember>
    requires |nodes| % 2 == 0
  {
    seq(|nodes| / 2, k requires 0 <= k < |nodes| / 2 => NodeMember(nodes[2 * k], nodes[2 * k + 1]))
  }

  function Step(stack: seq<Node>, e: Event): seq<Node>
    requires Fits(stack, e)
  {
    match e
    case OnNull => stack + [NullNode]
    case OnBool(b) => stack + [BoolNode(b)]
    case OnNumber(n) =>
      NumberRebuilt(n);
      stack + [Construct(Dispatch(n, RangeFlags(n)))]
    case OnString(s) => stack + [StringNode(s)]
    case OnKey(s) => stack + [StringNode(s)]
    case StartArray => stack + [ArrayNode([])]
    case StartObject => stack + [ObjectNode([])]
    case EndArray(n) =>
      var bottom := |stack| - n;
      stack[..bottom - 1] + [ArrayNode(stack[bottom..])]
    case EndObject(n) =>
      var bottom := |stack| - 2 * n;
      stack[..bottom - 1] + [ObjectNode(Pairs(stack[bottom..]))]
  }

  predicate Runs(stack: seq<Node>, events: seq<Event>)
    decreases |events|
  {
    events == [] || (Fits(stack, events[0]) && Runs(Step(stack, events[0]), events[1..]))
  }

  function Run(stack: seq<Node>, events: seq<Event>): seq<Node>
    requires Runs(stack, events)
    decreases |events|
  {
    if events == [] then stack else Run(Step(stack, events[0]), events[1..])
  }

  lemma {:induction false} RunAppend(stack: seq<Node>, first: seq<Event>, rest: seq<Event>)
    requires Runs(stack, first) && Runs(Run(stack, first), rest)
    ensures Runs(stack, first + rest) && Run(stack, first + rest) == Run(Run(stack, first), rest)
    decreases |first|
  {
    if first == [] {
      assert first + rest == rest;
    } else {
      hide Step;
      assert (first + rest)[1..] == first[1..] + rest;
      RunAppend(Step(stack, first[0]), first[1..], rest);
    }
  }

  lemma RunOne(stack: seq<Node>, e: Event)
    requires Fits(stack, e)
    ensures Runs(stack, [e]) && Run(stack, [e]) == Step(stack, e)
  {
    assert [e][1..] == [];
  }

  lemma RunThree(stack: seq<Node>, a: seq<Event>, b: seq<Event>, c: seq<Event>, s1: seq<Node>, s2: seq<Node>)
    requires Runs(stack, a) && Run(stack, a) == s1
    requires Runs(s1, b) && Run(s1, b) == s2
    requires Runs(s2, c)
    ensures Runs(stack, a + b + c) && Run(stack, a + b + c) == Run(s2, c)
  {
    RunAppend(stack, a, b);
    RunAppend(stack, a + b, c);
  }

  /** The children of an array as they lie on the stack. */
  function StoredItems(items: seq<Value>): seq<Node> {
    seq(|items|, k requires 0 <= k < |items| => Stored(items[k]))
  }

  function StoredMembers(members: seq<Member>): seq<Node> {
    seq(2 * |members|, k requires 0 <= k < 2 * |members| =>
      if k % 2 == 0 then StringNode(members[k / 2].name) else Stored(members[k / 2].value))
  }

  /** The events of a tree push exactly one value, the stored tree with the same flags, and leave everything
      below it on the stack as it was. */
  lemma {:induction false} EventsPushOne(v: Value, stack: seq<Node>)
    requires Storable(v)
    ensures Runs(stack, Events(v)) && Run(stack, Events(v)) == stack + [Stored(v)]
    decreases v, 0
  {
    hide Runs, Run, ItemEvents, MemberEvents;
    match v
    case Null => RunOne(stack, OnNull);
    case Bool(b) => RunOne(stack, OnBool(b));
    case Number(n) =>
      RunOne(stack, OnNumber(n));
      NumberRebuilt(n);
    case Str(s) => RunOne(stack, OnString(s));
    case Arr(items) =>
      var s1 := stack + [ArrayNode([])];
      RunOne(stack, StartArray);
      ItemsPush(items, s1);
      var s2 := s1 + StoredItems(items);
      RunOne(s2, EndArray(|items|));
      RunThree(stack, [StartArray], ItemEvents(items), [EndArray(|items|)], s1, s2);
      assert s2[|s2| - |items|..] == StoredItems(items) && s2[..|s2| - |items| - 1] == stack;
    case Obj(members) =>
      var s1 := stack + [ObjectNode([])];
      RunOne(stack, StartObject);
      MembersPush(members, s1);
      var s2 := s1 + StoredMembers(members);
      RunOne(s2, EndObject(|members|));
      RunThree(stack, [StartObject], MemberEvents(members), [EndObject(|members|)], s1, s2);
      assert s2[|s2| - 2 * |members|..] == StoredMembers(members) && s2[..|s2| - 2 * |members| - 1] == stack;
      PairsOf(members);
  }

  lemma ItemsOf(items: seq<Value>)
    ensures ArrayNode(StoredItems(items)) == Stored(Arr(items))
  {
  }

  lemma PairsOf(members: seq<Member>)
    ensures ObjectNode(Pairs(StoredMembers(members))) == Stored(Obj(members))
  {
    var nodes := StoredMembers(members);
    forall k | 0 <= k < |members|
      ensures Pairs(nodes)[k] == NodeMember(StringNode(members[k].name), Stored(members[k].value))
    {
      assert nodes[2 * k] == StringNode(members[k].name) && nodes[2 * k + 1] == Stored(members[k].value);
    }
  }

  lemma {:induction false} ItemsPush(items: seq<Value>, stack: seq<Node>)
    requires forall k :: 0 <= k < |items| ==> Storable(items[k])
    ensures Runs(stack, ItemEvents(items)) && Run(stack, ItemEvents(items)) == stack + StoredItems(items)
    decreases items
  {
    hide Stored, Storable, Events, Step;
    if items == [] {
      assert stack + StoredItems(items) == stack;
    } else {
      var s1 := stack + [Stored(items[0])];
      EventsPushOne(items[0], stack);
      ItemsPush(items[1..], s1);
      RunAppend(stack, Events(items[0]), ItemEvents(items[1..]));
      assert StoredItems(items) == [Stored(items[0])] + StoredItems(items[1..]);
    }
  }

  lemma {:induction false} MembersPush(members: seq<Member>, stack: seq<Node>)
    requires forall k :: 0 <= k < |members| ==> Storable(members[k].value)
    ensures Runs(stack, MemberEvents(members)) && Run(stack, MemberEvents(members)) == stack + StoredMembers(members)
    decreases members
  {
    hide Stored, StoredMembers, Storable, Events, Runs, Run;
    if members == [] {
      NoMembers(stack);
    } else {
      var m := members[0];
      var s1 := stack + [StringNode(m.name)];
      KeyPush(m.name, stack);
      EventsPushOne(m.value, s1);
      MembersPush(members[1..], s1 + [Stored(m.value)]);
      RunThree(stack, [OnKey(m.name)], Events(m.value), MemberEvents(members[1..]), s1, s1 + [Stored(m.value)]);
      MemberJoins(members, stack);
    }
  }

  lemma KeyPush(name: string, stack: seq<Node>)
    ensures Runs(stack, [OnKey(name)]) && Run(stack, [OnKey(name)]) == stack + [StringNode(name)]
  {
    hide Runs, Run;
    RunOne(stack, OnKey(name));
  }

  lemma MemberJoins(members: seq<Member>, stack: seq<Node>)
    requires members != []
    ensures stack + [StringNode(members[0].name)] + [Stored(members[0].value)] + StoredMembers(members[1..])
            == stack + StoredMembers(members)
  {
    hide Stored, StoredMembers;
    var name, value := StringNode(members[0].name), Stored(members[0].value);
    MembersSplit(members);
    assert stack + [name] + [value] + StoredMembers(members[1..]) ==
        stack + ([name, value] + StoredMembers(members[1..]));
  }

  lemma NoMembers(stack: seq<Node>)
    ensures Runs(stack, []) && Run(stack, []) == stack && stack + StoredMembers([]) == stack
  {
  }

  lemma MembersSplit(members: seq<Member>)
    requires members != []
    ensures StoredMembers(members) == [StringNode(members[0].name), Stored(members[0].value)] +
      StoredMembers(members[1..])
  {
    hide Stored;
    var rest := StoredMembers(members[1..]);
    forall k | 2 <= k < 2 * |members| ensures StoredMembers(members)[k] == rest[k - 2] {
      assert (k - 2) / 2 == k / 2 - 1 && members[1..][k / 2 - 1] == members[k / 2];
    }
  }

  // ----- The document -----

  class GenericDocument {
    var stack: seq<Node>

    constructor ()
      ensures stack == []
    {
      stack := [];
    }

    method Push(node: Node)
      modifies this
      ensures stack == old(stack) + [node]
    {
      stack := stack + [node];
    }

    /** `Null`, `Bool`, `Int` and so on. */
    method Null()
      modifies this
      ensures stack == Step(old(stack), OnNull)
    {
      Push(NullNode);
    }

    method Bool(b: bool)
      modifies this
      ensures stack == Step(old(stack), OnBool(b))
    {
      Push(BoolNode(b));
    }

    method Number(call: NumCall)
      requires InRange(call)
      modifies this
      ensures stack == old(stack) + [Construct(call)]
    {
      Push(Construct(call));
    }

    method String(s: string)
      modifies this
      ensures stack == Step(old(stack), OnString(s)) == Step(old(stack), OnKey(s))
    {
      Push(StringNode(s));
    }

    method StartObject()
      modifies this
      ensures stack == Step(old(stack), JsonTree.StartObject)
    {
      Push(ObjectNode([]));
    }

    method StartArray()
      modifies this
      ensures stack == Step(old(stack), JsonTree.StartArray)
    {
      Push(ArrayNode([]));
    }

    /** `Pop` and then `SetObjectRaw` on what is on top. */
    method EndObject(memberCount: nat)
      requires Fits(stack, JsonTree.EndObject(memberCount))
      modifies this
      ensures stack == Step(old(stack), JsonTree.EndObject(memberCount))
    {
      var bottom := |stack| - 2 * memberCount;
      var members := Pairs(stack[bottom..]);
      stack := stack[..bottom];
      stack := stack[|stack| - 1 := ObjectNode(members)];
    }

    method EndArray(elementCount: nat)
      requires Fits(stack, JsonTree.EndArray(elementCount))
      modifies this
      ensures stack == Step(old(stack), JsonTree.EndArray(elementCount))
    {
      var bottom := |stack| - elementCount;
      var elements := stack[bottom..];
      stack := stack[..bottom];
      stack := stack[|stack| - 1 := ArrayNode(elements)];
    }

    /** `Accept` of a tree with the document as the handler. */
    method Accept(v: Value)
      requires Storable(v)
      modifies this
      ensures stack == old(stack) + [Stored(v)]
      decreases v, 1
    {
      match v {
        case Null => Null();
        case Bool(b) => Bool(b);
        case Number(n) =>
          NumberRebuilt(n);
          Number(Dispatch(n, RangeFlags(n)));
        case Str(s) => String(s);
        case Arr(items) => AcceptItems(items);
        case Obj(members) => AcceptMembers(members);
      }
    }

    method AcceptItems(items: seq<Value>)
      requires forall k :: 0 <= k < |items| ==> Storable(items[k])
      modifies this
      ensures stack == old(stack) + [Stored(Arr(items))]
      decreases items, 2
    {
      hide Storable, Stored;
      ghost var below := stack;
      StartArray();
      ghost var s1 := stack;
      var i := 0;
      while i < |items|
        invariant 0 <= i <= |items|
        invariant |stack| == |s1| + i && stack[..|s1|] == s1
        invariant forall k :: 0 <= k < i ==> stack[|s1| + k] == Stored(items[k])
      {
        Accept(items[i]);
        i := i + 1;
      }
      assert stack == s1 + StoredItems(items);
      assert stack[|s1|..] == StoredItems(items);
      EndArray(|items|);
      ItemsOf(items);
      assert stack[..|below|] == below;
    }

    method AcceptMembers(members: seq<Member>)
      requires forall k :: 0 <= k < |members| ==> Storable(members[k].value)
      modifies this
      ensures stack == old(stack) + [Stored(Obj(members))]
      decreases members, 2
    {
      hide Storable, Stored;
      ghost var below := stack;
      StartObject();
      ghost var s1 := stack;
      var i := 0;
      while i < |members|
        invariant 0 <= i <= |members|
        invariant |stack| == |s1| + 2 * i && stack[..|s1|] == s1
        invariant forall k :: 0 <= k < 2 * i ==> stack[|s1| + k] == StoredMembers(members)[k]
      {
        String(members[i].name);
        Accept(members[i].value);
        i := i + 1;
      }
      assert stack == s1 + StoredMembers(members);
      assert stack[|s1|..] == StoredMembers(members);
      EndObject(|members|);
      PairsOf(members);
      assert stack[..|below|] == below;
    }
  }

  /** The value that a stored value stands for. */
  function Loaded(node: Node): Value
    decreases node
  {
    match node
    case NullNode => Null
    case BoolNode(b) => Bool(b)
    case NumberNode(n, _) => Number(n)
    case StringNode(s) => Str(s)
    case ArrayNode(items) => Arr(seq(|items|, k requires 0 <= k < |items| => Loaded(items[k])))
    case ObjectNode(members) =>
      Obj(seq(|members|, k requires 0 <= k < |members| =>
        Member(if members[k].name.StringNode? then members[k].name.s else "", Loaded(members[k].value))))
  }

  /** Nothing of a tree is lost in its stored form. */
  lemma {:induction false} StoredLoads(v: Value)
    ensures Loaded(Stored(v)) == v
    decreases v
  {
    match v
    case Arr(items) =>
      forall k | 0 <= k < |items| ensures Loaded(Stored(items[k])) == items[k] {
        StoredLoads(items[k]);
      }
    case Obj(members) =>
      forall k | 0 <= k < |members| ensures Loaded(Stored(members[k].value)) == members[k].value {
        StoredLoads(members[k].value);
      }
    case _ =>
  }
}
