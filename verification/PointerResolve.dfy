/** Resolving a JSON Pointer in a value tree: `Get` finds a value, `Create` finds or makes one. A reference
    to a value inside the tree is the path of steps that leads to it. */
module PointerResolve {
  import opened JsonTree
  import opened JsonPointer
  import opened Options

  // ----- Paths in a tree -----

  /** A step down: the `i`-th element of an array, or the `k`-th member of an object. */
  datatype Step = Item(i: nat) | Named(k: nat)

  predicate HasStep(v: Value, s: Step) {
    match s
    case Item(i) => v.Arr? && i < |v.items|
    case Named(k) => v.Obj? && k < |v.members|
  }

  function Child(v: Value, s: Step): Value
    requires HasStep(v, s)
  {
    match s
    case Item(i) => v.items[i]
    case Named(k) => v.members[k].value
  }

  function SetChild(v: Value, s: Step, c: Value): (w: Value)
    requires HasStep(v, s)
    ensures HasStep(w, s) && Child(w, s) == c
  {
    match s
    case Item(i) => Arr(v.items[i := c])
    case Named(k) => Obj(v.members[k := Member(v.members[k].name, c)])
  }

  predicate HasPath(v: Value, path: seq<Step>)
    decreases |path|
  {
    path == [] || (HasStep(v, path[0]) && HasPath(Child(v, path[0]), path[1..]))
  }

  /** The value that a reference refers to. */
  function At(v: Value, path: seq<Step>): Value
    requires HasPath(v, path)
    decreases |path|
  {
    if path == [] then v else At(Child(v, path[0]), path[1..])
  }

  /** The tree with the value that a reference refers to replaced. */
  function Replace(v: Value, path: seq<Step>, w: Value): Value
    requires HasPath(v, path)
    decreases |path|
  {
    if path == [] then w else SetChild(v, path[0], Replace(Child(v, path[0]), path[1..], w))
  }

  /** `FindMember`: the first member with the name, or the end. */
  function FindMember(members: seq<Member>, name: string): (k: nat)
    ensures k <= |members| && (k < |members| ==> members[k].name == name)
    ensures forall j :: 0 <= j < k ==> members[j].name != name
  {
    if members == [] || members[0].name == name then 0 else 1 + FindMember(members[1..], name)
  }

  lemma {:induction false} FindMemberIs(members: seq<Member>, name: string, k: nat)
    requires k <= |members| && (k < |members| ==> members[k].name == name)
    requires forall j :: 0 <= j < k ==> members[j].name != name
    ensures FindMember(members, name) == k
    decreases |members|
  {
    if members != [] && members[0].name != name {
      FindMemberIs(members[1..], name, k - 1);
    }
  }

  // ----- Get -----

  /** One token of `Get`: where it leads from a value. */
  function Descend(v: Value, t: Token): (s: Option<Step>)
    ensures s.Some? ==> HasStep(v, s.value)
  {
    match v
    case Obj(members) =>
      var k := FindMember(members, t.name);
      if k < |members| then Some(Named(k)) else None
    case Arr(items) => if t.index == INVALID_INDEX || t.index >= |items| then None else Some(Item(t.index))
    case _ => None
  }

  function Resolve(v: Value, tokens: seq<Token>): (path: Option<seq<Step>>)
    ensures path.Some? ==> HasPath(v, path.value)
    decreases |tokens|
  {
    if tokens == [] then Some([])
    else
      var s := Descend(v, tokens[0]);
      if s.None? then None
      else
        var rest := Resolve(Child(v, s.value), tokens[1..]);
        if rest.None? then None else Some([s.value] + rest.value)
  }

  /** The position of the first token that cannot be resolved. */
  function Unresolved(v: Value, tokens: seq<Token>): nat
    requires Resolve(v, tokens).None?
    decreases |tokens|
  {
    var s := Descend(v, tokens[0]);
    if s.None? then 0 else 1 + Unresolved(Child(v, s.value), tokens[1..])
  }

  // ----- Create -----

  /** The token `-`, which names the place after the last element of an array. */
  predicate Dash(t: Token) {
    t.name == "-"
  }

  /** As every parsed token is: the one for `-` has no index. */
  predicate TokenOk(t: Token) {
    Dash(t) ==> t.index == INVALID_INDEX
  }

  predicate TokensOk(tokens: seq<Token>) {
    forall k {:trigger tokens[k]} :: 0 <= k < |tokens| ==> TokenOk(tokens[k])
  }

  /** Only names that are numbers get an index. */
  lemma ParsedTokensOk(names: seq<string>)
    ensures TokensOk(seq(|names|, k requires 0 <= k < |names| => Token(names[k], IndexOf(names[k]))))
    ensures forall k :: 0 <= k < |names| && IndexOf(names[k]) != INVALID_INDEX ==> Numeric(names[k])
  {
  }

  /** The type that a token calls for. */
  function Converted(v: Value, t: Token): Value {
    if t.index == INVALID_INDEX then if v.Obj? then v else Obj([])
    else if v.Arr? || v.Obj? then v else Arr([])
  }

  /** An array filled up with nulls. */
  function Filled(items: seq<Value>, n: nat): seq<Value> {
    if n <= |items| then items else items + seq(n - |items|, _ => Null)
  }

  /** One token of `Create`: the value with what the token needs, the step to it, and whether it was there. */
  datatype Prepared = Prepared(v: Value, step: Step, exist: bool)

  function Prepare(v: Value, t: Token): (p: Prepared)
    ensures HasStep(p.v, p.step)
  {
    if v.Arr? && Dash(t) then Prepared(Arr(v.items + [Null]), Item(|v.items|), false)
    else
      match Converted(v, t)
      case Arr(items) => Prepared(Arr(Filled(items, t.index + 1)), Item(t.index), t.index < |items|)
      case Obj(members) =>
        var k := FindMember(members, t.name);
        if k < |members| then Prepared(Obj(members), Named(k), true)
        else Prepared(Obj(members + [Member(t.name, Null)]), Named(k), false)
  }

  /** `Create`: the tree after, the reference to the value, and whether it existed already. */
  datatype Created = Created(tree: Value, path: seq<Step>, exist: bool)

  function Create(v: Value, tokens: seq<Token>): (c: Created)
    ensures HasPath(c.tree, c.path)
    decreases |tokens|
  {
    if tokens == [] then Created(v, [], true)
    else
      var p := Prepare(v, tokens[0]);
      var rest := Create(Child(p.v, p.step), tokens[1..]);
      Created(SetChild(p.v, p.step, rest.tree), [p.step] + rest.path, p.exist && rest.exist)
  }

  // ----- Create and Get agree -----

  lemma SetSame(v: Value, s: Step)
    requires HasStep(v, s)
    ensures SetChild(v, s, Child(v, s)) == v
  {
    match s
    case Item(i) => assert v.items[i := v.items[i]] == v.items;
    case Named(k) => assert v.members[k := Member(v.members[k].name, v.members[k].value)] == v.members;
  }

  lemma PrepareKnows(v: Value, t: Token)
    requires TokenOk(t)
    ensures Prepare(v, t).exist <==> Descend(v, t).Some?
    ensures Descend(v, t).Some? ==> Prepare(v, t) == Prepared(v, Descend(v, t).value, true)
  {
  }

  /** `alreadyExist` tells exactly whether `Get` would have resolved the pointer, and then the tree is as it
      was and the reference the same. */
  lemma {:induction false} CreateKnows(v: Value, tokens: seq<Token>)
    requires TokensOk(tokens)
    ensures Create(v, tokens).exist <==> Resolve(v, tokens).Some?
    ensures Create(v, tokens).exist ==> Create(v, tokens) == Created(v, Resolve(v, tokens).value, true)
    decreases |tokens|
  {
    if tokens != [] {
      PrepareKnows(v, tokens[0]);
      var p := Prepare(v, tokens[0]);
      CreateKnows(Child(p.v, p.step), tokens[1..]);
      SetSame(p.v, p.step);
    }
  }

  /** On the way down, a `-` meets an array: an element is added that no pointer with a `-` finds again. */
  predicate DashMeetsArray(v: Value, tokens: seq<Token>)
    decreases |tokens|
  {
    tokens != [] &&
      ((v.Arr? && Dash(tokens[0])) ||
       var p := Prepare(v, tokens[0]);
       DashMeetsArray(Child(p.v, p.step), tokens[1..]))
  }

  lemma FindAfterSet(members: seq<Member>, k: nat, name: string, c: Value)
    requires k < |members| && FindMember(members, name) == k
    ensures FindMember(members[k := Member(members[k].name, c)], name) == k
  {
    FindMemberIs(members[k := Member(members[k].name, c)], name, k);
  }

  /** After one token of `Create`, `Get` takes the same step, unless a `-` was used up. */
  lemma DescendAfter(v: Value, t: Token, c: Value)
    requires TokenOk(t)
    ensures
      var p := Prepare(v, t);
      Descend(SetChild(p.v, p.step, c), t) == if v.Arr? && Dash(t) then None else Some(p.step)
  {
    var p := Prepare(v, t);
    if !(v.Arr? && Dash(t)) && p.v.Obj? {
      var k := p.step.k;
      FindMemberIs(p.v.members, t.name, k);
      FindAfterSet(p.v.members, k, t.name, c);
    }
  }

  /** After `Create`, `Get` resolves the pointer, to the very value that `Create` returned, if and only if no
      `-` met an array on the way. */
  lemma {:induction false} CreateThenGet(v: Value, tokens: seq<Token>)
    requires TokensOk(tokens)
    ensures
      var c := Create(v, tokens);
      Resolve(c.tree, tokens) == if DashMeetsArray(v, tokens) then None else Some(c.path)
    decreases |tokens|
  {
    if tokens != [] {
      var p := Prepare(v, tokens[0]);
      var rest := Create(Child(p.v, p.step), tokens[1..]);
      CreateThenGet(Child(p.v, p.step), tokens[1..]);
      DescendAfter(v, tokens[0], rest.tree);
    }
  }

  /** Without a `-` it always does. */
  lemma {:induction false} NoDashMeets(v: Value, tokens: seq<Token>)
    requires forall k {:trigger tokens[k]} :: 0 <= k < |tokens| ==> !Dash(tokens[k])
    ensures !DashMeetsArray(v, tokens)
    decreases |tokens|
  {
    if tokens != [] {
      assert !Dash(tokens[0]);
      var p := Prepare(v, tokens[0]);
      NoDashMeets(Child(p.v, p.step), tokens[1..]);
    }
  }

  /** A value that did not exist is null. */
  lemma {:induction false} CreatedIsNull(v: Value, tokens: seq<Token>)
    ensures !Create(v, tokens).exist ==> At(Create(v, tokens).tree, Create(v, tokens).path) == Null
    decreases |tokens|
  {
    if tokens != [] {
      var p := Prepare(v, tokens[0]);
      CreatedIsNull(Child(p.v, p.step), tokens[1..]);
      if !p.exist {
        assert Child(p.v, p.step) == Null;
        FromNull(tokens[1..]);
      }
    }
  }

  lemma {:induction false} FromNull(tokens: seq<Token>)
    ensures At(Create(Null, tokens).tree, Create(Null, tokens).path) == Null
    decreases |tokens|
  {
    if tokens != [] {
      assert Child(Prepare(Null, tokens[0]).v, Prepare(Null, tokens[0]).step) == Null;
      FromNull(tokens[1..]);
    }
  }

  /** Creating twice is creating once, unless a `-` adds another element. */
  lemma CreateTwice(v: Value, tokens: seq<Token>)
    requires TokensOk(tokens) && !DashMeetsArray(v, tokens)
    ensures var c := Create(v, tokens); Create(c.tree, tokens) == Created(c.tree, c.path, true)
  {
    CreateThenGet(v, tokens);
    CreateKnows(Create(v, tokens).tree, tokens);
  }

  // ----- The loops -----

  function ThenPath(path: seq<Step>, r: Option<seq<Step>>): Option<seq<Step>> {
    if r.Some? then Some(path + r.value) else None
  }

  lemma ResolveStep(v: Value, tokens: seq<Token>, t: nat, path: seq<Step>)
    requires t < |tokens|
    ensures
      var s := Descend(v, tokens[t]);
      && (s.None? ==> Resolve(v, tokens[t..]).None? && Unresolved(v, tokens[t..]) == 0)
      && (s.Some? ==>
            var c := Child(v, s.value);
            && ThenPath(path, Resolve(v, tokens[t..])) == ThenPath(path + [s.value], Resolve(c, tokens[t + 1..]))
            && (Resolve(c, tokens[t + 1..]).None? ==> Unresolved(v, tokens[t..]) == 1 + Unresolved(c, tokens[t + 1..])))
  {
    var rest := tokens[t..];
    assert rest[0] == tokens[t] && rest[1..] == tokens[t + 1..];
    var s := Descend(v, tokens[t]);
    if s.Some? {
      var r := Resolve(Child(v, s.value), tokens[t + 1..]);
      if r.Some? {
        assert path + ([s.value] + r.value) == path + [s.value] + r.value;
      }
    }
  }

  /** `Get`: the reference to the value, or the position of the first token that leads nowhere. */
  method Get(root: Value, tokens: seq<Token>) returns (path: Option<seq<Step>>, unresolved: nat)
    ensures path == Resolve(root, tokens)
    ensures path.None? ==> unresolved == Unresolved(root, tokens)
  {
    hide Resolve, Unresolved, Descend;
    var v, done := root, [];
    var t := 0;
    unresolved := 0;
    assert tokens[0..] == tokens;
    NoPathYet(Resolve(root, tokens));
    while t < |tokens|
      invariant 0 <= t <= |tokens|
      invariant ThenPath(done, Resolve(v, tokens[t..])) == Resolve(root, tokens)
      invariant Resolve(v, tokens[t..]).None? ==> t + Unresolved(v, tokens[t..]) == Unresolved(root, tokens)
    {
      ResolveStep(v, tokens, t, done);
      var s := Descend(v, tokens[t]);
      if s.None? {
        return None, t;
      }
      v := Child(v, s.value);
      done := done + [s.value];
      t := t + 1;
    }
    assert tokens[t..] == [] && done + [] == done;
    Resolved(v);
    path := Some(done);
  }

  lemma NoPathYet(r: Option<seq<Step>>)
    ensures ThenPath([], r) == r
  {
    if r.Some? {
      assert [] + r.value == r.value;
    }
  }

  lemma Resolved(v: Value)
    ensures Resolve(v, []) == Some([])
  {
  }

  lemma {:induction false} ReplaceFacts(root: Value, path: seq<Step>, w: Value, s: Step)
    requires HasPath(root, path) && HasStep(w, s)
    ensures HasPath(Replace(root, path, w), path + [s]) && At(Replace(root, path, w), path + [s]) == Child(w, s)
    ensures forall x {:trigger SetChild(w, s, x)} ::
      Replace(Replace(root, path, w), path + [s], x) == Replace(root, path, SetChild(w, s, x))
    decreases |path|
  {
    if path == [] {
      assert path + [s] == [s] && [s][1..] == [];
    } else {
      var next := path + [s];
      ReplaceFacts(Child(root, path[0]), path[1..], w, s);
      assert next[0] == path[0] && next[1..] == path[1..] + [s];
      forall x ensures Replace(Replace(root, path, w), next, x) == Replace(root, path, SetChild(w, s, x)) {
        SetTwice(root, path[0], Replace(Child(root, path[0]), path[1..], w),
                 Replace(Replace(Child(root, path[0]), path[1..], w), path[1..] + [s], x));
      }
    }
  }

  lemma SetTwice(v: Value, s: Step, a: Value, b: Value)
    requires HasStep(v, s)
    ensures SetChild(SetChild(v, s, a), s, b) == SetChild(v, s, b)
  {
  }

  lemma {:induction false} ReplaceSame(root: Value, path: seq<Step>)
    requires HasPath(root, path)
    ensures Replace(root, path, At(root, path)) == root
    decreases |path|
  {
    if path != [] {
      ReplaceSame(Child(root, path[0]), path[1..]);
      SetSame(root, path[0]);
    }
  }

  class Tree {
    var root: Value

    constructor (root: Value)
      ensures this.root == root
    {
      this.root := root;
    }

    /** What one turn of the loop of `Create` makes of the value it is at. */
    method Make(v: Value, t: Token) returns (p: Prepared)
      ensures p == Prepare(v, t)
    {
      if v.Arr? && t.name == "-" {
        return Prepared(Arr(v.items + [Null]), Item(|v.items|), false);
      }
      var w := v;
      if t.index == INVALID_INDEX {
        if !w.Obj? {
          w := Obj([]);
        }
      } else if !w.Arr? && !w.Obj? {
        w := Arr([]);
      }
      if w.Arr? {
        var items, exist := w.items, true;
        while t.index >= |items|
          invariant items == Filled(w.items, |items|) && |w.items| <= |items|
          invariant exist == (|items| == |w.items|) && (|items| > |w.items| ==> |items| <= t.index + 1)
          decreases t.index + 1 - |items|
        {
          items := items + [Null];
          exist := false;
        }
        p := Prepared(Arr(items), Item(t.index), exist);
      } else {
        var k := FindMember(w.members, t.name);
        if k == |w.members| {
          p := Prepared(Obj(w.members + [Member(t.name, Null)]), Named(k), false);
        } else {
          p := Prepared(w, Named(k), true);
        }
      }
    }

    /** `Create`: changes the tree in place and returns the reference to the value. */
    method CreateAt(tokens: seq<Token>) returns (path: seq<Step>, exist: bool)
      modifies this
      ensures Created(root, path, exist) == Create(old(root), tokens)
    {
      hide Prepare, Create, Replace, At, HasPath;
      ghost var goal := Create(root, tokens);
      path, exist := [], true;
      var t := 0;
      assert tokens[0..] == tokens;
      AtRoot(root, tokens);
      while t < |tokens|
        invariant 0 <= t <= |tokens| && HasPath(root, path)
        invariant Finished(root, path, exist, Create(At(root, path), tokens[t..])) == goal
      {
        var v := At(root, path);
        var p := Make(v, tokens[t]);
        CreateStep(v, tokens, t);
        ReplaceFacts(root, path, p.v, p.step);
        FinishStep(root, path, exist, p, Create(Child(p.v, p.step), tokens[t + 1..]));
        root := Replace(root, path, p.v);
        path := path + [p.step];
        exist := exist && p.exist;
        t := t + 1;
      }
      assert tokens[t..] == [];
      AtEnd(root, path, exist);
    }
  }

  /** The result of the whole, from that of the rest at the place that was reached. */
  function Finished(root: Value, path: seq<Step>, exist: bool, rest: Created): Created
    requires HasPath(root, path)
  {
    Created(Replace(root, path, rest.tree), path + rest.path, exist && rest.exist)
  }

  lemma AtRoot(root: Value, tokens: seq<Token>)
    ensures HasPath(root, []) && At(root, []) == root
    ensures Finished(root, [], true, Create(root, tokens)) == Create(root, tokens)
  {
    assert [] + Create(root, tokens).path == Create(root, tokens).path;
  }

  lemma AtEnd(root: Value, path: seq<Step>, exist: bool)
    requires HasPath(root, path)
    ensures Finished(root, path, exist, Create(At(root, path), [])) == Created(root, path, exist)
  {
    ReplaceSame(root, path);
    assert path + [] == path;
  }

  lemma CreateStep(v: Value, tokens: seq<Token>, t: nat)
    requires t < |tokens|
    ensures
      var p := Prepare(v, tokens[t]);
      var rest := Create(Child(p.v, p.step), tokens[t + 1..]);
      Create(v, tokens[t..]) == Created(SetChild(p.v, p.step, rest.tree), [p.step] + rest.path, p.exist && rest.exist)
  {
    hide Prepare;
    assert tokens[t..][0] == tokens[t] && tokens[t..][1..] == tokens[t + 1..];
  }

  lemma FinishStep(root: Value, path: seq<Step>, exist: bool, p: Prepared, rest: Created)
    requires HasPath(root, path) && HasStep(p.v, p.step) && HasPath(Replace(root, path, p.v), path + [p.step])
    requires Replace(Replace(root, path, p.v), path + [p.step], rest.tree) ==
      Replace(root, path, SetChild(p.v, p.step, rest.tree))
    ensures Finished(Replace(root, path, p.v), path + [p.step], exist && p.exist, rest) ==
            Finished(root, path, exist,
                     Created(SetChild(p.v, p.step, rest.tree), [p.step] + rest.path, p.exist && rest.exist))
  {
    assert path + ([p.step] + rest.path) == path + [p.step] + rest.path;
  }
}
