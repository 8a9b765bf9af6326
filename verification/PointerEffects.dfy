/** What `Get` finds and what `Create` leaves: both told by the paths in the tree before and after. */
module PointerEffects {
  import opened JsonPointer
  import opened JsonTree
  import opened Options
  import opened PointerResolve

  // ----- Get -----

  /** A token leads to this step: to the first member with its name, or to the element with its index. */
  ghost predicate Leads(v: Value, t: Token, s: Step) {
    match s
    case Item(i) => v.Arr? && i == t.index != INVALID_INDEX && i < |v.items|
    case Named(k) =>
      && v.Obj? && k < |v.members| && v.members[k].name == t.name
      && forall j :: 0 <= j < k ==> v.members[j].name != t.name
  }

  lemma DescendIff(v: Value, t: Token, s: Step)
    ensures Descend(v, t) == Some(s) <==> Leads(v, t, s)
  {
    if v.Obj? && s.Named? && Leads(v, t, s) {
      FindMemberIs(v.members, t.name, s.k);
    }
  }

  /** At the value that the first `k` steps lead to, the next token leads to the next step. */
  ghost predicate LeadsAt(v: Value, tokens: seq<Token>, q: seq<Step>, k: nat)
    requires k < |q| && k < |tokens|
  {
    HasPath(v, q[..k]) && Leads(At(v, q[..k]), tokens[k], q[k])
  }

  lemma LeadsFirst(v: Value, tokens: seq<Token>, q: seq<Step>)
    requires tokens != [] && q != []
    ensures LeadsAt(v, tokens, q, 0) <==> Descend(v, tokens[0]) == Some(q[0])
  {
    hide Leads, Descend;
    DescendIff(v, tokens[0], q[0]);
    assert q[..0] == [];
  }

  lemma LeadsBelow(v: Value, tokens: seq<Token>, q: seq<Step>, k: nat)
    requires 0 < k < |q| && k < |tokens| && HasStep(v, q[0])
    ensures LeadsAt(v, tokens, q, k) <==> LeadsAt(Child(v, q[0]), tokens[1..], q[1..], k - 1)
  {
    hide Leads;
    assert q[..k][1..] == q[1..][..k - 1];
  }

  /** `Get` resolves the tokens to a path exactly if it has one step for each, to which that token leads. */
  lemma {:induction false} ResolvesIff(v: Value, tokens: seq<Token>, q: seq<Step>)
    ensures
      Resolve(v, tokens) == Some(q) <==>
      |q| == |tokens| && forall k :: 0 <= k < |q| ==> LeadsAt(v, tokens, q, k)
    decreases |tokens|
  {
    hide LeadsAt, Descend;
    if tokens != [] && q != [] {
      LeadsFirst(v, tokens, q);
      assert q == [q[0]] + q[1..];
      if Descend(v, tokens[0]) == Some(q[0]) {
        var c := Child(v, q[0]);
        ResolvesIff(c, tokens[1..], q[1..]);
        forall k | 1 <= k < |q| && k < |tokens|
          ensures LeadsAt(v, tokens, q, k) <==> LeadsAt(c, tokens[1..], q[1..], k - 1)
        {
          LeadsBelow(v, tokens, q, k);
        }
        if |q| == |tokens| {
          assert forall k :: 0 <= k < |q[1..]| ==> LeadsAt(c, tokens[1..], q[1..], k) == LeadsAt(v, tokens, q, k + 1);
        }
      }
    }
  }

  /** The position reported is that of the first token that leads nowhere: those before it can be resolved. */
  lemma {:induction false} UnresolvedIs(v: Value, tokens: seq<Token>)
    requires Resolve(v, tokens).None?
    ensures
      var n := Unresolved(v, tokens);
      n < |tokens| && Resolve(v, tokens[..n]).Some? && Resolve(v, tokens[..n + 1]).None?
    decreases |tokens|
  {
    var n := Unresolved(v, tokens);
    var s := Descend(v, tokens[0]);
    if s.Some? {
      UnresolvedIs(Child(v, s.value), tokens[1..]);
      assert tokens[..n][1..] == tokens[1..][..n - 1] && tokens[..n + 1][1..] == tokens[1..][..n];
    } else {
      assert tokens[..n] == [];
    }
  }

  // ----- Create: the values on the way -----

  /** The value at a path, null where there is none yet. */
  function Before(v: Value, path: seq<Step>): Value {
    if HasPath(v, path) then At(v, path) else Null
  }

  /** An array stays one for a token with an index and for `-`; an object stays one; everything else becomes an array
      for a token with an index and an object for any other. */
  ghost predicate TypeMade(u: Value, w: Value, t: Token) {
    var number := t.index != INVALID_INDEX;
    if u.Obj? then w.Obj?
    else if u.Arr? then if number || t.name == "-" then w.Arr? else w.Obj?
    else if number then w.Arr? else w.Obj?
  }

  /** The members that were there keep their places and names, and all but the one at the step their values. A name that
      was missing makes one member more, at the end. */
  ghost predicate MembersMade(was: seq<Member>, now: seq<Member>, t: Token, s: Step) {
    && s.Named? && s.k < |now| && now[s.k].name == t.name
    && (forall j {:trigger now[j]} :: 0 <= j < s.k ==> now[j].name != t.name)
    && |now| == (if s.k < |was| then |was| else |was| + 1)
    && (forall j {:trigger now[j]} {:trigger was[j]} :: 0 <= j < |was| && j != s.k ==> now[j] == was[j])
  }

  /** The elements that were there keep their places and values, but for the one at the step. The array ends just after
      that step if it was shorter, with nulls before it. A `-` is the place after the last element. */
  ghost predicate ItemsMade(was: seq<Value>, now: seq<Value>, at: nat, s: Step) {
    && s == Item(at)
    && |now| == (if at < |was| then |was| else at + 1)
    && (forall j {:trigger now[j]} :: 0 <= j < |now| && j != at ==> now[j] == if j < |was| then was[j] else Null)
  }

  /** What a token makes of a value on the way, apart from the child that the step leads to. */
  ghost predicate Made(u: Value, w: Value, t: Token, s: Step) {
    && TypeMade(u, w, t)
    && (w.Obj? ==> MembersMade(if u.Obj? then u.members else [], w.members, t, s))
    && (w.Arr? ==> if u.Arr? then ItemsMade(u.items, w.items, if t.name == "-" then |u.items| else t.index, s)
                   else ItemsMade([], w.items, t.index, s))
  }

  lemma PrepareMakes(v: Value, t: Token, c: Value)
    ensures var p := Prepare(v, t); Made(v, SetChild(p.v, p.step, c), t, p.step)
  {
    var p := Prepare(v, t);
    if p.v.Obj? && p.exist {
      assert forall j :: 0 <= j < p.step.k ==> p.v.members[j].name != t.name;
    }
  }

  /** The child of the step is the one that was there, or null. */
  lemma PrepareChild(v: Value, t: Token)
    ensures var p := Prepare(v, t); Child(p.v, p.step) == if HasStep(v, p.step) then Child(v, p.step) else Null
  {
  }

  lemma BeforeStep(v: Value, t: Token, path: seq<Step>)
    ensures var p := Prepare(v, t); Before(v, [p.step] + path) == Before(Child(p.v, p.step), path)
  {
    hide Prepare;
    PrepareChild(v, t);
    var p := Prepare(v, t);
    assert ([p.step] + path)[1..] == path;
  }

  /** Each value on the way of `Create` is made from the one that was there, and at the end of the way is the value that
      was there, or null: so the whole tree is told. */
  lemma {:induction false} CreateMakes(v: Value, tokens: seq<Token>)
    ensures
      var c := Create(v, tokens);
      && |c.path| == |tokens| && At(c.tree, c.path) == Before(v, c.path)
      && forall k {:trigger tokens[k]} :: 0 <= k < |tokens| ==>
           && HasPath(c.tree, c.path[..k])
           && Made(Before(v, c.path[..k]), At(c.tree, c.path[..k]), tokens[k], c.path[k])
    decreases |tokens|
  {
    hide Made, Prepare;
    if tokens != [] {
      var c := Create(v, tokens);
      var p := Prepare(v, tokens[0]);
      var rest := Create(Child(p.v, p.step), tokens[1..]);
      CreateMakes(Child(p.v, p.step), tokens[1..]);
      PrepareMakes(v, tokens[0], rest.tree);
      BeforeStep(v, tokens[0], rest.path);
      assert c.path[1..] == rest.path;
      forall k | 0 <= k < |tokens|
        ensures HasPath(c.tree, c.path[..k])
        ensures Made(Before(v, c.path[..k]), At(c.tree, c.path[..k]), tokens[k], c.path[k])
      {
        if k > 0 {
          BeforeStep(v, tokens[0], rest.path[..k - 1]);
          assert c.path[..k] == [p.step] + rest.path[..k - 1];
          assert c.path[..k][1..] == rest.path[..k - 1];
          assert tokens[1..][k - 1] == tokens[k];
        } else {
          assert c.path[..0] == [];
        }
      }
    }
  }

  // ----- Create: what lies beside the way -----

  /** The tokens lead along a path to an array, and the next one is a name: an object takes the place of the array. */
  ghost predicate LostAt(v: Value, tokens: seq<Token>, q: seq<Step>, k: nat)
    requires HasPath(v, q)
  {
    && k < |tokens| && k < |q| && Resolve(v, tokens[..k]) == Some(q[..k])
    && At(v, q[..k]).Arr? && tokens[k].index == INVALID_INDEX && tokens[k].name != "-"
  }

  ghost predicate Lost(v: Value, tokens: seq<Token>, q: seq<Step>)
    requires HasPath(v, q)
  {
    exists k: nat :: LostAt(v, tokens, q, k)
  }

  lemma LostHere(v: Value, tokens: seq<Token>, q: seq<Step>)
    requires HasPath(v, q) && tokens != [] && q != []
    ensures LostAt(v, tokens, q, 0) <==> v.Arr? && tokens[0].index == INVALID_INDEX && tokens[0].name != "-"
  {
    assert tokens[..0] == [] && q[..0] == [];
  }

  lemma LostBelow(v: Value, tokens: seq<Token>, q: seq<Step>, k: nat)
    requires HasPath(v, q) && tokens != [] && q != [] && k > 0
    ensures LostAt(v, tokens, q, k) <==>
      Descend(v, tokens[0]) == Some(q[0]) && LostAt(Child(v, q[0]), tokens[1..], q[1..], k - 1)
  {
    hide Descend;
    if k < |tokens| && k < |q| {
      assert tokens[..k][1..] == tokens[1..][..k - 1] && q[..k][1..] == q[1..][..k - 1];
      assert q[..k] == [q[0]] + q[1..][..k - 1];
    }
  }

  lemma LostStep(v: Value, tokens: seq<Token>, q: seq<Step>)
    requires HasPath(v, q) && tokens != [] && q != []
    ensures Lost(v, tokens, q) <==>
      || (v.Arr? && tokens[0].index == INVALID_INDEX && tokens[0].name != "-")
      || (Descend(v, tokens[0]) == Some(q[0]) && Lost(Child(v, q[0]), tokens[1..], q[1..]))
  {
    hide LostAt, Descend;
    LostHere(v, tokens, q);
    forall k: nat | k > 0
      ensures LostAt(v, tokens, q, k) <==>
        Descend(v, tokens[0]) == Some(q[0]) && LostAt(Child(v, q[0]), tokens[1..], q[1..], k - 1)
    {
      LostBelow(v, tokens, q, k);
    }
    if Lost(Child(v, q[0]), tokens[1..], q[1..]) {
      var k: nat :| LostAt(Child(v, q[0]), tokens[1..], q[1..], k);
      assert LostAt(v, tokens, q, k + 1) <==> Descend(v, tokens[0]) == Some(q[0]);
    }
  }

  /** One token of `Create`, beside a step that another token leads to: that one leads there still, to the same value or
      to the one put at the same step, unless an array became an object. */
  lemma BesideStep(v: Value, t: Token, other: Token, s: Step, c: Value)
    requires TokenOk(t) && Descend(v, other) == Some(s)
    ensures
      var p := Prepare(v, t);
      var w := SetChild(p.v, p.step, c);
      && (p.step == s <==> Descend(v, t) == Some(s)) && (p.step == s ==> p.v == v)
      && (if v.Arr? && t.index == INVALID_INDEX && t.name != "-" then !HasStep(w, s)
          else Descend(w, other) == Some(s) && Child(w, s) == if p.step == s then c else Child(v, s))
  {
    var p := Prepare(v, t);
    var w := SetChild(p.v, p.step, c);
    if v.Obj? {
      FindMemberIs(w.members, other.name, s.k);
    }
  }

  /** What other tokens led to, they lead to after `Create`, if and only if no array on the way to it became an object;
      the value there is the same unless it is one on the way of `Create`. */
  lemma {:induction false} OthersStay(v: Value, tokens: seq<Token>, others: seq<Token>)
    requires TokensOk(tokens) && Resolve(v, others).Some?
    ensures
      var q := Resolve(v, others).value;
      var c := Create(v, tokens);
      && (Resolve(c.tree, others) == Some(q) <==> !Lost(v, tokens, q))
      && (!Lost(v, tokens, q) && (c.exist || !(q <= c.path)) ==> At(c.tree, q) == At(v, q))
    decreases |tokens|
  {
    hide Prepare, Descend, Lost;
    var q := Resolve(v, others).value;
    var c := Create(v, tokens);
    if tokens == [] || others == [] {
      NoneLost(v, tokens, q);
      CreateKnows(v, tokens);
    } else {
      LostStep(v, tokens, q);
      var p := Prepare(v, tokens[0]);
      var rest := Create(Child(p.v, p.step), tokens[1..]);
      BesideStep(v, tokens[0], others[0], q[0], rest.tree);
      CreateKnows(v, tokens);
      if !HasStep(c.tree, q[0]) {
        assert !HasPath(c.tree, q);
      } else if p.step == q[0] {
        OthersStay(Child(v, q[0]), tokens[1..], others[1..]);
        assert q[1..] <= rest.path ==> [q[0]] + q[1..] <= [p.step] + rest.path;
      }
    }
  }

  lemma NoneLost(v: Value, tokens: seq<Token>, q: seq<Step>)
    requires HasPath(v, q) && (tokens == [] || q == [])
    ensures !Lost(v, tokens, q)
  {
  }
}
