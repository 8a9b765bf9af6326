/** What the calls of the free list come to: a thread alone takes the node at the head of the list, or puts a node
    there; and in any run `try_get` returns without a node only if the list was empty at some moment of the call. */
module FreeListCalls {
  import opened FreeList

  // ----- A call alone -----

  /** Up to `k` steps of `t`, as long as it is inside a call. */
  ghost function Alone(s: State, t: Thread, k: nat): State
    requires t in s.pc
    decreases k
  {
    if k == 0 || !Enabled(s, Step(t)) then s else Alone(DoStep(s, t), t, k - 1)
  }

  /** No call is in progress. */
  ghost predicate NoCalls(s: State) {
    forall t :: t in s.pc ==> s.pc[t] == Idle
  }

  ghost function At(s: State, t: Thread, pc: Pc): State {
    s.(pc := s.pc[t := pc])
  }

  lemma AloneStep(s: State, t: Thread, k: nat, s': State)
    requires t in s.pc && k > 0 && Enabled(s, Step(t)) && DoStep(s, t) == s'
    ensures t in s'.pc && Alone(s, t, k) == Alone(s', t, k - 1)
  {
  }

  lemma QuietRefs(s: State, n: Node)
    requires Reachable(s) && NoCalls(s)
    ensures s.head == To(n) ==> n in s.refs && n in s.next && s.refs[n] == 1 && n !in s.owned
    ensures n in s.owned ==> n in s.refs && n in s.next && s.refs[n] == 0
  {
    var h := ReachableInv(s);
    assert Holders(s, n) == {};
    if s.head == To(n) {
      assert n == h.list[0] && n in h.list;
      assert NodeOk(s, h, n);
    }
    if n in s.owned {
      assert NodeOk(s, h, n);
    }
  }

  lemma LoadsHead(s: State, t: Thread, n: Node, k: nat)
    requires t in s.pc && s.head == To(n) && k > 0
    ensures Alone(At(s, t, LoadHead), t, k) == Alone(At(s, t, LoadRefs(n)), t, k - 1)
  {
    AloneStep(At(s, t, LoadHead), t, k, At(s, t, LoadRefs(n)));
  }

  lemma LoadsRefs(s: State, t: Thread, n: Node, k: nat)
    requires t in s.pc && n in s.refs && Count(s.refs[n]) != 0 && k > 0
    ensures Alone(At(s, t, LoadRefs(n)), t, k) == Alone(At(s, t, CasRefs(n, s.refs[n])), t, k - 1)
  {
    AloneStep(At(s, t, LoadRefs(n)), t, k, At(s, t, CasRefs(n, s.refs[n])));
  }

  lemma CountsItself(s: State, t: Thread, n: Node, k: nat)
    requires t in s.pc && n in s.refs && s.refs[n] == 1 && k > 0
    ensures Alone(At(s, t, CasRefs(n, 1)), t, k) == Alone(At(s.(refs := s.refs[n := 2]), t, LoadNext(n)), t, k - 1)
  {
    AloneStep(At(s, t, CasRefs(n, 1)), t, k, At(s.(refs := s.refs[n := 2]), t, LoadNext(n)));
  }

  lemma LoadsNext(s: State, t: Thread, n: Node, k: nat)
    requires t in s.pc && n in s.next && k > 0
    ensures Alone(At(s, t, LoadNext(n)), t, k) == Alone(At(s, t, CasHead(n, s.next[n])), t, k - 1)
  {
    AloneStep(At(s, t, LoadNext(n)), t, k, At(s, t, CasHead(n, s.next[n])));
  }

  lemma TakesOff(s: State, t: Thread, n: Node, next: Link, k: nat)
    requires t in s.pc && s.head == To(n) && k > 0
    ensures Alone(At(s, t, CasHead(n, next)), t, k) == Alone(At(s.(head := next), t, DropTwo(n)), t, k - 1)
  {
    AloneStep(At(s, t, CasHead(n, next)), t, k, At(s.(head := next), t, DropTwo(n)));
  }

  lemma LetsGo(s: State, t: Thread, n: Node)
    requires t in s.pc && n in s.refs && s.refs[n] == 2
    ensures
      Alone(At(s, t, DropTwo(n)), t, 1) == At(s.(owned := s.owned + {n}, refs := s.refs[n := 0]), t, Idle)
  {
    var done := s.(owned := s.owned + {n}, refs := s.refs[n := 0]);
    AloneStep(At(s, t, DropTwo(n)), t, 1, At(done, t, Idle));
    AloneEnd(At(done, t, Idle), t);
  }

  lemma AloneEnd(s: State, t: Thread)
    requires t in s.pc
    ensures Alone(s, t, 0) == s
  {
  }

  /** On a quiet list that is not empty `try_get` takes the node at the head: its caller owns it, and the list goes on
      from the node after it. */
  lemma GetsHead(s: State, t: Thread, n: Node)
    requires Reachable(s) && NoCalls(s) && t in s.pc && s.head == To(n)
    ensures n in s.next && n !in s.owned
    ensures
      Alone(Do(s, StartTryGet(t)), t, 6) ==
      s.(head := s.next[n], owned := s.owned + {n}, refs := s.refs[n := 0])
  {
    hide Reachable, Alone;
    QuietRefs(s, n);
    LoadsHead(s, t, n, 6);
    LoadsRefs(s, t, n, 5);
    CountsItself(s, t, n, 4);
    var up := s.(refs := s.refs[n := 2]);
    LoadsNext(up, t, n, 3);
    TakesOff(up, t, n, s.next[n], 2);
    LetsGo(up.(head := s.next[n]), t, n);
    assert s.pc[t := Idle] == s.pc && s.refs[n := 2][n := 0] == s.refs[n := 0];
  }

  lemma ChainTail(head: Link, next: map<Node, Link>, list: seq<Node>)
    requires Chain(head, next, list) && list != []
    ensures head == To(list[0]) && list[0] in next && Chain(next[list[0]], next, list[1..])
  {
    forall i: nat | i < |list| - 1 ensures LinkAfter(list[1..], i) == LinkAfter(list, i + 1) {
    }
    assert forall i {:trigger list[1..][i]} :: 0 <= i < |list| - 1 ==> list[1..][i] == list[i + 1];
    assert next[list[0]] == LinkAfter(list, 0);
  }

  /** Just that node is not listed any more. */
  lemma GotListed(s: State, n: Node, m: Node)
    requires Reachable(s) && s.head == To(n)
    ensures
      n in s.next && (Listed(s.(head := s.next[n], owned := s.owned + {n}, refs := s.refs[n := 0]), m)
                      <==> Listed(s, m) && m != n)
  {
    hide Reachable, Listed, NodeOk, ThreadOk, Chain;
    var h := ReachableInv(s);
    HeadOfChain(s.head, s.next, h.list, m);
    ChainTail(s.head, s.next, h.list);
    ChainListed(s, h.list, m);
    ChainListed(s.(head := s.next[n], owned := s.owned + {n}, refs := s.refs[n := 0]), h.list[1..], m);
  }

  /** On an empty list it returns without a node, and changes nothing. */
  lemma GetsNone(s: State, t: Thread)
    requires NoCalls(s) && t in s.pc && s.head == Null
    ensures Alone(Do(s, StartTryGet(t)), t, 1) == s
  {
    assert s.pc[t := Idle] == s.pc;
    AloneStep(At(s, t, LoadHead), t, 1, s);
  }

  lemma RaisesFlag(s: State, t: Thread, n: Node, k: nat)
    requires t in s.pc && n in s.refs && s.refs[n] == 0 && k > 0
    ensures
      Alone(At(s, t, RaiseFlag(n)), t, k) ==
      Alone(At(s.(refs := s.refs[n := SHOULD_BE_ON_FREELIST]), t, AddLoadHead(n, FromAdd)), t, k - 1)
  {
    AloneStep(At(s, t, RaiseFlag(n)), t, k,
              At(s.(refs := s.refs[n := SHOULD_BE_ON_FREELIST]), t, AddLoadHead(n, FromAdd)));
  }

  lemma LoadsHeadToAdd(s: State, t: Thread, n: Node, k: nat)
    requires t in s.pc && k > 0
    ensures
      Alone(At(s, t, AddLoadHead(n, FromAdd)), t, k) == Alone(At(s, t, AddStoreNext(n, s.head, FromAdd)), t, k - 1)
  {
    AloneStep(At(s, t, AddLoadHead(n, FromAdd)), t, k, At(s, t, AddStoreNext(n, s.head, FromAdd)));
  }

  lemma StoresNext(s: State, t: Thread, n: Node, l: Link, k: nat)
    requires t in s.pc && n in s.next && k > 0
    ensures
      Alone(At(s, t, AddStoreNext(n, l, FromAdd)), t, k) ==
      Alone(At(s.(next := s.next[n := l]), t, AddStoreRefs(n, l, FromAdd)), t, k - 1)
  {
    AloneStep(At(s, t, AddStoreNext(n, l, FromAdd)), t, k,
              At(s.(next := s.next[n := l]), t, AddStoreRefs(n, l, FromAdd)));
  }

  lemma StoresRefs(s: State, t: Thread, n: Node, l: Link, k: nat)
    requires t in s.pc && n in s.refs && k > 0
    ensures
      Alone(At(s, t, AddStoreRefs(n, l, FromAdd)), t, k) ==
      Alone(At(s.(refs := s.refs[n := 1]), t, AddCasHead(n, l, FromAdd)), t, k - 1)
  {
    AloneStep(At(s, t, AddStoreRefs(n, l, FromAdd)), t, k,
              At(s.(refs := s.refs[n := 1]), t, AddCasHead(n, l, FromAdd)));
  }

  lemma PutsOn(s: State, t: Thread, n: Node)
    requires t in s.pc
    ensures Alone(At(s, t, AddCasHead(n, s.head, FromAdd)), t, 1) == At(s.(head := To(n)), t, Idle)
  {
    AloneStep(At(s, t, AddCasHead(n, s.head, FromAdd)), t, 1, At(s.(head := To(n)), t, Idle));
    AloneEnd(At(s.(head := To(n)), t, Idle), t);
  }

  /** `add` on a quiet list puts the node in front. */
  lemma PutsInFront(s: State, t: Thread, n: Node)
    requires Reachable(s) && NoCalls(s) && t in s.pc && n in s.owned
    ensures n in s.next
    ensures
      Alone(Do(s, StartAdd(t, n)), t, 5) ==
      s.(head := To(n), next := s.next[n := s.head], owned := s.owned - {n}, refs := s.refs[n := 1])
  {
    hide Reachable, Alone;
    QuietRefs(s, n);
    var s0 := s.(owned := s.owned - {n});
    RaisesFlag(s0, t, n, 5);
    var up := s0.(refs := s.refs[n := SHOULD_BE_ON_FREELIST]);
    LoadsHeadToAdd(up, t, n, 4);
    StoresNext(up, t, n, s.head, 3);
    var linked := up.(next := s.next[n := s.head]);
    StoresRefs(linked, t, n, s.head, 2);
    PutsOn(linked.(refs := linked.refs[n := 1]), t, n);
    assert s.pc[t := Idle] == s.pc && s.refs[n := SHOULD_BE_ON_FREELIST][n := 1] == s.refs[n := 1];
  }

  lemma ChainPush(head: Link, next: map<Node, Link>, list: seq<Node>, n: Node)
    requires Chain(head, next, list) && n !in list
    ensures Chain(To(n), next[n := head], [n] + list)
  {
    var longer := [n] + list;
    forall i: nat | i < |list| ensures longer[i + 1] == list[i] && LinkAfter(longer, i + 1) == LinkAfter(list, i) {
    }
    forall i {:trigger longer[i]} | 0 <= i < |longer| ensures next[n := head][longer[i]] == LinkAfter(longer, i) {
      if i > 0 {
        assert longer[i] == list[i - 1];
      }
    }
  }

  /** Just that node is listed then that was not. */
  lemma PutListed(s: State, n: Node, m: Node)
    requires Reachable(s) && n in s.owned
    ensures
      Listed(s.(head := To(n), next := s.next[n := s.head], owned := s.owned - {n}, refs := s.refs[n := 1]), m)
      <==> Listed(s, m) || m == n
  {
    hide Reachable, Listed, ThreadOk, Chain;
    var h := ReachableInv(s);
    assert NodeOk(s, h, n);
    ChainPush(s.head, s.next, h.list, n);
    ChainListed(s, h.list, m);
    ChainListed(s.(head := To(n), next := s.next[n := s.head], owned := s.owned - {n}, refs := s.refs[n := 1]),
                [n] + h.list, m);
  }

  // ----- A call amid others -----

  /** The head is null in some state of the run. */
  ghost predicate SeenEmpty(s: State, run: seq<Action>)
    requires Legal(s, run)
    decreases |run|
  {
    s.head == Null || (run != [] && SeenEmpty(Do(s, run[0]), run[1..]))
  }

  /** A step of `t` in the run makes a node its caller's. */
  ghost predicate Gets(s: State, run: seq<Action>, t: Thread)
    requires Legal(s, run)
    decreases |run|
  {
    run != [] &&
    (|| (run[0] == Step(t) && exists n :: n !in s.owned && n in Do(s, run[0]).owned)
     || Gets(Do(s, run[0]), run[1..], t))
  }

  /** The thread is inside `try_get`, and the head it would go on with, if it has loaded one, is not null. */
  ghost predicate Getting(pc: Pc) {
    match pc
    case Idle => false
    case RaiseFlag(_) => false
    case DropOne(_, l) => l.To?
    case AddLoadHead(_, k) => k.FromTryGet? && k.head.To?
    case AddStoreNext(_, _, k) => k.FromTryGet? && k.head.To?
    case AddStoreRefs(_, _, k) => k.FromTryGet? && k.head.To?
    case AddCasHead(_, _, k) => k.FromTryGet? && k.head.To?
    case AddGiveUp(_, _, k) => k.FromTryGet? && k.head.To?
    case _ => true
  }

  lemma StepGets(s: State, h: History, t: Thread)
    requires Inv(s, h) && Enabled(s, Step(t)) && Getting(s.pc[t]) && s.head != Null
    ensures
      || Getting(DoStep(s, t).pc[t])
      || exists n :: n !in s.owned && n in DoStep(s, t).owned
  {
    assert ThreadOk(s, h, t);
    if s.pc[t].DropTwo? {
      var n := s.pc[t].head;
      assert NodeOk(s, h, n);
      assert n !in s.owned && n in DoStep(s, t).owned;
    }
  }

  lemma {:induction false} GetsOrSeesEmpty(s: State, h: History, run: seq<Action>, t: Thread)
    requires Inv(s, h) && Legal(s, run) && t in s.pc && Getting(s.pc[t])
    requires t in After(s, run).pc && After(s, run).pc[t] == Idle
    ensures Gets(s, run, t) || SeenEmpty(s, run)
    decreases |run|
  {
    hide Inv, Getting;
    if run == [] {
      NotIdle(s.pc[t]);
    } else if s.head != Null {
      var s' := Do(s, run[0]);
      ActionKeepsInv(s, h, run[0]);
      if run[0].t == t {
        OnlyStep(s, run[0], t);
        StepGets(s, h, t);
        if Getting(s'.pc[t]) {
          GetsOrSeesEmpty(s', Track(s, h, run[0]), run[1..], t);
        }
      } else {
        OthersStep(s, run[0], t);
        GetsOrSeesEmpty(s', Track(s, h, run[0]), run[1..], t);
      }
    }
  }

  lemma NotIdle(pc: Pc)
    requires Getting(pc)
    ensures pc != Idle
  {
  }

  lemma OnlyStep(s: State, a: Action, t: Thread)
    requires Enabled(s, a) && a.t == t && Getting(s.pc[t])
    ensures a == Step(t)
  {
  }

  lemma OthersStep(s: State, a: Action, t: Thread)
    requires Enabled(s, a) && a.t != t && t in s.pc
    ensures t in Do(s, a).pc && Do(s, a).pc[t] == s.pc[t]
  {
  }

  /** Whatever other threads do: if a `try_get` that started in `s` has ended without a node, the list was empty at
      some moment of the run since. */
  lemma NoneOnlyIfEmpty(s: State, run: seq<Action>, t: Thread)
    requires Reachable(s) && Legal(s, run) && run != [] && run[0] == StartTryGet(t)
    requires t in After(s, run).pc && After(s, run).pc[t] == Idle && !Gets(s, run, t)
    ensures SeenEmpty(Do(s, run[0]), run[1..])
  {
    hide Inv, Reachable, Track;
    var h := ReachableInv(s);
    ActionKeepsInv(s, h, run[0]);
    GetsOrSeesEmpty(Do(s, run[0]), Track(s, h, run[0]), run[1..], t);
  }
}
