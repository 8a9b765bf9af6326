/** The lock-free free list of the concurrent queue: a CAS-based stack whose nodes carry a
    reference count and a "should be on free list" bit in one 32-bit word.

    The list is modelled as a machine whose atomic steps are the loads, stores, fetch-adds and
    compare-exchanges of `add`, `try_get` and `add_knowing_refcount_is_zero`, interleaved in any
    order by any number of threads. */
module FreeList {

  type Node = nat
  type Thread = nat

  datatype Link = Null | To(node: Node)

  const SHOULD_BE_ON_FREELIST: int := 0x8000_0000
  const WORD: int := 0x1_0000_0000

  /** An unsigned 32-bit value. */
  type Word = x: int | 0 <= x < WORD

  /** The sum of a 32-bit fetch-add, negative operands standing for fetch-sub: wraps around. */
  function Plus(x: Word, d: int): Word
    requires -WORD <= d <= WORD
  {
    if x + d < 0 then x + d + WORD else if x + d < WORD then x + d else x + d - WORD
  }

  /** `refs & REFS_MASK`: the low 31 bits. */
  function Count(refs: Word): nat {
    if refs < SHOULD_BE_ON_FREELIST then refs else refs - SHOULD_BE_ON_FREELIST
  }

  /** Where `add_knowing_refcount_is_zero` returns to: its caller `add`, or the loop of `try_get`
      with the head it has loaded. */
  datatype Caller = FromAdd | FromTryGet(head: Link)

  /** The next atomic operation of a thread, with its local variables. */
  datatype Pc =
    | Idle
      // try_get
    | LoadHead
    | LoadRefs(head: Node)
    | CasRefs(head: Node, refs: Word)
    | LoadNext(head: Node)
    | CasHead(head: Node, next: Link)
    | DropTwo(head: Node)
    | DropOne(prev: Node, newHead: Link)
      // add
    | RaiseFlag(node: Node)
      // add_knowing_refcount_is_zero
    | AddLoadHead(node: Node, caller: Caller)
    | AddStoreNext(node: Node, seen: Link, caller: Caller)
    | AddStoreRefs(node: Node, seen: Link, caller: Caller)
    | AddCasHead(node: Node, seen: Link, caller: Caller)
    | AddGiveUp(node: Node, seen: Link, caller: Caller)

  /** The shared words, the threads' positions, and the nodes the clients own: those never added yet
      and those `try_get` has returned since. */
  datatype State = State(
    head: Link,
    refs: map<Node, Word>,
    next: map<Node, Link>,
    pc: map<Thread, Pc>,
    owned: set<Node>)

  datatype Action = StartTryGet(t: Thread) | StartAdd(t: Thread, node: Node) | Step(t: Thread)

  /** A call starts on an idle thread; only an owner adds a node, and gives it up by the call. */
  ghost predicate Enabled(s: State, a: Action) {
    a.t in s.pc &&
    match a
    case StartTryGet(t) => s.pc[t].Idle?
    case StartAdd(t, n) => s.pc[t].Idle? && n in s.owned
    case Step(t) =>
      match s.pc[t]
      case Idle => false
      case LoadHead => true
      case LoadRefs(n) => n in s.refs
      case CasRefs(n, _) => n in s.refs
      case LoadNext(n) => n in s.next
      case CasHead(n, _) => true
      case DropTwo(n) => n in s.refs
      case DropOne(n, _) => n in s.refs
      case RaiseFlag(n) => n in s.refs
      case AddLoadHead(n, _) => true
      case AddStoreNext(n, _, _) => n in s.next
      case AddStoreRefs(n, _, _) => n in s.refs
      case AddCasHead(n, _, _) => true
      case AddGiveUp(n, _, _) => n in s.refs
  }

  /** `while (head != nullptr)` of try_get. */
  function Loop(head: Link): Pc {
    if head.Null? then Idle else LoadRefs(head.node)
  }

  function Return(caller: Caller): Pc {
    match caller
    case FromAdd => Idle
    case FromTryGet(head) => Loop(head)
  }

  ghost function Do(s: State, a: Action): State
    requires Enabled(s, a)
  {
    match a
    case StartTryGet(t) => s.(pc := s.pc[t := LoadHead])
    case StartAdd(t, n) => s.(pc := s.pc[t := RaiseFlag(n)], owned := s.owned - {n})
    case Step(t) => DoStep(s, t)
  }

  ghost function DoStep(s: State, t: Thread): State
    requires Enabled(s, Step(t))
  {
    match s.pc[t]
    case LoadHead =>
      s.(pc := s.pc[t := Loop(s.head)])
    case LoadRefs(n) =>
      s.(pc := s.pc[t := if Count(s.refs[n]) == 0 then LoadHead else CasRefs(n, s.refs[n])])
    case CasRefs(n, r) =>
      if s.refs[n] == r
      then s.(refs := s.refs[n := Plus(r, 1)], pc := s.pc[t := LoadNext(n)])
      else s.(pc := s.pc[t := LoadHead])
    case LoadNext(n) =>
      s.(pc := s.pc[t := CasHead(n, s.next[n])])
    case CasHead(n, next) =>
      if s.head == To(n)
      then s.(head := next, pc := s.pc[t := DropTwo(n)])
      else s.(pc := s.pc[t := DropOne(n, s.head)])
    case DropTwo(n) =>
      s.(refs := s.refs[n := Plus(s.refs[n], -2)], pc := s.pc[t := Idle], owned := s.owned + {n})
    case DropOne(n, h) =>
      s.(refs := s.refs[n := Plus(s.refs[n], -1)],
         pc := s.pc[t := if s.refs[n] == SHOULD_BE_ON_FREELIST + 1 then AddLoadHead(n, FromTryGet(h)) else Loop(h)])
    case RaiseFlag(n) =>
      s.(refs := s.refs[n := Plus(s.refs[n], SHOULD_BE_ON_FREELIST)],
         pc := s.pc[t := if s.refs[n] == 0 then AddLoadHead(n, FromAdd) else Idle])
    case AddLoadHead(n, k) =>
      s.(pc := s.pc[t := AddStoreNext(n, s.head, k)])
    case AddStoreNext(n, h, k) =>
      s.(next := s.next[n := h], pc := s.pc[t := AddStoreRefs(n, h, k)])
    case AddStoreRefs(n, h, k) =>
      s.(refs := s.refs[n := 1], pc := s.pc[t := AddCasHead(n, h, k)])
    case AddCasHead(n, h, k) =>
      if s.head == h
      then s.(head := To(n), pc := s.pc[t := Return(k)])
      else s.(pc := s.pc[t := AddGiveUp(n, s.head, k)])
    case AddGiveUp(n, h, k) =>
      s.(refs := s.refs[n := Plus(s.refs[n], SHOULD_BE_ON_FREELIST - 1)],
         pc := s.pc[t := if s.refs[n] == 1 then AddStoreNext(n, h, k) else Return(k)])
  }

  /** An empty list, no thread inside a call, every node owned by a client with its words at their
      initial values. The thread count stays below what 31 bits can count. */
  ghost predicate Init(s: State) {
    && s.head == Null
    && s.refs.Keys == s.next.Keys == s.owned
    && (forall n :: n in s.refs ==> s.refs[n] == 0)
    && (forall n :: n in s.next ==> s.next[n] == Null)
    && (forall t :: t in s.pc ==> s.pc[t] == Idle)
    && |s.pc| < SHOULD_BE_ON_FREELIST - 1
  }

  // ----- Runs -----

  ghost predicate Legal(s: State, run: seq<Action>)
    decreases |run|
  {
    run == [] || (Enabled(s, run[0]) && Legal(Do(s, run[0]), run[1..]))
  }

  ghost function After(s: State, run: seq<Action>): State
    requires Legal(s, run)
    decreases |run|
  {
    if run == [] then s else After(Do(s, run[0]), run[1..])
  }

  // ----- Where each node is -----

  /** Proof history, never read by a step: the list from its head, and each node's place. */
  datatype Place = Owned | Entering(t: Thread) | Adding(t: Thread) | Waiting | OnList | Taken(t: Thread)
  datatype History = History(list: seq<Node>, place: map<Node, Place>)

  /** The thread has counted itself in the node's reference count. */
  predicate Holds(pc: Pc, n: Node) {
    match pc
    case LoadNext(m) => m == n
    case CasHead(m, _) => m == n
    case DropTwo(m) => m == n
    case DropOne(m, _) => m == n
    case _ => false
  }

  ghost function Holders(s: State, n: Node): set<Thread> {
    set t | t in s.pc && Holds(s.pc[t], n)
  }

  /** The node whose `add_knowing_refcount_is_zero` this thread is running. */
  predicate Adds(pc: Pc, n: Node) {
    match pc
    case AddLoadHead(m, _) => m == n
    case AddStoreNext(m, _, _) => m == n
    case AddStoreRefs(m, _, _) => m == n
    case AddCasHead(m, _, _) => m == n
    case AddGiveUp(m, _, _) => m == n
    case _ => false
  }

  /** Between the point where the count was seen to be zero and the store of 1. */
  predicate BeforeStore(pc: Pc) {
    pc.AddLoadHead? || pc.AddStoreNext? || pc.AddStoreRefs?
  }

  ghost predicate NodeOk(s: State, h: History, n: Node)
    requires n in s.refs && n in h.place
  {
    var k := |Holders(s, n)|;
    match h.place[n]
    case Owned => n in s.owned && s.refs[n] == k
    case Entering(t) => n !in s.owned && t in s.pc && s.pc[t] == RaiseFlag(n) && s.refs[n] == k
    case Waiting => n !in s.owned && s.refs[n] == SHOULD_BE_ON_FREELIST + k && k > 0
    case OnList => n !in s.owned && s.refs[n] == 1 + k
    case Taken(t) => n !in s.owned && t in s.pc && s.pc[t] == DropTwo(n) && s.refs[n] == 1 + k
    case Adding(t) =>
      && n !in s.owned && t in s.pc && Adds(s.pc[t], n)
      && if BeforeStore(s.pc[t]) then s.refs[n] == SHOULD_BE_ON_FREELIST && k == 0 else s.refs[n] == 1 + k
  }

  ghost predicate Known(s: State, l: Link) {
    l.To? ==> l.node in s.refs
  }

  ghost predicate KnownCaller(s: State, k: Caller) {
    k.FromTryGet? ==> Known(s, k.head)
  }

  ghost predicate ThreadOk(s: State, h: History, t: Thread)
    requires t in s.pc && s.refs.Keys == s.next.Keys == h.place.Keys
  {
    match s.pc[t]
    case Idle => true
    case LoadHead => true
    case LoadRefs(n) => n in s.refs
    case CasRefs(n, r) => n in s.refs && Count(r) != 0
    case LoadNext(n) => n in s.refs
    case CasHead(n, next) => n in s.refs && s.next[n] == next
    case DropTwo(n) => n in s.refs && h.place[n] == Taken(t)
    case DropOne(n, l) => n in s.refs && Known(s, l)
    case RaiseFlag(n) => n in s.refs && h.place[n] == Entering(t)
    case AddLoadHead(n, k) => n in s.refs && KnownCaller(s, k) && h.place[n] == Adding(t)
    case AddStoreNext(n, l, k) => n in s.refs && KnownCaller(s, k) && Known(s, l) && h.place[n] == Adding(t)
    case AddStoreRefs(n, l, k) =>
      n in s.refs && KnownCaller(s, k) && Known(s, l) && h.place[n] == Adding(t) && s.next[n] == l
    case AddCasHead(n, l, k) =>
      n in s.refs && KnownCaller(s, k) && Known(s, l) && h.place[n] == Adding(t) && s.next[n] == l
    case AddGiveUp(n, l, k) => n in s.refs && KnownCaller(s, k) && Known(s, l) && h.place[n] == Adding(t)
  }

  function LinkAfter(list: seq<Node>, i: nat): Link {
    if i + 1 < |list| then To(list[i + 1]) else Null
  }

  /** `list` is what the links spell out, starting from `head`. */
  ghost predicate Chain(head: Link, next: map<Node, Link>, list: seq<Node>) {
    && head == (if list == [] then Null else To(list[0]))
    && (forall i :: 0 <= i < |list| ==> list[i] in next)
    && (forall i {:trigger next[list[i]]} :: 0 <= i < |list| ==> next[list[i]] == LinkAfter(list, i))
    && (forall i, j :: 0 <= i < j < |list| ==> list[i] != list[j])
  }

  ghost predicate Inv(s: State, h: History) {
    && s.refs.Keys == s.next.Keys == h.place.Keys
    && |s.pc| < SHOULD_BE_ON_FREELIST - 1
    && s.owned <= s.refs.Keys
    && Chain(s.head, s.next, h.list)
    && (forall n :: n in h.list ==> n in s.refs)
    && (forall n :: n in h.place ==> (h.place[n] == OnList <==> n in h.list))
    && (forall n {:trigger NodeOk(s, h, n)} :: n in s.refs ==> NodeOk(s, h, n))
    && (forall t {:trigger ThreadOk(s, h, t)} :: t in s.pc ==> ThreadOk(s, h, t))
  }

  /** How a step moves the history on. */
  ghost function Track(s: State, h: History, a: Action): History
    requires Enabled(s, a) && Inv(s, h)
  {
    match a
    case StartTryGet(_) => h
    case StartAdd(t, n) => h.(place := h.place[n := Entering(t)])
    case Step(t) =>
      match s.pc[t]
      case CasHead(n, _) =>
        if s.head == To(n) then History(h.list[1..], h.place[n := Taken(t)]) else h
      case DropTwo(n) => h.(place := h.place[n := Owned])
      case DropOne(n, _) =>
        if s.refs[n] == SHOULD_BE_ON_FREELIST + 1 then h.(place := h.place[n := Adding(t)]) else h
      case RaiseFlag(n) => h.(place := h.place[n := if s.refs[n] == 0 then Adding(t) else Waiting])
      case AddCasHead(n, l, _) =>
        if s.head == l then History([n] + h.list, h.place[n := OnList]) else h
      case AddGiveUp(n, _, _) => if s.refs[n] == 1 then h else h.(place := h.place[n := Waiting])
      case _ => h
  }

  // ----- Counting holders -----

  lemma HoldersSame(s: State, s': State, t: Thread, n: Node)
    requires t in s.pc && t in s'.pc && s'.pc == s.pc[t := s'.pc[t]]
    requires Holds(s.pc[t], n) == Holds(s'.pc[t], n)
    ensures Holders(s', n) == Holders(s, n)
  {
  }

  lemma HoldersGain(s: State, s': State, t: Thread, n: Node)
    requires t in s.pc && t in s'.pc && s'.pc == s.pc[t := s'.pc[t]]
    requires !Holds(s.pc[t], n) && Holds(s'.pc[t], n)
    ensures |Holders(s', n)| == |Holders(s, n)| + 1
  {
    assert Holders(s', n) == Holders(s, n) + {t};
  }

  lemma HoldersLose(s: State, s': State, t: Thread, n: Node)
    requires t in s.pc && t in s'.pc && s'.pc == s.pc[t := s'.pc[t]]
    requires Holds(s.pc[t], n) && !Holds(s'.pc[t], n)
    ensures |Holders(s', n)| + 1 == |Holders(s, n)|
  {
    assert Holders(s', n) == Holders(s, n) - {t};
    assert t in Holders(s, n);
  }

  lemma HoldersBounded(s: State, n: Node)
    ensures |Holders(s, n)| <= |s.pc|
  {
    SubsetSize(Holders(s, n), s.pc.Keys);
  }

  lemma SubsetSize(a: set<Thread>, b: set<Thread>)
    requires a <= b
    ensures |a| <= |b|
  {
    assert b == a + (b - a);
  }

  // ----- Every step keeps the invariant -----

  /** The position concerns no node but `n`. */
  ghost predicate Focus(pc: Pc, n: Node) {
    forall m :: m != n ==> !Holds(pc, m) && !Adds(pc, m) && pc != RaiseFlag(m)
  }

  /** A step of `t` about `n` leaves every other node's condition alone. */
  lemma OtherNodes(s: State, h: History, s': State, h': History, t: Thread, n: Node)
    requires Inv(s, h) && t in s.pc && t in s'.pc && s'.pc == s.pc[t := s'.pc[t]]
    requires s'.refs.Keys == s.refs.Keys && h'.place.Keys == h.place.Keys
    requires Focus(s.pc[t], n) && Focus(s'.pc[t], n)
    requires forall m :: m in s.refs && m != n ==> s'.refs[m] == s.refs[m] && h'.place[m] == h.place[m]
    requires forall m :: m != n ==> (m in s'.owned <==> m in s.owned)
    ensures forall m {:trigger NodeOk(s', h', m)} :: m in s'.refs && m != n ==> NodeOk(s', h', m)
  {
    forall m | m in s'.refs && m != n ensures NodeOk(s', h', m) {
      assert NodeOk(s, h, m);
      HoldersSame(s, s', t, m);
    }
  }

  /** The node whose link or place a position relies on. */
  predicate Minds(pc: Pc, n: Node) {
    Holds(pc, n) || Adds(pc, n) || pc == RaiseFlag(n)
  }

  /** The other threads keep their conditions when links stay and only `n` may change its place. */
  lemma OtherThreads(s: State, h: History, s': State, h': History, t: Thread, n: Node)
    requires Inv(s, h) && t in s.pc && t in s'.pc && s'.pc == s.pc[t := s'.pc[t]]
    requires s'.refs.Keys == s'.next.Keys == h'.place.Keys == s.refs.Keys
    requires n in s.refs && s'.next == s.next
    requires forall m :: m in s.refs && m != n ==> h'.place[m] == h.place[m]
    requires h'.place[n] == h.place[n] || h.place[n] in {Owned, Waiting, OnList, Entering(t), Taken(t), Adding(t)}
    ensures forall u {:trigger ThreadOk(s', h', u)} :: u in s'.pc && u != t ==> ThreadOk(s', h', u)
  {
    forall u | u in s'.pc && u != t ensures ThreadOk(s', h', u) {
      assert ThreadOk(s, h, u);
      if h.place[n] != h'.place[n] && Minds(s.pc[u], n) && !s.pc[u].DropOne? && !s.pc[u].LoadNext? &&
          !s.pc[u].CasHead? {
        assert false;
      }
    }
  }

  /** A step that only moves a thread, between positions that claim nothing of any node or the same. */
  lemma MoveKeepsInv(s: State, h: History, s': State, t: Thread)
    requires Inv(s, h) && t in s.pc && t in s'.pc
    requires s' == s.(pc := s.pc[t := s'.pc[t]])
    requires forall n :: Holds(s.pc[t], n) == Holds(s'.pc[t], n)
    requires forall n :: Adds(s.pc[t], n) == Adds(s'.pc[t], n)
    requires forall n :: Adds(s.pc[t], n) ==> BeforeStore(s.pc[t]) == BeforeStore(s'.pc[t])
    requires !s.pc[t].DropTwo? && !s.pc[t].RaiseFlag?
    requires ThreadOk(s', h, t)
    ensures Inv(s', h)
  {
    forall n | n in s'.refs ensures NodeOk(s', h, n) {
      assert NodeOk(s, h, n);
      HoldersSame(s, s', t, n);
    }
    forall u | u in s'.pc ensures ThreadOk(s', h, u) {
      assert u != t ==> ThreadOk(s, h, u);
    }
  }

  lemma CasRefsKeepsInv(s: State, h: History, t: Thread)
    requires Inv(s, h) && Enabled(s, Step(t)) && s.pc[t].CasRefs?
    ensures Inv(DoStep(s, t), h)
  {
    var n, r := s.pc[t].head, s.pc[t].refs;
    var s' := DoStep(s, t);
    assert ThreadOk(s, h, t);
    if s.refs[n] != r {
      MoveKeepsInv(s, h, s', t);
    } else {
      assert NodeOk(s, h, n);
      HoldersBounded(s, n);
      HoldersGain(s, s', t, n);
      OtherNodes(s, h, s', h, t, n);
      assert NodeOk(s', h, n);
      OtherThreads(s, h, s', h, t, n);
    }
  }

  lemma ChainPop(head: Link, next: map<Node, Link>, list: seq<Node>)
    requires Chain(head, next, list) && list != []
    ensures head == To(list[0]) && Chain(next[list[0]], next, list[1..])
  {
    var rest := list[1..];
    forall i | 0 <= i < |rest|
      ensures rest[i] in next && next[rest[i]] == LinkAfter(rest, i)
    {
      assert rest[i] == list[i + 1];
    }
  }

  lemma ChainPush(head: Link, next: map<Node, Link>, list: seq<Node>, n: Node)
    requires Chain(head, next, list) && n !in list && n in next && next[n] == head
    ensures Chain(To(n), next, [n] + list)
  {
    var longer := [n] + list;
    assert forall i :: 0 < i < |longer| ==> longer[i] == list[i - 1];
  }

  lemma CasHeadLosesInv(s: State, h: History, t: Thread)
    requires Inv(s, h) && Enabled(s, Step(t)) && s.pc[t].CasHead? && s.head != To(s.pc[t].head)
    ensures Inv(DoStep(s, t), h)
  {
    assert ThreadOk(s, h, t);
    HeadKnown(s, h);
    MoveKeepsInv(s, h, DoStep(s, t), t);
  }

  lemma HeadKnown(s: State, h: History)
    requires Inv(s, h)
    ensures Known(s, s.head)
  {
    assert s.head.To? ==> h.list[0] in h.list;
  }

  lemma CasHeadOwn(s: State, h: History, t: Thread)
    requires Inv(s, h) && Enabled(s, Step(t)) && s.pc[t].CasHead? && s.head == To(s.pc[t].head)
    ensures
      var n := s.pc[t].head;
      var s', h' := DoStep(s, t), Track(s, h, Step(t));
      && n in s.refs && n in h.list && s.next[n] == s.pc[t].next && h.place[n] == OnList
      && NodeOk(s', h', n) && ThreadOk(s', h', t) && Focus(s.pc[t], n) && Focus(s'.pc[t], n)
  {
    var n := s.pc[t].head;
    assert h.list[0] == n && n in h.list;
    assert ThreadOk(s, h, t) && NodeOk(s, h, n);
    HoldersSame(s, DoStep(s, t), t, n);
  }

  lemma CasHeadKeepsInv(s: State, h: History, t: Thread)
    requires Inv(s, h) && Enabled(s, Step(t)) && s.pc[t].CasHead?
    ensures Inv(DoStep(s, t), Track(s, h, Step(t)))
  {
    var n := s.pc[t].head;
    var s', h' := DoStep(s, t), Track(s, h, Step(t));
    if s.head != To(n) {
      CasHeadLosesInv(s, h, t);
    } else {
      CasHeadOwn(s, h, t);
      HeadOfChain(s.head, s.next, h.list, n);
      ChainPop(s.head, s.next, h.list);
      hide NodeOk, ThreadOk, Chain, Focus, Holds, Adds;
      OtherNodes(s, h, s', h', t, n);
      OtherThreads(s, h, s', h', t, n);
      assert h.list == [n] + h'.list;
    }
  }

  lemma DropTwoOwn(s: State, h: History, t: Thread)
    requires Inv(s, h) && Enabled(s, Step(t)) && s.pc[t].DropTwo?
    ensures
      var n := s.pc[t].head;
      var s', h' := DoStep(s, t), Track(s, h, Step(t));
      && n in s'.refs && NodeOk(s', h', n) && ThreadOk(s', h', t)
      && Focus(s.pc[t], n) && Focus(s'.pc[t], n)
      && (h'.place[n] == h.place[n] || h.place[n] in {Taken(t)})
  {
    var n := s.pc[t].head;
    assert ThreadOk(s, h, t) && NodeOk(s, h, n);
    HoldersBounded(s, n);
    HoldersLose(s, DoStep(s, t), t, n);
  }

  lemma DropTwoKeepsInv(s: State, h: History, t: Thread)
    requires Inv(s, h) && Enabled(s, Step(t)) && s.pc[t].DropTwo?
    ensures Inv(DoStep(s, t), Track(s, h, Step(t)))
  {
    var n := s.pc[t].head;
    var s', h' := DoStep(s, t), Track(s, h, Step(t));
    DropTwoOwn(s, h, t);
    hide NodeOk, ThreadOk, Chain, Focus, Holds, Adds;
    OtherNodes(s, h, s', h', t, n);
    OtherThreads(s, h, s', h', t, n);
  }

  lemma DropOneOwn(s: State, h: History, t: Thread)
    requires Inv(s, h) && Enabled(s, Step(t)) && s.pc[t].DropOne?
    ensures
      var n := s.pc[t].prev;
      var s', h' := DoStep(s, t), Track(s, h, Step(t));
      && n in s'.refs && NodeOk(s', h', n) && ThreadOk(s', h', t)
      && Focus(s.pc[t], n) && Focus(s'.pc[t], n)
      && (h'.place[n] == h.place[n] || h.place[n] in {Waiting})
  {
    var n := s.pc[t].prev;
    assert ThreadOk(s, h, t) && NodeOk(s, h, n);
    HoldersBounded(s, n);
    HoldersLose(s, DoStep(s, t), t, n);
  }

  lemma DropOneKeepsInv(s: State, h: History, t: Thread)
    requires Inv(s, h) && Enabled(s, Step(t)) && s.pc[t].DropOne?
    ensures Inv(DoStep(s, t), Track(s, h, Step(t)))
  {
    var n := s.pc[t].prev;
    var s', h' := DoStep(s, t), Track(s, h, Step(t));
    DropOneOwn(s, h, t);
    hide NodeOk, ThreadOk, Chain, Focus, Holds, Adds;
    OtherNodes(s, h, s', h', t, n);
    OtherThreads(s, h, s', h', t, n);
  }

  lemma RaiseFlagOwn(s: State, h: History, t: Thread)
    requires Inv(s, h) && Enabled(s, Step(t)) && s.pc[t].RaiseFlag?
    ensures
      var n := s.pc[t].node;
      var s', h' := DoStep(s, t), Track(s, h, Step(t));
      && n in s'.refs && NodeOk(s', h', n) && ThreadOk(s', h', t)
      && Focus(s.pc[t], n) && Focus(s'.pc[t], n)
      && (h'.place[n] == h.place[n] || h.place[n] in {Entering(t)})
  {
    var n := s.pc[t].node;
    assert ThreadOk(s, h, t) && NodeOk(s, h, n);
    HoldersBounded(s, n);
    HoldersSame(s, DoStep(s, t), t, n);
  }

  lemma RaiseFlagKeepsInv(s: State, h: History, t: Thread)
    requires Inv(s, h) && Enabled(s, Step(t)) && s.pc[t].RaiseFlag?
    ensures Inv(DoStep(s, t), Track(s, h, Step(t)))
  {
    var n := s.pc[t].node;
    var s', h' := DoStep(s, t), Track(s, h, Step(t));
    RaiseFlagOwn(s, h, t);
    hide NodeOk, ThreadOk, Chain, Focus, Holds, Adds;
    OtherNodes(s, h, s', h', t, n);
    OtherThreads(s, h, s', h', t, n);
  }

  lemma AddLoadHeadKeepsInv(s: State, h: History, t: Thread)
    requires Inv(s, h) && Enabled(s, Step(t)) && s.pc[t].AddLoadHead?
    ensures Inv(DoStep(s, t), h)
  {
    assert ThreadOk(s, h, t);
    assert Known(s, s.head) by { assert s.head.To? ==> h.list[0] in h.list; }
    MoveKeepsInv(s, h, DoStep(s, t), t);
  }

  /** Nobody can hold a node whose count was seen at zero, so its link may be overwritten. */
  lemma AddStoreNextKeepsInv(s: State, h: History, t: Thread)
    requires Inv(s, h) && Enabled(s, Step(t)) && s.pc[t].AddStoreNext?
    ensures Inv(DoStep(s, t), h)
  {
    var n := s.pc[t].node;
    var s' := DoStep(s, t);
    assert ThreadOk(s, h, t) && NodeOk(s, h, n);
    HoldersSame(s, s', t, n);
    OtherNodes(s, h, s', h, t, n);
    assert NodeOk(s', h, n);
    assert n !in h.list;
    forall u | u in s'.pc ensures ThreadOk(s', h, u) {
      assert ThreadOk(s, h, u);
      assert Holds(s.pc[u], n) ==> u in Holders(s, n);
    }
  }

  lemma AddStoreRefsKeepsInv(s: State, h: History, t: Thread)
    requires Inv(s, h) && Enabled(s, Step(t)) && s.pc[t].AddStoreRefs?
    ensures Inv(DoStep(s, t), h)
  {
    var n := s.pc[t].node;
    var s' := DoStep(s, t);
    assert ThreadOk(s, h, t) && NodeOk(s, h, n);
    HoldersSame(s, s', t, n);
    OtherNodes(s, h, s', h, t, n);
    assert NodeOk(s', h, n);
    OtherThreads(s, h, s', h, t, n);
  }

  lemma AddCasHeadOwn(s: State, h: History, t: Thread)
    requires Inv(s, h) && Enabled(s, Step(t)) && s.pc[t].AddCasHead? && s.head == s.pc[t].seen
    ensures
      var n := s.pc[t].node;
      var s', h' := DoStep(s, t), Track(s, h, Step(t));
      && n in s.refs && n !in h.list && s.next[n] == s.head && h.place[n] == Adding(t)
      && NodeOk(s', h', n) && ThreadOk(s', h', t) && Focus(s.pc[t], n) && Focus(s'.pc[t], n)
  {
    var n := s.pc[t].node;
    assert ThreadOk(s, h, t) && NodeOk(s, h, n);
    HoldersSame(s, DoStep(s, t), t, n);
  }

  lemma AddCasHeadKeepsInv(s: State, h: History, t: Thread)
    requires Inv(s, h) && Enabled(s, Step(t)) && s.pc[t].AddCasHead?
    ensures Inv(DoStep(s, t), Track(s, h, Step(t)))
  {
    var n := s.pc[t].node;
    var s', h' := DoStep(s, t), Track(s, h, Step(t));
    if s.head != s.pc[t].seen {
      assert ThreadOk(s, h, t);
      HeadKnown(s, h);
      MoveKeepsInv(s, h, s', t);
    } else {
      AddCasHeadOwn(s, h, t);
      hide NodeOk, ThreadOk, Chain, Focus, Holds, Adds;
      OtherNodes(s, h, s', h', t, n);
      OtherThreads(s, h, s', h', t, n);
      ChainPush(s.head, s.next, h.list, n);
    }
  }

  lemma AddGiveUpOwn(s: State, h: History, t: Thread)
    requires Inv(s, h) && Enabled(s, Step(t)) && s.pc[t].AddGiveUp?
    ensures
      var n := s.pc[t].node;
      var s', h' := DoStep(s, t), Track(s, h, Step(t));
      && n in s'.refs && NodeOk(s', h', n) && ThreadOk(s', h', t)
      && Focus(s.pc[t], n) && Focus(s'.pc[t], n)
      && (h'.place[n] == h.place[n] || h.place[n] in {Adding(t)})
  {
    var n := s.pc[t].node;
    assert ThreadOk(s, h, t) && NodeOk(s, h, n);
    HoldersBounded(s, n);
    HoldersSame(s, DoStep(s, t), t, n);
  }

  lemma AddGiveUpKeepsInv(s: State, h: History, t: Thread)
    requires Inv(s, h) && Enabled(s, Step(t)) && s.pc[t].AddGiveUp?
    ensures Inv(DoStep(s, t), Track(s, h, Step(t)))
  {
    var n := s.pc[t].node;
    var s', h' := DoStep(s, t), Track(s, h, Step(t));
    AddGiveUpOwn(s, h, t);
    hide NodeOk, ThreadOk, Chain, Focus, Holds, Adds;
    OtherNodes(s, h, s', h', t, n);
    OtherThreads(s, h, s', h', t, n);
  }

  lemma StartAddKeepsInv(s: State, h: History, t: Thread, n: Node)
    requires Inv(s, h) && Enabled(s, StartAdd(t, n))
    ensures Inv(Do(s, StartAdd(t, n)), Track(s, h, StartAdd(t, n)))
  {
    var a := StartAdd(t, n);
    var s', h' := Do(s, a), Track(s, h, a);
    assert NodeOk(s, h, n);
    HoldersSame(s, s', t, n);
    OtherNodes(s, h, s', h', t, n);
    assert NodeOk(s', h', n);
    OtherThreads(s, h, s', h', t, n);
  }

  lemma ActionKeepsInv(s: State, h: History, a: Action)
    requires Inv(s, h) && Enabled(s, a)
    ensures Inv(Do(s, a), Track(s, h, a))
  {
    assert ThreadOk(s, h, a.t);
    assert Known(s, s.head) by { assert s.head.To? ==> h.list[0] in h.list; }
    match a
    case StartTryGet(t) => MoveKeepsInv(s, h, Do(s, a), t);
    case StartAdd(t, n) => StartAddKeepsInv(s, h, t, n);
    case Step(t) =>
      match s.pc[t]
      case LoadHead => MoveKeepsInv(s, h, DoStep(s, t), t);
      case LoadRefs(_) => MoveKeepsInv(s, h, DoStep(s, t), t);
      case CasRefs(_, _) => CasRefsKeepsInv(s, h, t);
      case LoadNext(_) => MoveKeepsInv(s, h, DoStep(s, t), t);
      case CasHead(_, _) => CasHeadKeepsInv(s, h, t);
      case DropTwo(_) => DropTwoKeepsInv(s, h, t);
      case DropOne(_, _) => DropOneKeepsInv(s, h, t);
      case RaiseFlag(_) => RaiseFlagKeepsInv(s, h, t);
      case AddLoadHead(_, _) => AddLoadHeadKeepsInv(s, h, t);
      case AddStoreNext(_, _, _) => AddStoreNextKeepsInv(s, h, t);
      case AddStoreRefs(_, _, _) => AddStoreRefsKeepsInv(s, h, t);
      case AddCasHead(_, _, _) => AddCasHeadKeepsInv(s, h, t);
      case AddGiveUp(_, _, _) => AddGiveUpKeepsInv(s, h, t);
  }

  // ----- Every run -----

  ghost function Start(s: State): History {
    History([], map n | n in s.refs :: Owned)
  }

  lemma InitInv(s: State)
    requires Init(s)
    ensures Inv(s, Start(s))
  {
    forall n | n in s.refs ensures NodeOk(s, Start(s), n) {
      assert Holders(s, n) == {};
    }
  }

  lemma {:induction false} RunKeepsInv(s: State, h: History, run: seq<Action>) returns (h': History)
    requires Inv(s, h) && Legal(s, run)
    ensures Inv(After(s, run), h')
    decreases |run|
  {
    if run == [] {
      h' := h;
    } else {
      ActionKeepsInv(s, h, run[0]);
      h' := RunKeepsInv(Do(s, run[0]), Track(s, h, run[0]), run[1..]);
    }
  }

  ghost predicate Reachable(s: State) {
    exists s0, run :: Init(s0) && Legal(s0, run) && After(s0, run) == s
  }

  lemma ReachableInv(s: State) returns (h: History)
    requires Reachable(s)
    ensures Inv(s, h)
  {
    var s0, run :| Init(s0) && Legal(s0, run) && After(s0, run) == s;
    InitInv(s0);
    h := RunKeepsInv(s0, Start(s0), run);
  }

  /** `n` can be reached from the head of the list along the links. */
  ghost predicate Listed(s: State, n: Node) {
    exists path: seq<Node> :: Path(s, path) && path[|path| - 1] == n
  }

  ghost predicate Path(s: State, path: seq<Node>) {
    && path != []
    && s.head == To(path[0])
    && (forall i :: 0 <= i < |path| ==> path[i] in s.next)
    && (forall i :: 0 < i < |path| ==> s.next[path[i - 1]] == To(path[i]))
  }

  lemma {:induction false} PathInChain(s: State, list: seq<Node>, path: seq<Node>, i: nat)
    requires Chain(s.head, s.next, list) && Path(s, path) && i < |path|
    ensures i < |list| && path[i] == list[i]
    decreases i
  {
    if i > 0 {
      PathInChain(s, list, path, i - 1);
      assert s.next[list[i - 1]] == To(path[i]);
    }
  }

  lemma PrefixIsPath(s: State, list: seq<Node>, i: nat)
    requires Chain(s.head, s.next, list) && i < |list|
    ensures Path(s, list[..i + 1])
  {
    var path := list[..i + 1];
    forall j | 0 < j < |path| ensures s.next[path[j - 1]] == To(path[j]) {
      assert path[j - 1] == list[j - 1] && path[j] == list[j];
    }
  }

  lemma ChainListed(s: State, list: seq<Node>, n: Node)
    requires Chain(s.head, s.next, list)
    ensures Listed(s, n) <==> n in list
  {
    hide Chain;
    if Listed(s, n) {
      var path :| Path(s, path) && path[|path| - 1] == n;
      PathInChain(s, list, path, |path| - 1);
    }
    if n in list {
      var i :| 0 <= i < |list| && list[i] == n;
      PrefixIsPath(s, list, i);
    }
  }

  /** A node is reachable through the links exactly when the history has it on the list. */
  lemma ListedIff(s: State, h: History, n: Node)
    requires Inv(s, h)
    ensures Listed(s, n) <==> n in h.list
  {
    ChainListed(s, h.list, n);
  }

  // ----- What holds in every reachable state -----

  /** No ABA: whatever happened since a thread read a node's link, the link it is about to install as
      the new head is still that node's link. */
  lemma CasInstallsCurrentNext(s: State, t: Thread)
    requires Reachable(s) && t in s.pc && s.pc[t].CasHead?
    ensures s.pc[t].head in s.next && s.next[s.pc[t].head] == s.pc[t].next
  {
    var h := ReachableInv(s);
    assert ThreadOk(s, h, t);
  }

  /** A thread about to return `n` from try_get is alone with it: the node is off the list, no client
      owns it, no other thread is returning or adding it, its flag is down, and both references it
      is about to drop are there. */
  lemma TakenByOneThread(s: State, t: Thread)
    requires Reachable(s) && t in s.pc && s.pc[t].DropTwo?
    ensures
      var n := s.pc[t].head;
      && n !in s.owned && !Listed(s, n)
      && (forall u :: u in s.pc && u != t ==> s.pc[u] != DropTwo(n) && s.pc[u] != RaiseFlag(n) && !Adds(s.pc[u], n))
      && n in s.refs && 2 <= s.refs[n] < SHOULD_BE_ON_FREELIST
  {
    var n := s.pc[t].head;
    var h := ReachableInv(s);
    assert ThreadOk(s, h, t) && NodeOk(s, h, n);
    ListedIff(s, h, n);
    HoldersBounded(s, n);
    assert t in Holders(s, n);
    forall u | u in s.pc && u != t ensures s.pc[u] != DropTwo(n) && s.pc[u] != RaiseFlag(n) && !Adds(s.pc[u], n) {
      assert ThreadOk(s, h, u);
    }
  }

  /** A node a client owns is not on the list and nobody is putting it there. */
  lemma OwnedIsOffTheList(s: State, n: Node)
    requires Reachable(s) && n in s.owned
    ensures !Listed(s, n)
    ensures forall u :: u in s.pc ==> s.pc[u] != DropTwo(n) && s.pc[u] != RaiseFlag(n) && !Adds(s.pc[u], n)
  {
    var h := ReachableInv(s);
    assert NodeOk(s, h, n);
    ListedIff(s, h, n);
    forall u | u in s.pc ensures s.pc[u] != DropTwo(n) && s.pc[u] != RaiseFlag(n) && !Adds(s.pc[u], n) {
      assert ThreadOk(s, h, u);
    }
  }

  /** Once returned, a node stays with its owner through any run in which nobody adds it again. */
  lemma {:induction false} OwnedUntilAdded(s: State, n: Node, run: seq<Action>)
    requires n in s.owned && Legal(s, run)
    requires forall a :: a in run ==> !(a.StartAdd? && a.node == n)
    ensures n in After(s, run).owned
    decreases |run|
  {
    if run != [] {
      assert run[0] in run;
      OwnedUntilAdded(Do(s, run[0]), n, run[1..]);
    }
  }

  /** In every reachable state a thread inside a call can take its next step: no run stops there. */
  lemma NoThreadIsStuck(s: State, t: Thread)
    requires Reachable(s) && t in s.pc && s.pc[t] != Idle
    ensures Enabled(s, Step(t))
  {
    var h := ReachableInv(s);
    assert ThreadOk(s, h, t);
  }

  /** The list changes only by its head being taken, or by a node under way being put in front. */
  lemma ListChanges(s: State, a: Action, m: Node)
    requires Reachable(s) && Enabled(s, a)
    ensures
      var pc := s.pc[a.t];
      Listed(Do(s, a), m) <==>
        if a.Step? && pc.CasHead? && s.head == To(pc.head) then Listed(s, m) && m != pc.head
        else if a.Step? && pc.AddCasHead? && s.head == pc.seen then Listed(s, m) || m == pc.node
        else Listed(s, m)
  {
    hide Listed, Reachable;
    var h := ReachableInv(s);
    ActionKeepsInv(s, h, a);
    ListedIff(s, h, m);
    ListedIff(Do(s, a), Track(s, h, a), m);
    TrackedList(s, h, a, m);
  }

  /** What a step does to the list of the history. */
  lemma TrackedList(s: State, h: History, a: Action, m: Node)
    requires Inv(s, h) && Enabled(s, a)
    ensures
      var pc := s.pc[a.t];
      m in Track(s, h, a).list <==>
        if a.Step? && pc.CasHead? && s.head == To(pc.head) then m in h.list && m != pc.head
        else if a.Step? && pc.AddCasHead? && s.head == pc.seen then m in h.list || m == pc.node
        else m in h.list
  {
    hide NodeOk, ThreadOk, Chain;
    HeadOfChain(s.head, s.next, h.list, m);
  }

  lemma HeadOfChain(head: Link, next: map<Node, Link>, list: seq<Node>, m: Node)
    requires Chain(head, next, list)
    ensures head.To? ==> list != [] && head == To(list[0]) && (m in list[1..] <==> m in list && m != list[0])
  {
    if list != [] {
      assert list == [list[0]] + list[1..];
    }
  }

  /** The flag is up on a node that other threads still hold: the last of them will add it. */
  predicate Flagged(s: State, n: Node) {
    n in s.refs && s.refs[n] > SHOULD_BE_ON_FREELIST
  }

  /** The thread is on its way to giving `n` to a client or to the list. */
  predicate Carries(pc: Pc, n: Node) {
    pc == DropTwo(n) || pc == RaiseFlag(n) || Adds(pc, n)
  }

  /** A node some thread carries is nobody else's: not a client's, not on the list, not flagged, and no
      other thread's to carry. */
  lemma CarriedByOneThread(s: State, n: Node, t: Thread, u: Thread)
    requires Reachable(s) && n in s.refs && t in s.pc && u in s.pc && Carries(s.pc[t], n)
    ensures n !in s.owned && !Listed(s, n) && !Flagged(s, n)
    ensures Carries(s.pc[u], n) ==> t == u
  {
    var h := ReachableInv(s);
    assert NodeOk(s, h, n) && ThreadOk(s, h, t) && ThreadOk(s, h, u);
    ListedIff(s, h, n);
    HoldersBounded(s, n);
  }

  /** No node is ever lost: a client owns it, it is on the list, a thread carries it, or its flag is up
      while some thread still holds a reference. */
  lemma NeverLost(s: State, n: Node)
    requires Reachable(s) && n in s.refs
    ensures n in s.owned || Listed(s, n) || Flagged(s, n) || exists t :: t in s.pc && Carries(s.pc[t], n)
    ensures Flagged(s, n) ==> n !in s.owned && !Listed(s, n) && exists t :: t in s.pc && Holds(s.pc[t], n)
  {
    var h := ReachableInv(s);
    assert NodeOk(s, h, n);
    ListedIff(s, h, n);
    HoldersBounded(s, n);
    match h.place[n]
    case Entering(t) => assert Carries(s.pc[t], n);
    case Taken(t) => assert Carries(s.pc[t], n);
    case Adding(t) => assert Carries(s.pc[t], n);
    case Waiting => var t :| t in Holders(s, n);
    case Owned =>
    case OnList =>
  }

  /** The threads that hold a flagged node cannot take it off the list again, since it is not there;
      and the one that lets go last is the one that adds it. */
  lemma LastHolderAdds(s: State, n: Node, t: Thread)
    requires Reachable(s) && Flagged(s, n) && t in s.pc && Holds(s.pc[t], n)
    ensures s.pc[t].LoadNext? || s.pc[t].CasHead? || s.pc[t].DropOne?
    ensures s.pc[t].CasHead? ==> s.head != To(n)
    ensures (s.pc[t].DropOne? && forall u :: u in s.pc && Holds(s.pc[u], n) ==> u == t) ==>
      Enabled(s, Step(t)) && Do(s, Step(t)).pc[t] == AddLoadHead(n, FromTryGet(s.pc[t].newHead))
  {
    var h := ReachableInv(s);
    assert NodeOk(s, h, n) && ThreadOk(s, h, t);
    ListedIff(s, h, n);
    HoldersBounded(s, n);
    assert n !in h.list;
    if s.pc[t].DropOne? && (forall u :: u in s.pc && Holds(s.pc[u], n) ==> u == t) {
      assert Holders(s, n) == {t};
    }
  }

  /** `add` finds the flag down, so its fetch-add raises it and touches no other bit. */
  lemma AddFindsFlagDown(s: State, t: Thread)
    requires Reachable(s) && t in s.pc && s.pc[t].RaiseFlag?
    ensures
      var n := s.pc[t].node;
      && Enabled(s, Step(t)) && s.refs[n] < SHOULD_BE_ON_FREELIST
      && Do(s, Step(t)).refs[n] == s.refs[n] + SHOULD_BE_ON_FREELIST
      && Count(Do(s, Step(t)).refs[n]) == |Holders(s, n)|
  {
    var h := ReachableInv(s);
    assert ThreadOk(s, h, t) && NodeOk(s, h, s.pc[t].node);
    HoldersBounded(s, s.pc[t].node);
  }

  /** With no call in progress every node is either owned by a client, with a count of 0, or on the
      list, with the list's count of 1: nothing was lost and nothing duplicated. */
  lemma QuietListIsComplete(s: State, n: Node)
    requires Reachable(s) && n in s.refs
    requires forall t :: t in s.pc ==> s.pc[t] == Idle
    ensures Listed(s, n) <==> n !in s.owned
    ensures s.refs[n] == if n in s.owned then 0 else 1
  {
    var h := ReachableInv(s);
    assert NodeOk(s, h, n);
    assert Holders(s, n) == {};
    ListedIff(s, h, n);
  }
}
