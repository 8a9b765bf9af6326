/** Lock-freedom of the free list. An exchange of the head fails only because another thread's succeeded since the
    head was loaded; and while no exchange of the head succeeds, the calls in progress come to an end after a number
    of steps that depends on the number of threads alone. */
module FreeListProgress {
  import opened Arith
  import opened FreeList

  /** A successful exchange of the head: a node is taken off the list, or put on it. */
  ghost predicate WinsHead(s: State, a: Action)
    requires Enabled(s, a)
  {
    a.Step? &&
    match s.pc[a.t]
    case CasHead(n, _) => s.head == To(n)
    case AddCasHead(_, h, _) => s.head == h
    case _ => false
  }

  /** A write to the node's count. */
  ghost predicate WritesRefs(s: State, a: Action, n: Node)
    requires Enabled(s, a)
  {
    a.Step? &&
    match s.pc[a.t]
    case CasRefs(m, r) => m == n && s.refs[m] == r
    case DropTwo(m) => m == n
    case DropOne(m, _) => m == n
    case RaiseFlag(m) => m == n
    case AddStoreRefs(m, _, _) => m == n
    case AddGiveUp(m, _, _) => m == n
    case _ => false
  }

  /** `t` wins an exchange of the head in the run. */
  ghost predicate Wins(s: State, run: seq<Action>, t: Thread)
    requires Legal(s, run)
    decreases |run|
  {
    run != [] && ((run[0].t == t && WinsHead(s, run[0])) || Wins(Do(s, run[0]), run[1..], t))
  }

  /** `t` writes the node's count in the run. */
  ghost predicate Counts(s: State, run: seq<Action>, t: Thread, n: Node)
    requires Legal(s, run)
    decreases |run|
  {
    run != [] && ((run[0].t == t && WritesRefs(s, run[0], n)) || Counts(Do(s, run[0]), run[1..], t, n))
  }

  lemma {:induction false} HeadStays(s: State, run: seq<Action>)
    requires Legal(s, run) && forall u :: !Wins(s, run, u)
    ensures After(s, run).head == s.head
    decreases |run|
  {
    if run != [] {
      var s' := Do(s, run[0]);
      assert !Wins(s, run, run[0].t);
      forall u ensures !Wins(s', run[1..], u) {
        assert !Wins(s, run, u);
      }
      HeadStays(s', run[1..]);
    }
  }

  lemma {:induction false} RefsStay(s: State, run: seq<Action>, n: Node)
    requires Legal(s, run) && n in s.refs && forall u :: !Counts(s, run, u, n)
    ensures n in After(s, run).refs && After(s, run).refs[n] == s.refs[n]
    decreases |run|
  {
    if run != [] {
      var s' := Do(s, run[0]);
      assert !Counts(s, run, run[0].t, n);
      forall u ensures !Counts(s', run[1..], u, n) {
        assert !Counts(s, run, u, n);
      }
      RefsStay(s', run[1..], n);
    }
  }

  /** The head that the thread is about to exchange. */
  ghost predicate Expects(pc: Pc, l: Link) {
    match pc
    case CasHead(n, _) => l == To(n)
    case AddCasHead(_, h, _) => l == h
    case _ => false
  }

  /** If an exchange of the head fails, another thread's has succeeded since the expected head was there. */
  lemma FailedHead(s: State, run: seq<Action>, t: Thread)
    requires Legal(s, run) && Enabled(After(s, run), Step(t)) && !Wins(s, run, t)
    requires Expects(After(s, run).pc[t], s.head) && !WinsHead(After(s, run), Step(t))
    ensures exists u :: u != t && Wins(s, run, u)
  {
    if forall u :: !Wins(s, run, u) {
      HeadStays(s, run);
    }
  }

  /** If an exchange of a count fails, another thread has written the count since it was loaded. */
  lemma FailedRefs(s: State, run: seq<Action>, t: Thread, n: Node)
    requires Legal(s, run) && n in s.refs && Enabled(After(s, run), Step(t)) && !Counts(s, run, t, n)
    requires After(s, run).pc[t] == CasRefs(n, s.refs[n]) && !WritesRefs(After(s, run), Step(t), n)
    ensures exists u :: u != t && Counts(s, run, u, n)
  {
    if forall u :: !Counts(s, run, u, n) {
      RefsStay(s, run, n);
    }
  }

  // ----- How long the calls in progress may go on -----

  /** An upper bound of the writes to counts that a thread still makes while the head stays: more if the head it
      has loaded is not the present one. */
  function Writes(pc: Pc, head: Link): nat {
    match pc
    case Idle => 0
    case LoadHead => 1
    case LoadRefs(n) => if head == To(n) then 1 else 3
    case CasRefs(n, _) => if head == To(n) then 1 else 3
    case LoadNext(n) => if head == To(n) then 0 else 2
    case CasHead(n, _) => if head == To(n) then 0 else 2
    case DropTwo(_) => 1
    case DropOne(_, l) => if l == head || l == Null then 2 else 4
    case RaiseFlag(_) => 2
    case AddLoadHead(_, _) => 1
    case AddStoreNext(_, h, _) => if h == head then 1 else 5
    case AddStoreRefs(_, h, _) => if h == head then 1 else 5
    case AddCasHead(_, h, _) => if h == head then 0 else 4
    case AddGiveUp(_, h, _) => if h == head then 4 else 6
  }

  /** An upper bound of its other steps before the next such write, while head and counts stay. */
  function Steps(pc: Pc, head: Link, refs: map<Node, Word>): nat {
    match pc
    case Idle => 0
    case LoadHead => 3
    case LoadRefs(n) => if head == To(n) then 2 else 4
    case CasRefs(n, r) => if n in refs && refs[n] == r then 1 else 4
    case LoadNext(_) => 3
    case CasHead(_, _) => 2
    case AddLoadHead(_, _) => 3
    case AddStoreNext(_, _, _) => 2
    case AddCasHead(_, _, _) => 2
    case _ => 1
  }

  /** The step of `t` makes one of its writes, or is one of its other steps. */
  lemma StepCounts(s: State, h: History, t: Thread)
    requires Inv(s, h) && Enabled(s, Step(t)) && !WinsHead(s, Step(t))
    ensures
      var s' := DoStep(s, t);
      && s'.head == s.head && s'.pc == s.pc[t := s'.pc[t]]
      && (|| Writes(s'.pc[t], s'.head) < Writes(s.pc[t], s.head)
          || (&& s'.refs == s.refs && Writes(s'.pc[t], s'.head) <= Writes(s.pc[t], s.head)
              && Steps(s'.pc[t], s'.head, s'.refs) < Steps(s.pc[t], s.head, s.refs)))
  {
    hide Inv, Writes, Steps;
    Moves(s, t);
    match s.pc[t]
    case Idle =>
    case LoadHead => Ranks(s, t);
    case LoadRefs(n) =>
      if s.head == To(n) {
        HeadIsCounted(s, h);
      }
      Ranks(s, t);
    case _ => Ranks(s, t);
  }

  lemma Moves(s: State, t: Thread)
    requires Enabled(s, Step(t)) && !WinsHead(s, Step(t))
    ensures var s' := DoStep(s, t); s'.head == s.head && s'.pc == s.pc[t := s'.pc[t]]
  {
  }

  lemma Ranks(s: State, t: Thread)
    requires Enabled(s, Step(t)) && !WinsHead(s, Step(t))
    requires s.pc[t].LoadRefs? && s.head == To(s.pc[t].head) ==> Count(s.refs[s.pc[t].head]) != 0
    ensures
      var s' := DoStep(s, t);
      || Writes(s'.pc[t], s.head) < Writes(s.pc[t], s.head)
      || (&& s'.refs == s.refs && Writes(s'.pc[t], s.head) <= Writes(s.pc[t], s.head)
          && Steps(s'.pc[t], s.head, s.refs) < Steps(s.pc[t], s.head, s.refs))
  {
  }

  lemma HeadIsCounted(s: State, h: History)
    requires Inv(s, h) && s.head.To?
    ensures s.head.node in s.refs && Count(s.refs[s.head.node]) != 0
  {
    var n := s.head.node;
    assert n == h.list[0] && n in h.list;
    assert NodeOk(s, h, n);
    HoldersBounded(s, n);
  }

  /** All threads, each once. */
  ghost predicate Lists(ts: seq<Thread>, s: State) {
    && (forall t :: t in ts <==> t in s.pc)
    && (forall i, j :: 0 <= i < j < |ts| ==> ts[i] != ts[j])
  }

  ghost function AllWrites(s: State, ts: seq<Thread>): nat
    requires forall t :: t in ts ==> t in s.pc
  {
    if ts == [] then 0 else Writes(s.pc[ts[0]], s.head) + AllWrites(s, ts[1..])
  }

  ghost function AllSteps(s: State, ts: seq<Thread>): nat
    requires forall t :: t in ts ==> t in s.pc
  {
    if ts == [] then 0 else Steps(s.pc[ts[0]], s.head, s.refs) + AllSteps(s, ts[1..])
  }

  lemma {:induction false} SumsBounded(s: State, ts: seq<Thread>)
    requires forall t :: t in ts ==> t in s.pc
    ensures AllWrites(s, ts) <= 6 * |ts| && AllSteps(s, ts) <= 4 * |ts|
    decreases |ts|
  {
    if ts != [] {
      SumsBounded(s, ts[1..]);
    }
  }

  ghost predicate OnlyMoves(s: State, s': State, t: Thread) {
    t in s.pc && t in s'.pc && s'.head == s.head && s'.pc == s.pc[t := s'.pc[t]]
  }

  /** The sums change by what changes for the one thread that moved. */
  lemma {:induction false} SumsChange(s: State, s': State, ts: seq<Thread>, t: Thread)
    requires OnlyMoves(s, s', t) && forall u :: u in ts ==> u in s.pc
    requires forall i, j :: 0 <= i < j < |ts| ==> ts[i] != ts[j]
    ensures AllWrites(s', ts) - AllWrites(s, ts) ==
      if t in ts then Writes(s'.pc[t], s'.head) - Writes(s.pc[t], s.head) else 0
    ensures s'.refs == s.refs ==>
      AllSteps(s', ts) - AllSteps(s, ts) ==
        if t in ts then Steps(s'.pc[t], s'.head, s'.refs) - Steps(s.pc[t], s.head, s.refs) else 0
    decreases |ts|
  {
    if ts != [] {
      SumsChange(s, s', ts[1..], t);
      assert ts[0] == t ==> t !in ts[1..];
      assert t in ts <==> ts[0] == t || t in ts[1..];
    }
  }

  /** How many steps the calls in progress can take at most. */
  ghost function Left(s: State, ts: seq<Thread>): nat
    requires forall t :: t in ts ==> t in s.pc
  {
    (4 * |ts| + 1) * AllWrites(s, ts) + AllSteps(s, ts)
  }

  lemma Lower(c: nat, w: nat, w': nat, r: nat, r': nat)
    requires (w' < w && r' < c) || (w' <= w && r' < r)
    ensures c * w' + r' < c * w + r
  {
    if w' < w {
      MulMonotone(w, w' + 1, c);
      assert c * (w' + 1) == c * w' + c;
    } else {
      MulMonotone(w, w', c);
    }
  }

  lemma StepLowers(s: State, h: History, ts: seq<Thread>, t: Thread)
    requires Inv(s, h) && Lists(ts, s) && Enabled(s, Step(t)) && !WinsHead(s, Step(t))
    ensures Lists(ts, DoStep(s, t)) && Left(DoStep(s, t), ts) < Left(s, ts)
  {
    hide Inv, Writes, Steps, WinsHead;
    var s' := DoStep(s, t);
    StepCounts(s, h, t);
    SumsChange(s, s', ts, t);
    SumsBounded(s', ts);
    Lower(4 * |ts| + 1, AllWrites(s, ts), AllWrites(s', ts), AllSteps(s, ts), AllSteps(s', ts));
  }

  /** No call starts, and no exchange of the head succeeds. */
  ghost predicate NoneWins(s: State, run: seq<Action>)
    requires Legal(s, run)
    decreases |run|
  {
    run == [] || (run[0].Step? && !WinsHead(s, run[0]) && NoneWins(Do(s, run[0]), run[1..]))
  }

  lemma {:induction false} RunLowers(s: State, h: History, ts: seq<Thread>, run: seq<Action>)
    requires Inv(s, h) && Lists(ts, s) && Legal(s, run) && NoneWins(s, run)
    ensures |run| <= Left(s, ts)
    decreases |run|
  {
    hide Inv, Left, WinsHead;
    if run != [] {
      StepLowers(s, h, ts, run[0].t);
      ActionKeepsInv(s, h, run[0]);
      RunLowers(Do(s, run[0]), Track(s, h, run[0]), ts, run[1..]);
    }
  }

  /** From every reachable state: while no call starts and no exchange of the head succeeds, there are no more steps
      than this. So of any run that goes on, threads take nodes off the list or put nodes on it, or calls end. */
  lemma LockFree(s: State, ts: seq<Thread>, run: seq<Action>)
    requires Reachable(s) && Lists(ts, s) && Legal(s, run) && NoneWins(s, run)
    ensures |run| <= 24 * |ts| * |ts| + 10 * |ts|
  {
    hide Inv, Legal, NoneWins, Reachable, AllWrites, AllSteps;
    var h := ReachableInv(s);
    RunLowers(s, h, ts, run);
    SumsBounded(s, ts);
    Bound(|ts|, AllWrites(s, ts));
  }

  lemma Bound(n: nat, w: nat)
    requires w <= 6 * n
    ensures (4 * n + 1) * w <= 24 * n * n + 6 * n
  {
    MulMonotone(6 * n, w, 4 * n + 1);
    assert (4 * n + 1) * (6 * n) == 24 * n * n + 6 * n;
  }
}
