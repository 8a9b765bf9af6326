/** The implicit producer's queue with consumers that make their two tests on wrapped registers, as they do, and not on
    the unbounded counts: it takes the same runs while every test falls in its window, and it does reach a test that
    does not. */
module WordTests {
  import opened Arith
  import opened ImplicitProducer
  import I = CircularIndex
  import opened Options
  import Q = DequeueProtocol

  // ----- The machine with tests on words -----

  /** A consumer's step on `w`-bit registers: the two tests, and the numbers of tickets taken from them. */
  ghost function WordStep(s: Q.State, t: Thread, w: nat): Q.State
    requires w > 0 && Q.Enabled(s, Q.Step(t))
  {
    match s.pc[t]
    case LoadCount(want, tail, oc) =>
      var desired := Difference(tail, s.optimistic, oc, w);
      s.(pc := s.pc[t := if I.CircularLessThan(0, desired, w) then Q.Reserve(Min(desired, want), oc) else Q.Idle])
    case ReloadTail(desired, oc, mine) =>
      var available := Difference(s.tail, mine, oc, w);
      if I.CircularLessThan(0, available, w) then
        var actual := Min(desired, available);
        if actual < desired
        then s.(pc := s.pc[t := Q.GiveBack(desired - actual, mine + actual, Q.ThenClaim(actual, mine))])
        else s.(pc := s.pc[t := Q.Claim(actual, mine)])
      else
        s.(pc := s.pc[t := Q.GiveBack(desired, mine, Q.ThenReturn)])
    case _ => Q.DoStep(s, t)
  }

  ghost function WordDo(c: I.Config, s: State, a: Action): State
    requires c.width > 0 && Enabled(s, a)
  {
    if a.Step? then State.State(I.Claimed(c, s.index, Moves(s, a.t)), WordStep(s.queue, a.t, c.width)) else Do(c, s, a)
  }

  ghost predicate WordLegal(c: I.Config, s: State, run: seq<Action>)
    requires c.width > 0
    decreases |run|
  {
    run == [] || (Enabled(s, run[0]) && WordLegal(c, WordDo(c, s, run[0]), run[1..]))
  }

  ghost function WordAfter(c: I.Config, s: State, run: seq<Action>): State
    requires c.width > 0 && WordLegal(c, s, run)
    decreases |run|
  {
    if run == [] then s else WordAfter(c, WordDo(c, s, run[0]), run[1..])
  }

  // ----- The same runs -----

  /** By how much the two sides of a consumer's test differ, if it is to make one. */
  ghost function Tested(q: Q.State, t: Thread): int
    requires t in q.pc
  {
    match q.pc[t]
    case LoadCount(_, tail, oc) => tail - (q.optimistic - oc)
    case ReloadTail(_, oc, mine) => q.tail - (mine - oc)
    case _ => 0
  }

  /** The test falls in its window. */
  ghost predicate InWindow(c: I.Config, s: State, a: Action)
    requires c.width > 0 && Enabled(s, a)
  {
    a.Step? ==> 0 - Pow2(c.width - 1) <= Tested(s.queue, a.t) < Pow2(c.width - 1)
  }

  ghost predicate AllInWindow(c: I.Config, s: State, run: seq<Action>)
    requires c.width > 0 && WordLegal(c, s, run)
    decreases |run|
  {
    run == [] || (InWindow(c, s, run[0]) && AllInWindow(c, WordDo(c, s, run[0]), run[1..]))
  }

  lemma SameStep(s: Q.State, t: Thread, w: nat)
    requires w > 0 && Q.Enabled(s, Q.Step(t)) && 0 - Pow2(w - 1) <= Tested(s, t) < Pow2(w - 1)
    ensures WordStep(s, t, w) == Q.DoStep(s, t)
  {
    hide Passes, Difference, I.CircularLessThan;
    match s.pc[t]
    case LoadCount(_, tail, oc) => TestOnWords(tail, s.optimistic, oc, w);
    case ReloadTail(_, oc, mine) => TestOnWords(s.tail, mine, oc, w);
    case _ =>
  }

  /** While every test falls in its window, the machine with tests on words takes the same run. */
  lemma {:induction false} SameRun(c: I.Config, s: State, run: seq<Action>)
    requires c.width > 0 && WordLegal(c, s, run) && AllInWindow(c, s, run)
    ensures Legal(c, s, run) && After(c, s, run) == WordAfter(c, s, run)
    decreases |run|
  {
    if run != [] {
      if run[0].Step? {
        SameStep(s.queue, run[0].t, c.width);
      }
      SameRun(c, WordDo(c, s, run[0]), run[1..]);
    }
  }

  /** So what holds of every reachable state holds of the registers there. */
  lemma WordLeeway(c: I.Config, s0: State, run: seq<Action>)
    requires I.ValidConfig(c) && Init(s0) && WordLegal(c, s0, run) && AllInWindow(c, s0, run)
    ensures
      var s := WordAfter(c, s0, run);
      && 0 <= s.queue.tail - s.queue.head < Pow2(c.width - 1)
      && s.index.tailIndex == I.Wrap(s.queue.tail, c.width) && s.index.headIndex == I.Wrap(s.queue.head, c.width)
  {
    SameRun(c, s0, run);
    LeewayHolds(c, s0, run);
  }

  // ----- A test that is wrong -----

  /** `s` can be reached with every test in its window. */
  ghost predicate Reached(c: I.Config, s: State)
    requires c.width > 0
  {
    exists s0, run :: Init(s0) && WordLegal(c, s0, run) && AllInWindow(c, s0, run) && WordAfter(c, s0, run) == s
  }

  lemma {:induction false} OneMore(c: I.Config, s0: State, run: seq<Action>, a: Action)
    requires c.width > 0 && WordLegal(c, s0, run) && AllInWindow(c, s0, run)
    requires Enabled(WordAfter(c, s0, run), a) && InWindow(c, WordAfter(c, s0, run), a)
    ensures WordLegal(c, s0, run + [a]) && AllInWindow(c, s0, run + [a])
    ensures WordAfter(c, s0, run + [a]) == WordDo(c, WordAfter(c, s0, run), a)
    decreases |run|
  {
    if run == [] {
      assert [a][1..] == [];
    } else {
      OneMore(c, WordDo(c, s0, run[0]), run[1..], a);
      assert (run + [a])[0] == run[0] && (run + [a])[1..] == run[1..] + [a];
    }
  }

  lemma ReachedThen(c: I.Config, s: State, a: Action)
    requires c.width > 0 && Reached(c, s) && Enabled(s, a) && InWindow(c, s, a)
    ensures Reached(c, Do(c, s, a))
  {
    var s0, run :| Init(s0) && WordLegal(c, s0, run) && AllInWindow(c, s0, run) && WordAfter(c, s0, run) == s;
    OneMore(c, s0, run, a);
    if a.Step? {
      SameStep(s.queue, a.t, c.width);
    }
  }

  /** Two consumers, with the producer outside `enqueue` or about to publish. */
  ghost function Two(c: I.Config, tail: nat, head: nat, count: nat, pc: I.Pc, p0: Q.Pc, p1: Q.Pc): State {
    State.State(I.State(I.Wrap(tail, c.width), I.Wrap(head, c.width), pc, tail, head),
                Q.State(tail, head, count, 0, map[0 := p0, 1 := p1]))
  }

  /** With the smallest of distances there is leeway. */
  ghost predicate Roomy(c: I.Config) {
    I.ValidConfig(c) && c.limit == None && Pow2(c.blockBits) + 1 < Pow2(c.width - 1)
  }

  lemma OnePublished(c: I.Config, tail: nat, head: nat, count: nat, p0: Q.Pc, p1: Q.Pc)
    requires Roomy(c) && Reached(c, Two(c, tail, head, count, I.Outside, p0, p1)) && head <= tail <= head + 1
    ensures Reached(c, Two(c, tail + 1, head, count, I.Outside, p0, p1))
  {
    hide Reached;
    var s, s' := Two(c, tail, head, count, I.Outside, p0, p1), Two(c, tail, head, count, I.Storing, p0, p1);
    Leeway(c, tail, head);
    ReachedThen(c, s, Enter);
    assert Do(c, s, Enter) == s';
    ReachedThen(c, s', Publish);
    I.WrapSum(tail, 1, c.width);
    assert Do(c, s', Publish) == Two(c, tail + 1, head, count, I.Outside, p0, p1);
  }

  lemma Leeway(c: I.Config, tail: nat, head: nat)
    requires Roomy(c) && head <= tail <= head + 1
    ensures !I.NoLeeway(c, I.Wrap(tail, c.width), I.Wrap(head, c.width))
  {
    var b := Pow2(c.blockBits);
    I.WrapSum(tail, b, c.width);
    I.CircularLessThanExact(head, tail + b, c.width);
  }

  /** One consumer's call up to its ticket, when there is one element more than were counted. */
  lemma FirstReserves(c: I.Config)
    requires Roomy(c) && Reached(c, Two(c, 1, 0, 0, I.Outside, Q.Idle, Q.Idle))
    ensures Reached(c, Asleep(c, 0))
  {
    hide Reached, I.Wrap, Pow2;
    Moves0(c, 1, 0, 0, Q.Idle, Start(0, 1));
    Moves0(c, 1, 0, 0, Q.LoadTail(1), Step(0));
    Moves0(c, 1, 0, 0, Q.LoadOvercommit(1, 1), Step(0));
    Moves0(c, 1, 0, 0, Q.LoadCount(1, 1, 0), Step(0));
    Moves0(c, 1, 0, 0, Q.Reserve(1, 0), Step(0));
  }

  /** The next position of a consumer in a call for one element, when its tests find just one. */
  ghost function NextPc(pc: Q.Pc, tail: nat, count: nat): Q.Pc {
    match pc
    case Idle => Q.LoadTail(1)
    case LoadTail(_) => Q.LoadOvercommit(1, tail)
    case LoadOvercommit(_, seen) => Q.LoadCount(1, seen, 0)
    case LoadCount(_, _, _) => Q.Reserve(1, 0)
    case Reserve(_, _) => Q.ReloadTail(1, 0, count)
    case ReloadTail(_, _, mine) => Q.Claim(1, mine)
    case _ => Q.Idle
  }

  /** Such a position, with one element more than were counted. */
  ghost predicate Alone(pc: Q.Pc, tail: nat, count: nat) {
    match pc
    case Idle => true
    case LoadTail(want) => want == 1
    case LoadOvercommit(want, seen) => want == 1 && seen == tail
    case LoadCount(want, seen, oc) => want == 1 && seen == tail == count + 1 && oc == 0
    case Reserve(desired, oc) => desired == 1 && oc == 0
    case ReloadTail(desired, oc, mine) => desired == 1 && oc == 0 && tail == mine + 1
    case Claim(actual, _) => actual == 1
    case _ => false
  }

  lemma Moves0(c: I.Config, tail: nat, head: nat, count: nat, p: Q.Pc, a: Action)
    requires Roomy(c) && Reached(c, Two(c, tail, head, count, I.Outside, p, Q.Idle)) && Alone(p, tail, count)
    requires !p.Claim? && a == if p == Q.Idle then Start(0, 1) else Step(0)
    ensures
      var count' := if p.Reserve? then count + 1 else count;
      Reached(c, Two(c, tail, head, count', I.Outside, NextPc(p, tail, count), Q.Idle))
  {
    hide Reached, I.Wrap;
    var s := Two(c, tail, head, count, I.Outside, p, Q.Idle);
    assert Tested(s.queue, 0) <= 1 < Pow2(c.width - 1);
    ReachedThen(c, s, a);
    Unmoved(c, s.index);
    assert Do(c, s, a) ==
      Two(c, tail, head, if p.Reserve? then count + 1 else count, I.Outside, NextPc(p, tail, count), Q.Idle);
  }

  /** A step that claims nothing leaves the registers. */
  lemma Unmoved(c: I.Config, s: I.State)
    requires c.width > 0 && s.headIndex == I.Wrap(s.claimed, c.width)
    ensures I.Claimed(c, s, 0) == s
  {
    I.WrapSum(s.claimed, 0, c.width);
  }

  /** The other consumer's steps, while the first sleeps. */
  lemma Moves1(c: I.Config, tail: nat, head: nat, count: nat, p0: Q.Pc, p: Q.Pc, a: Action)
    requires Roomy(c) && Reached(c, Two(c, tail, head, count, I.Outside, p0, p)) && Alone(p, tail, count)
    requires a == if p == Q.Idle then Start(1, 1) else Step(1)
    ensures
      var count' := if p.Reserve? then count + 1 else count;
      var head' := if p.Claim? then head + 1 else head;
      Reached(c, Two(c, tail, head', count', I.Outside, p0, NextPc(p, tail, count)))
  {
    hide Reached, I.Wrap;
    var s := Two(c, tail, head, count, I.Outside, p0, p);
    assert Tested(s.queue, 1) <= 1 < Pow2(c.width - 1);
    ReachedThen(c, s, a);
    Unmoved(c, s.index);
    I.WrapSum(head, 1, c.width);
    assert Do(c, s, a) == Two(c, tail, if p.Claim? then head + 1 else head, if p.Reserve? then count + 1 else count,
        I.Outside, p0, NextPc(p, tail, count));
  }

  /** After `n` elements were enqueued and dequeued by the other consumer, with one element more enqueued, and a ticket
      for it reserved by the one that sleeps. */
  ghost function Asleep(c: I.Config, n: nat): State {
    Two(c, n + 1, n, n + 1, I.Outside, Q.ReloadTail(1, 0, 0), Q.Idle)
  }

  lemma {:induction false} SleepsOn(c: I.Config, n: nat)
    requires Roomy(c)
    ensures Reached(c, Asleep(c, n))
    decreases n
  {
    hide Reached, I.Wrap, Pow2, Roomy;
    if n == 0 {
      AtStart(c);
      OnePublished(c, 0, 0, 0, Q.Idle, Q.Idle);
      FirstReserves(c);
    } else {
      SleepsOn(c, n - 1);
      var p0 := Q.ReloadTail(1, 0, 0);
      OnePublished(c, n, n - 1, n, p0, Q.Idle);
      Moves1(c, n + 1, n - 1, n, p0, Q.Idle, Start(1, 1));
      Moves1(c, n + 1, n - 1, n, p0, Q.LoadTail(1), Step(1));
      Moves1(c, n + 1, n - 1, n, p0, Q.LoadOvercommit(1, n + 1), Step(1));
      Moves1(c, n + 1, n - 1, n, p0, Q.LoadCount(1, n + 1, 0), Step(1));
      Moves1(c, n + 1, n - 1, n, p0, Q.Reserve(1, 0), Step(1));
      Moves1(c, n + 1, n - 1, n + 1, p0, Q.ReloadTail(1, 0, n), Step(1));
      Moves1(c, n + 1, n - 1, n + 1, p0, Q.Claim(1, n), Step(1));
    }
  }

  lemma AtStart(c: I.Config)
    requires Roomy(c)
    ensures Reached(c, Two(c, 0, 0, 0, I.Outside, Q.Idle, Q.Idle))
  {
    var s := Two(c, 0, 0, 0, I.Outside, Q.Idle, Q.Idle);
    DivModSmall(0, Pow2(c.width));
    assert Init(s) && WordLegal(c, s, []) && AllInWindow(c, s, []) && WordAfter(c, s, []) == s;
  }

  /** A consumer that sleeps while half the index range of elements passes is told that there is none, and gives its
      ticket back, though one is there: the only test of the run that does not fall in its window. */
  lemma TestMisses(c: I.Config)
    requires Roomy(c)
    ensures
      var s := Asleep(c, Pow2(c.width - 1) - 1);
      && Reached(c, s) && s.queue.head < s.queue.tail && Tested(s.queue, 0) == Pow2(c.width - 1)
      && Q.DoStep(s.queue, 0).pc[0] == Q.Claim(1, 0)
      && WordStep(s.queue, 0, c.width).pc[0] == Q.GiveBack(1, 0, Q.ThenReturn)
  {
    hide Reached;
    var h := Pow2(c.width - 1);
    SleepsOn(c, h - 1);
    OutsideTheWindow(h, 0, 0, c.width);
    WrapOfHalf(h, c.width);
    DivModSmall(0, Pow2(c.width));
  }
}
