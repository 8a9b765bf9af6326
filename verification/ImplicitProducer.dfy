/** One implicit producer and its consumers together: the producer's `enqueue` with its leeway test on wrapped
    registers, and any number of consumers by the dequeue protocol, in any order of their atomic steps. The claims
    of the consumers are all that moves the head; nothing is assumed about them. */
module ImplicitProducer {
  import opened Arith
  import opened CircularIndex
  import Q = DequeueProtocol

  type Thread = Q.Thread

  datatype State = State(index: CircularIndex.State, queue: Q.State)

  /** The producer enters `enqueue`, or publishes its element; a consumer starts a call, or takes a step. */
  datatype Action = Enter | Publish | Start(t: Thread, want: nat) | Step(t: Thread)

  ghost predicate Enabled(s: State, a: Action) {
    match a
    case Enter => s.index.pc == Outside
    case Publish => s.index.pc == Storing
    case Start(t, want) => Q.Enabled(s.queue, Q.Start(t, want))
    case Step(t) => Q.Enabled(s.queue, Q.Step(t))
  }

  /** How far a step of `t` moves the head. */
  ghost function Moves(s: State, t: Thread): nat {
    if t in s.queue.pc && s.queue.pc[t].Claim? then s.queue.pc[t].actual else 0
  }

  ghost function Do(c: Config, s: State, a: Action): State
    requires c.width > 0 && Enabled(s, a)
  {
    match a
    case Enter => s.(index := CircularIndex.Do(c, s.index, Begin))
    case Publish => State.State(CircularIndex.Do(c, s.index, Store), Q.Do(s.queue, Q.Publish(1)))
    case Start(t, want) => s.(queue := Q.Do(s.queue, Q.Start(t, want)))
    case Step(t) => State.State(Claimed(c, s.index, Moves(s, t)), Q.Do(s.queue, Q.Step(t)))
  }

  ghost predicate Legal(c: Config, s: State, run: seq<Action>)
    requires c.width > 0
    decreases |run|
  {
    run == [] || (Enabled(s, run[0]) && Legal(c, Do(c, s, run[0]), run[1..]))
  }

  ghost function After(c: Config, s: State, run: seq<Action>): State
    requires c.width > 0 && Legal(c, s, run)
    decreases |run|
  {
    if run == [] then s else After(c, Do(c, s, run[0]), run[1..])
  }

  ghost predicate Init(s: State) {
    s.index == CircularIndex.Start && Q.Init(s.queue)
  }

  /** The registers count what was published and claimed. */
  ghost predicate Inv(c: Config, s: State, ts: seq<Q.Ticket>)
    requires c.width > 0
  {
    && CircularIndex.Inv(c, s.index) && Q.Inv(s.queue, ts)
    && s.index.enqueued == s.queue.tail && s.index.claimed == s.queue.head
  }

  /** The protocol provides what the leeway argument needs of a claim: that the elements were published. */
  lemma MovesFit(s: State, ts: seq<Q.Ticket>, t: Thread)
    requires Q.Inv(s.queue, ts) && t in s.queue.pc
    ensures s.queue.head + Moves(s, t) <= s.queue.tail
  {
    Q.PendingFits(s.queue, ts, [t]);
    assert Q.AllPending(s.queue, [t]) == Q.Pending(s.queue.pc[t]);
  }

  lemma ActionKeepsInv(c: Config, s: State, ts: seq<Q.Ticket>, a: Action) returns (ts': seq<Q.Ticket>)
    requires ValidConfig(c) && Inv(c, s, ts) && Enabled(s, a)
    ensures Inv(c, Do(c, s, a), ts')
  {
    hide CircularIndex.Inv, Q.Inv;
    match a
    case Enter =>
      BeginKeepsInv(c, s.index);
      ts' := ts;
    case Publish =>
      StoreKeepsInv(c, s.index);
      Q.ActionKeepsInv(s.queue, ts, Q.Publish(1));
      ts' := Q.Track(s.queue, ts, Q.Publish(1));
    case Start(t, want) =>
      Q.ActionKeepsInv(s.queue, ts, Q.Start(t, want));
      ts' := Q.Track(s.queue, ts, Q.Start(t, want));
    case Step(t) =>
      MovesFit(s, ts, t);
      ClaimKeepsInv(c, s.index, Moves(s, t));
      Q.ActionKeepsInv(s.queue, ts, Q.Step(t));
      ts' := Q.Track(s.queue, ts, Q.Step(t));
  }

  lemma {:induction false} RunKeepsInv(c: Config, s: State, ts: seq<Q.Ticket>, run: seq<Action>)
    returns (ts': seq<Q.Ticket>)
    requires ValidConfig(c) && Inv(c, s, ts) && Legal(c, s, run)
    ensures Inv(c, After(c, s, run), ts')
    decreases |run|
  {
    hide Inv;
    if run == [] {
      ts' := ts;
    } else {
      var ts1 := ActionKeepsInv(c, s, ts, run[0]);
      ts' := RunKeepsInv(c, Do(c, s, run[0]), ts1, run[1..]);
    }
  }

  lemma ReachableInv(c: Config, s0: State, run: seq<Action>) returns (ts: seq<Q.Ticket>)
    requires ValidConfig(c) && Init(s0) && Legal(c, s0, run)
    ensures Inv(c, After(c, s0, run), ts)
  {
    ts := RunKeepsInv(c, s0, [], run);
  }

  /** In every reachable state the head does not pass the tail, the tail is less than half the index range ahead,
      and no more than the size limit; the producer's comparisons of the wrapped registers are those of the counts. */
  lemma LeewayHolds(c: Config, s0: State, run: seq<Action>)
    requires ValidConfig(c) && Init(s0) && Legal(c, s0, run)
    ensures
      var s := After(c, s0, run);
      && 0 <= s.queue.tail - s.queue.head < Pow2(c.width - 1)
      && (c.limit.Some? ==> s.queue.tail - s.queue.head <= c.limit.value)
      && s.index.tailIndex == Wrap(s.queue.tail, c.width) && s.index.headIndex == Wrap(s.queue.head, c.width)
      && Wrap(s.index.tailIndex - s.index.headIndex, c.width) == s.queue.tail - s.queue.head
      && (CircularLessThan(s.index.headIndex, s.index.tailIndex, c.width) <==> s.queue.head < s.queue.tail)
      && !CircularLessThan(s.index.tailIndex, s.index.headIndex, c.width)
  {
    var ts := ReachableInv(c, s0, run);
    CountsAgree(c, After(c, s0, run).index);
  }

  /** In every reachable state the producer takes an element, whatever the consumers are about to do, exactly if it is
      within a block, or the next block leaves the tail less than half the index range ahead of the head and fits into
      the limit if there is one. */
  lemma TakesIff(c: Config, s0: State, run: seq<Action>)
    requires ValidConfig(c) && Init(s0) && Legal(c, s0, run) && Enabled(After(c, s0, run), Enter)
    ensures
      var s := After(c, s0, run);
      var s', held, block := Do(c, s, Enter), s.queue.tail - s.queue.head, Pow2(c.blockBits);
      && s'.queue == s.queue
      && (s'.index.pc == Storing <==>
            || s.queue.tail % block != 0
            || (held + block < Pow2(c.width - 1) && (c.limit.Some? ==> held + block <= c.limit.value)))
  {
    var ts := ReachableInv(c, s0, run);
    AcceptsIff(c, After(c, s0, run).index);
  }

  // ----- The consumers' tests on wrapped registers -----

  /** `tail - (count - overcommit)` on `w`-bit registers, and the comparison of the two sides. */
  function Difference(tail: nat, count: nat, overcommit: nat, w: nat): nat {
    Wrap(Wrap(tail, w) - Wrap(Wrap(count, w) - Wrap(overcommit, w), w), w)
  }

  predicate Passes(tail: nat, count: nat, overcommit: nat, w: nat)
    requires w > 0
  {
    CircularLessThan(Wrap(Wrap(count, w) - Wrap(overcommit, w), w), Wrap(tail, w), w)
  }

  /** The test on wrapped registers is that of the unbounded counts while these are in the window of half the range
      before and after; and then the difference is the true one. */
  lemma TestOnWords(tail: nat, count: nat, overcommit: nat, w: nat)
    requires w > 0 && 0 - Pow2(w - 1) <= tail - (count - overcommit) < Pow2(w - 1)
    ensures Passes(tail, count, overcommit, w) <==> tail - (count - overcommit) > 0
    ensures Passes(tail, count, overcommit, w) ==> Difference(tail, count, overcommit, w) == tail - (count - overcommit)
    ensures CircularLessThan(0, Difference(tail, count, overcommit, w), w) <==> Passes(tail, count, overcommit, w)
  {
    var d := tail - (count - overcommit);
    PassesIff(tail, count, overcommit, w);
    WrapDifference(count, overcommit, w);
    WrapDifference(tail, count - overcommit, w);
    CircularLessThanIff(0, d, w);
    DivModSmall(0, Pow2(w));
    if d >= 0 {
      DivModSmall(d, Pow2(w));
    } else {
      DivModUnique(d, -1, d + Pow2(w), Pow2(w));
    }
  }

  lemma PassesIff(tail: nat, count: nat, overcommit: nat, w: nat)
    requires w > 0
    ensures Passes(tail, count, overcommit, w) <==> 0 < Wrap(tail - (count - overcommit), w) < Pow2(w - 1)
  {
    WrapDifference(count, overcommit, w);
    CircularLessThanIff(count - overcommit, tail, w);
  }

  /** Just outside the window on either side it is not. */
  lemma OutsideTheWindow(tail: nat, count: nat, overcommit: nat, w: nat)
    requires w > 1
    ensures tail - (count - overcommit) == Pow2(w - 1) ==> !Passes(tail, count, overcommit, w)
    ensures (count - overcommit) - tail == Pow2(w - 1) + 1 ==> Passes(tail, count, overcommit, w)
  {
    hide Passes, Wrap;
    var d := tail - (count - overcommit);
    PassesIff(tail, count, overcommit, w);
    if d == Pow2(w - 1) {
      WrapOfHalf(d, w);
    } else if -d == Pow2(w - 1) + 1 {
      WrapOfHalf(d, w);
    }
  }

  lemma WrapOfHalf(d: int, w: nat)
    requires w > 1
    ensures d == Pow2(w - 1) ==> Wrap(d, w) == d
    ensures -d == Pow2(w - 1) + 1 ==> 0 < Wrap(d, w) < Pow2(w - 1)
  {
    var h := Pow2(w - 1);
    assert Pow2(w) == 2 * h && h == 2 * Pow2(w - 2);
    if d == h {
      DivModSmall(d, 2 * h);
    } else if -d == h + 1 {
      DivModUnique(d, -1, h - 1, 2 * h);
    }
  }

  /** On which counts the test on wrapped registers is right: when the difference leaves a positive number below half
      the range if it is positive, and when minus the difference leaves no more than half of it if it is not. */
  lemma TestRightIff(tail: nat, count: nat, overcommit: nat, w: nat)
    requires w > 1
    ensures
      var d := tail - (count - overcommit);
      (Passes(tail, count, overcommit, w) <==> d > 0)
      <==> if d > 0 then 0 < d % Pow2(w) < Pow2(w - 1) else (-d) % Pow2(w) <= Pow2(w - 1)
  {
    hide Passes;
    var d, m := tail - (count - overcommit), Pow2(w);
    PassesIff(tail, count, overcommit, w);
    if d <= 0 {
      ModNegate(-d, m);
      assert m == 2 * Pow2(w - 1);
    }
  }

  /** The first test of a consumer, in every reachable state: right on wrapped registers exactly when the tickets
      counted since it loaded the overcommit are not more than the tail it loaded by a number that leaves more than half
      the index range. */
  lemma FirstTestOnWords(c: Config, s0: State, run: seq<Action>, t: Thread)
    requires ValidConfig(c) && Init(s0) && Legal(c, s0, run)
    requires var q := After(c, s0, run).queue; t in q.pc && q.pc[t].LoadCount?
    ensures
      var q := After(c, s0, run).queue;
      var tail, overcommit := q.pc[t].tail, q.pc[t].overcommit;
      var d := tail - (q.optimistic - overcommit);
      (Passes(tail, q.optimistic, overcommit, c.width) <==> d > 0)
      <==> d > 0 || (-d) % Pow2(c.width) <= Pow2(c.width - 1)
  {
    hide Q.Inv, CircularIndex.Inv, Passes;
    var s := After(c, s0, run);
    var q := s.queue;
    var ts := ReachableInv(c, s0, run);
    LeewayHolds(c, s0, run);
    var tail, overcommit := q.pc[t].tail, q.pc[t].overcommit;
    Q.CountsOrdered(q, ts, t);
    TestRightIff(tail, q.optimistic, overcommit, c.width);
    if tail - (q.optimistic - overcommit) > 0 {
      DivModSmall(tail - (q.optimistic - overcommit), Pow2(c.width));
    }
  }

  /** The test of its tickets: right when, from the load of the overcommit to the test, fewer tickets were counted than
      half the index range, less what the queue holds. This is what the original relies on; a consumer that sleeps
      through more of them may be told anything. */
  lemma TicketTestOnWords(c: Config, s0: State, run: seq<Action>, t: Thread)
    requires ValidConfig(c) && Init(s0) && Legal(c, s0, run)
    requires var q := After(c, s0, run).queue; t in q.pc && q.pc[t].ReloadTail?
    ensures
      var q := After(c, s0, run).queue;
      var overcommit, mine := q.pc[t].overcommit, q.pc[t].mine;
      && q.tail - q.head + (q.optimistic - mine) < Pow2(c.width - 1)
      && mine - overcommit - q.head <= Pow2(c.width - 1)
      ==>
        && (Passes(q.tail, mine, overcommit, c.width) <==> q.tail - (mine - overcommit) > 0)
        && (Passes(q.tail, mine, overcommit, c.width) ==>
              Difference(q.tail, mine, overcommit, c.width) == q.tail - (mine - overcommit))
  {
    hide Q.Inv, CircularIndex.Inv, Passes;
    var s := After(c, s0, run);
    var q := s.queue;
    var ts := ReachableInv(c, s0, run);
    LeewayHolds(c, s0, run);
    var overcommit, mine := q.pc[t].overcommit, q.pc[t].mine;
    Q.TicketsOrdered(q, ts, t);
    if q.tail - q.head + (q.optimistic - mine) < Pow2(c.width - 1)
       && mine - overcommit - q.head <= Pow2(c.width - 1) {
      TestOnWords(q.tail, mine, overcommit, c.width);
    }
  }
}
