/** How consumers share one producer's elements: the protocol of `dequeueOptimisticCount`,
    `dequeueOvercommit`, `headIndex` and `tailIndex` in `dequeue` and `dequeue_bulk`.

    A consumer reserves tickets by raising the optimistic count, then compares its tickets, less an
    earlier snapshot of the overcommit, with the tail. Tickets that pass become claims on `headIndex`;
    the rest are given back by raising the overcommit. Steps of one producer and any number of
    consumers interleave in any order. Indices are unbounded here; modules ImplicitProducer and WordTests
    relate the tests to those on the wrapping ones. */
module DequeueProtocol {
  import opened Arith

  type Thread = nat

  /** The next atomic operation of a consumer. `want` is the `max` of dequeue_bulk, and 1 for dequeue,
      whose tests and updates are those of dequeue_bulk with max 1. */
  datatype Pc =
    | Idle
    | LoadTail(want: nat)
    | LoadOvercommit(want: nat, tail: nat)
    | LoadCount(want: nat, tail: nat, overcommit: nat)
    | Reserve(desired: nat, overcommit: nat)
    | ReloadTail(desired: nat, overcommit: nat, mine: nat)
    | GiveBack(surplus: nat, first: nat, rest: Then)
    | Claim(actual: nat, mine: nat)

  /** What follows giving tickets back: claiming the others, or returning empty-handed. */
  datatype Then = ThenReturn | ThenClaim(actual: nat, mine: nat)

  datatype State = State(
    tail: nat,            // tailIndex
    head: nat,            // headIndex
    optimistic: nat,      // dequeueOptimisticCount
    overcommit: nat,      // dequeueOvercommit
    pc: map<Thread, Pc>)

  datatype Action = Publish(count: nat) | Start(t: Thread, want: nat) | Step(t: Thread)

  predicate Enabled(s: State, a: Action) {
    match a
    case Publish(_) => true
    case Start(t, _) => t in s.pc && s.pc[t].Idle?
    case Step(t) => t in s.pc && !s.pc[t].Idle?
  }

  function Do(s: State, a: Action): State
    requires Enabled(s, a)
  {
    match a
    case Publish(n) => s.(tail := s.tail + n)
    case Start(t, want) => s.(pc := s.pc[t := LoadTail(want)])
    case Step(t) => DoStep(s, t)
  }

  function DoStep(s: State, t: Thread): State
    requires Enabled(s, Step(t))
  {
    match s.pc[t]
    case LoadTail(want) =>
      s.(pc := s.pc[t := LoadOvercommit(want, s.tail)])
    case LoadOvercommit(want, tail) =>
      s.(pc := s.pc[t := LoadCount(want, tail, s.overcommit)])
    case LoadCount(want, tail, oc) =>
      var desired := tail - (s.optimistic - oc);
      s.(pc := s.pc[t := if desired > 0 then Reserve(Min(desired, want), oc) else Idle])
    case Reserve(desired, oc) =>
      s.(optimistic := s.optimistic + desired, pc := s.pc[t := ReloadTail(desired, oc, s.optimistic)])
    case ReloadTail(desired, oc, mine) =>
      var available := s.tail - (mine - oc);
      if available > 0 then
        var actual := Min(desired, available);
        if actual < desired
        then s.(pc := s.pc[t := GiveBack(desired - actual, mine + actual, ThenClaim(actual, mine))])
        else s.(pc := s.pc[t := Claim(actual, mine)])
      else
        s.(pc := s.pc[t := GiveBack(desired, mine, ThenReturn)])
    case GiveBack(surplus, _, rest) =>
      s.(overcommit := s.overcommit + surplus,
         pc := s.pc[t := if rest.ThenClaim? then Claim(rest.actual, rest.mine) else Idle])
    case Claim(actual, _) =>
      s.(head := s.head + actual, pc := s.pc[t := Idle])
  }

  ghost predicate Init(s: State) {
    && s.tail == s.head == s.optimistic == s.overcommit == 0
    && forall t :: t in s.pc ==> s.pc[t] == Idle
  }

  ghost predicate Legal(s: State, run: seq<Action>)
    decreases |run|
  {
    run == [] || (Enabled(s, run[0]) && Legal(Do(s, run[0]), run[1..]))
  }

  ghost function After(s: State, run: seq<Action>): State
    requires Legal(s, run)
    decreases |run|
  {
    if run == [] then s else After(Do(s, run[0]), run[1..])
  }

  ghost predicate Reachable(s: State) {
    exists s0, run :: Init(s0) && Legal(s0, run) && After(s0, run) == s
  }

  // ----- Tickets -----

  /** Proof history: what became of each unit ever added to the optimistic count, in order. */
  datatype Ticket = Open(t: Thread) | Winning(t: Thread) | Claimed | Losing(t: Thread) | Returned

  datatype Kind = Won | Taken | Back

  /** Won: passed the test against the tail. Taken: also added to the head. Back: added to the overcommit. */
  predicate Is(x: Ticket, k: Kind) {
    match k
    case Won => x.Winning? || x.Claimed?
    case Taken => x.Claimed?
    case Back => x.Returned?
  }

  function Tally(ts: seq<Ticket>, k: Kind): nat {
    if ts == [] then 0
    else Tally(ts[..|ts| - 1], k) + if Is(ts[|ts| - 1], k) then 1 else 0
  }

  lemma {:induction false} TallyConcat(a: seq<Ticket>, b: seq<Ticket>, k: Kind)
    ensures Tally(a + b, k) == Tally(a, k) + Tally(b, k)
    decreases |b|
  {
    if b == [] {
      assert a + b == a;
    } else {
      TallyConcat(a, b[..|b| - 1], k);
      assert (a + b)[..|a + b| - 1] == a + b[..|b| - 1];
    }
  }

  lemma {:induction false} TallyUniform(ts: seq<Ticket>, x: Ticket, k: Kind)
    requires forall i :: 0 <= i < |ts| ==> ts[i] == x
    ensures Tally(ts, k) == if Is(x, k) then |ts| else 0
    decreases |ts|
  {
    if ts != [] {
      TallyUniform(ts[..|ts| - 1], x, k);
    }
  }

  lemma {:induction false} TallyMonotone(a: seq<Ticket>, b: seq<Ticket>, k: Kind)
    requires |a| == |b| && forall i :: 0 <= i < |a| && Is(a[i], k) ==> Is(b[i], k)
    ensures Tally(a, k) <= Tally(b, k)
    decreases |a|
  {
    if a != [] {
      TallyMonotone(a[..|a| - 1], b[..|b| - 1], k);
    }
  }

  /** A ticket cannot be both won and given back. */
  lemma {:induction false} TallyExclusive(ts: seq<Ticket>)
    ensures Tally(ts, Won) + Tally(ts, Back) <= |ts|
    ensures Tally(ts, Taken) <= Tally(ts, Won)
    ensures (forall x :: x in ts ==> x.Claimed? || x.Returned?) ==> Tally(ts, Taken) + Tally(ts, Back) == |ts|
    decreases |ts|
  {
    if ts != [] {
      TallyExclusive(ts[..|ts| - 1]);
      assert ts[|ts| - 1] in ts;
    }
  }

  ghost predicate All(ts: seq<Ticket>, lo: int, hi: int, x: Ticket) {
    0 <= lo <= hi <= |ts| && forall i :: lo <= i < hi ==> ts[i] == x
  }

  /** The tickets `lo` up to `hi` turned into `x`. */
  function Turn(ts: seq<Ticket>, lo: int, hi: int, x: Ticket): (r: seq<Ticket>)
    requires 0 <= lo <= hi <= |ts|
    ensures |r| == |ts|
    ensures forall i :: 0 <= i < |ts| ==> r[i] == if lo <= i < hi then x else ts[i]
  {
    seq(|ts|, i requires 0 <= i < |ts| => if lo <= i < hi then x else ts[i])
  }

  lemma TallyTurn(ts: seq<Ticket>, lo: int, hi: int, x: Ticket, y: Ticket, k: Kind)
    requires All(ts, lo, hi, x)
    ensures Tally(Turn(ts, lo, hi, y), k) ==
            Tally(ts, k) - (if Is(x, k) then hi - lo else 0) + (if Is(y, k) then hi - lo else 0)
  {
    var mid := seq(hi - lo, _ => y);
    TallyUniform(mid, y, k);
    TallyUniform(ts[lo..hi], x, k);
    assert Turn(ts, lo, hi, y) == ts[..lo] + mid + ts[hi..];
    TallyConcat(ts[..lo] + mid, ts[hi..], k);
    TallyConcat(ts[..lo], mid, k);
    assert ts == ts[..lo] + ts[lo..hi] + ts[hi..];
    TallyConcat(ts[..lo] + ts[lo..hi], ts[hi..], k);
    TallyConcat(ts[..lo], ts[lo..hi], k);
  }

  /** Every ticket that passed, counted with all before it that had not been given back, is within
      the tail. */
  ghost predicate Within(ts: seq<Ticket>, tail: nat) {
    forall m {:trigger ts[..m]} :: 0 <= m < |ts| && Is(ts[m], Won) ==> m + 1 - Tally(ts[..m], Back) <= tail
  }

  /** The key argument: the last ticket that passed bounds how many passed. */
  lemma {:induction false} WonWithinTail(ts: seq<Ticket>, tail: nat)
    requires Within(ts, tail)
    ensures Tally(ts, Won) <= tail
    decreases |ts|
  {
    if ts != [] {
      var m := |ts| - 1;
      if Is(ts[m], Won) {
        TallyExclusive(ts[..m]);
      } else {
        assert forall i :: 0 <= i < m ==> ts[..m][..i] == ts[..i];
        WonWithinTail(ts[..m], tail);
      }
    }
  }

  // ----- The invariant -----

  ghost predicate ThreadOk(s: State, ts: seq<Ticket>, t: Thread)
    requires t in s.pc
  {
    match s.pc[t]
    case Idle => true
    case LoadTail(_) => true
    case LoadOvercommit(_, tail) => tail <= s.tail
    case LoadCount(_, tail, oc) => tail <= s.tail && oc <= s.overcommit
    case Reserve(_, oc) => oc <= s.overcommit
    case ReloadTail(desired, oc, mine) =>
      All(ts, mine, mine + desired, Open(t)) && oc <= Tally(ts[..mine], Back)
    case GiveBack(surplus, first, rest) =>
      && All(ts, first, first + surplus, Losing(t))
      && (rest.ThenClaim? ==> All(ts, rest.mine, rest.mine + rest.actual, Winning(t)))
    case Claim(actual, mine) => All(ts, mine, mine + actual, Winning(t))
  }

  predicate WillClaim(pc: Pc, i: int) {
    match pc
    case Claim(actual, mine) => mine <= i < mine + actual
    case GiveBack(_, _, ThenClaim(actual, mine)) => mine <= i < mine + actual
    case _ => false
  }

  /** The ticket is one its thread still has to decide on, claim or give back. */
  ghost predicate TicketOk(s: State, ts: seq<Ticket>, i: int)
    requires 0 <= i < |ts|
  {
    match ts[i]
    case Claimed => true
    case Returned => true
    case Open(t) => t in s.pc && s.pc[t].ReloadTail? && s.pc[t].mine <= i < s.pc[t].mine + s.pc[t].desired
    case Winning(t) =>
      t in s.pc && WillClaim(s.pc[t], i)
    case Losing(t) =>
      t in s.pc && s.pc[t].GiveBack? && s.pc[t].first <= i < s.pc[t].first + s.pc[t].surplus
  }

  ghost predicate Inv(s: State, ts: seq<Ticket>) {
    && |ts| == s.optimistic
    && Tally(ts, Taken) == s.head
    && Tally(ts, Back) == s.overcommit
    && Within(ts, s.tail)
    && (forall t {:trigger ThreadOk(s, ts, t)} :: t in s.pc ==> ThreadOk(s, ts, t))
    && (forall i {:trigger TicketOk(s, ts, i)} :: 0 <= i < |ts| ==> TicketOk(s, ts, i))
  }

  /** Of the tickets `lo` up to `hi` of `t`, those below `mid` pass and the others fail. */
  function Decide(ts: seq<Ticket>, lo: int, mid: int, hi: int, t: Thread): (r: seq<Ticket>)
    requires 0 <= lo <= mid <= hi <= |ts|
    ensures |r| == |ts|
    ensures forall i :: 0 <= i < |ts| ==>
      r[i] == if lo <= i < mid then Winning(t) else if mid <= i < hi then Losing(t) else ts[i]
  {
    seq(|ts|, i requires 0 <= i < |ts| =>
      if lo <= i < mid then Winning(t) else if mid <= i < hi then Losing(t) else ts[i])
  }

  ghost function Track(s: State, ts: seq<Ticket>, a: Action): seq<Ticket>
    requires Inv(s, ts) && Enabled(s, a)
  {
    if !a.Step? then ts
    else
      assert ThreadOk(s, ts, a.t);
      match s.pc[a.t]
      case Reserve(desired, _) => ts + seq(desired, _ => Open(a.t))
      case ReloadTail(desired, oc, mine) =>
        var available := s.tail - (mine - oc);
        var actual := if available > 0 then Min(desired, available) else 0;
        Decide(ts, mine, mine + actual, mine + desired, a.t)
      case GiveBack(surplus, first, _) => Turn(ts, first, first + surplus, Returned)
      case Claim(actual, mine) => Turn(ts, mine, mine + actual, Claimed)
      case _ => ts
  }

  // ----- Every step keeps the invariant -----

  predicate Belongs(x: Ticket, t: Thread) {
    x == Open(t) || x == Winning(t) || x == Losing(t)
  }

  /** The step of `t` touches only its own tickets and lets the shared counts grow. */
  ghost predicate OnlyOwn(s: State, ts: seq<Ticket>, s': State, ts': seq<Ticket>, t: Thread) {
    && |ts| <= |ts'|
    && (forall i :: 0 <= i < |ts| ==> ts'[i] == ts[i] || Belongs(ts[i], t))
    && s.tail <= s'.tail && s.overcommit <= s'.overcommit
    && t in s.pc && t in s'.pc && s'.pc == s.pc[t := s'.pc[t]]
  }

  lemma BackGrows(s: State, ts: seq<Ticket>, s': State, ts': seq<Ticket>, t: Thread, m: nat)
    requires OnlyOwn(s, ts, s', ts', t) && m <= |ts|
    ensures Tally(ts[..m], Back) <= Tally(ts'[..m], Back)
  {
    TallyMonotone(ts[..m], ts'[..m], Back);
  }

  lemma OtherThreads(s: State, ts: seq<Ticket>, s': State, ts': seq<Ticket>, t: Thread)
    requires Inv(s, ts) && OnlyOwn(s, ts, s', ts', t)
    ensures forall u {:trigger ThreadOk(s', ts', u)} :: u in s'.pc && u != t ==> ThreadOk(s', ts', u)
    ensures forall i {:trigger TicketOk(s', ts', i)} :: 0 <= i < |ts| && !Belongs(ts[i], t) ==> TicketOk(s', ts', i)
  {
    forall u | u in s'.pc && u != t ensures ThreadOk(s', ts', u) {
      assert ThreadOk(s, ts, u);
      if s.pc[u].ReloadTail? {
        BackGrows(s, ts, s', ts', t, s.pc[u].mine);
      }
    }
    forall i | 0 <= i < |ts| && !Belongs(ts[i], t) ensures TicketOk(s', ts', i) {
      assert TicketOk(s, ts, i);
    }
  }

  /** Passing tickets stay within the tail when only undecided ones change and none newly passes. */
  lemma WithinStays(s: State, ts: seq<Ticket>, s': State, ts': seq<Ticket>, t: Thread)
    requires Inv(s, ts) && OnlyOwn(s, ts, s', ts', t) && |ts| == |ts'|
    requires forall i :: 0 <= i < |ts| && Is(ts'[i], Won) ==> Is(ts[i], Won)
    ensures Within(ts', s'.tail)
  {
    forall m | 0 <= m < |ts'| && Is(ts'[m], Won) ensures m + 1 - Tally(ts'[..m], Back) <= s'.tail {
      assert Is(ts[m], Won);
      BackGrows(s, ts, s', ts', t, m);
    }
  }

  lemma MoveKeepsInv(s: State, ts: seq<Ticket>, s': State, t: Thread)
    requires Inv(s, ts) && t in s.pc && t in s'.pc && s' == s.(pc := s.pc[t := s'.pc[t]])
    requires !s.pc[t].ReloadTail? && !s.pc[t].Claim? && !s.pc[t].GiveBack?
    requires ThreadOk(s', ts, t)
    ensures Inv(s', ts)
  {
    OtherThreads(s, ts, s', ts, t);
    forall i | 0 <= i < |ts| ensures TicketOk(s', ts, i) {
      assert TicketOk(s, ts, i);
    }
  }

  lemma PublishKeepsInv(s: State, ts: seq<Ticket>, n: nat)
    requires Inv(s, ts)
    ensures Inv(Do(s, Publish(n)), ts)
  {
    var s' := Do(s, Publish(n));
    forall t | t in s'.pc ensures ThreadOk(s', ts, t) {
      assert ThreadOk(s, ts, t);
    }
    forall i | 0 <= i < |ts| ensures TicketOk(s', ts, i) {
      assert TicketOk(s, ts, i);
    }
  }

  lemma ReserveKeepsInv(s: State, ts: seq<Ticket>, t: Thread)
    requires Inv(s, ts) && Enabled(s, Step(t)) && s.pc[t].Reserve?
    ensures Inv(DoStep(s, t), Track(s, ts, Step(t)))
  {
    var s', ts' := DoStep(s, t), Track(s, ts, Step(t));
    var fresh_ := seq(s.pc[t].desired, _ => Open(t));
    assert ThreadOk(s, ts, t);
    assert ts' == ts + fresh_;
    TallyUniform(fresh_, Open(t), Taken);
    TallyUniform(fresh_, Open(t), Back);
    TallyConcat(ts, fresh_, Taken);
    TallyConcat(ts, fresh_, Back);
    assert ts'[..|ts|] == ts;
    OtherThreads(s, ts, s', ts', t);
    assert ThreadOk(s', ts', t);
    forall m | 0 <= m < |ts'| && Is(ts'[m], Won) ensures m + 1 - Tally(ts'[..m], Back) <= s'.tail {
      assert Is(ts[m], Won) && ts'[..m] == ts[..m];
    }
    forall i | 0 <= i < |ts'| ensures TicketOk(s', ts', i) {
      if i < |ts| {
        assert TicketOk(s, ts, i);
      }
    }
  }

  lemma ReloadTailWithin(s: State, ts: seq<Ticket>, t: Thread)
    requires Inv(s, ts) && Enabled(s, Step(t)) && s.pc[t].ReloadTail?
    ensures Within(Track(s, ts, Step(t)), s.tail)
  {
    var s', ts' := DoStep(s, t), Track(s, ts, Step(t));
    var ReloadTail(desired, oc, mine) := s.pc[t];
    assert ThreadOk(s, ts, t);
    forall m | 0 <= m < |ts'| && Is(ts'[m], Won) ensures m + 1 - Tally(ts'[..m], Back) <= s.tail {
      BackGrows(s, ts, s', ts', t, m);
      if mine <= m < mine + desired {
        TallyConcat(ts[..mine], ts[mine..m], Back);
        assert ts[..m] == ts[..mine] + ts[mine..m];
      } else {
        assert Is(ts[m], Won);
      }
    }
  }

  lemma ReloadTailOwn(s: State, ts: seq<Ticket>, t: Thread)
    requires Inv(s, ts) && Enabled(s, Step(t)) && s.pc[t].ReloadTail?
    ensures
      var s', ts' := DoStep(s, t), Track(s, ts, Step(t));
      && |ts'| == |ts| && OnlyOwn(s, ts, s', ts', t)
      && ThreadOk(s', ts', t)
      && forall i {:trigger TicketOk(s', ts', i)} :: 0 <= i < |ts| && Belongs(ts[i], t) ==> TicketOk(s', ts', i)
  {
    hide Tally, Within;
    var s', ts' := DoStep(s, t), Track(s, ts, Step(t));
    assert ThreadOk(s, ts, t);
    forall i | 0 <= i < |ts| && Belongs(ts[i], t) ensures TicketOk(s', ts', i) {
      assert TicketOk(s, ts, i);
    }
  }

  lemma DecideTallies(ts: seq<Ticket>, lo: int, mid: int, hi: int, t: Thread, k: Kind)
    requires All(ts, lo, hi, Open(t)) && lo <= mid <= hi && k != Won
    ensures Tally(Decide(ts, lo, mid, hi, t), k) == Tally(ts, k)
  {
    TallyTurn(ts, lo, mid, Open(t), Winning(t), k);
    TallyTurn(Turn(ts, lo, mid, Winning(t)), mid, hi, Open(t), Losing(t), k);
    assert Decide(ts, lo, mid, hi, t) == Turn(Turn(ts, lo, mid, Winning(t)), mid, hi, Losing(t));
  }

  /** The parts of the invariant that a deciding step has to show for its own thread and tickets. */
  lemma OwnPartsSuffice(s: State, ts: seq<Ticket>, s': State, ts': seq<Ticket>, t: Thread)
    requires Inv(s, ts) && OnlyOwn(s, ts, s', ts', t)
    requires |ts'| == |ts| == s'.optimistic && Tally(ts', Taken) == s'.head && Tally(ts', Back) == s'.overcommit
    requires Within(ts', s'.tail)
    requires ThreadOk(s', ts', t)
    requires forall i {:trigger TicketOk(s', ts', i)} :: 0 <= i < |ts| && Belongs(ts[i], t) ==> TicketOk(s', ts', i)
    ensures Inv(s', ts')
  {
    OtherThreads(s, ts, s', ts', t);
  }

  lemma ReloadTailTallies(s: State, ts: seq<Ticket>, t: Thread, k: Kind)
    requires Inv(s, ts) && Enabled(s, Step(t)) && s.pc[t].ReloadTail? && k != Won
    ensures Tally(Track(s, ts, Step(t)), k) == Tally(ts, k)
  {
    var ReloadTail(desired, oc, mine) := s.pc[t];
    var available := s.tail - (mine - oc);
    var actual := if available > 0 then Min(desired, available) else 0;
    assert ThreadOk(s, ts, t);
    DecideTallies(ts, mine, mine + actual, mine + desired, t, k);
  }

  lemma ReloadTailKeepsInv(s: State, ts: seq<Ticket>, t: Thread)
    requires Inv(s, ts) && Enabled(s, Step(t)) && s.pc[t].ReloadTail?
    ensures Inv(DoStep(s, t), Track(s, ts, Step(t)))
  {
    ReloadTailTallies(s, ts, t, Taken);
    ReloadTailTallies(s, ts, t, Back);
    ReloadTailOwn(s, ts, t);
    ReloadTailWithin(s, ts, t);
    OwnPartsSuffice(s, ts, DoStep(s, t), Track(s, ts, Step(t)), t);
  }

  lemma GiveBackOwn(s: State, ts: seq<Ticket>, t: Thread)
    requires Inv(s, ts) && Enabled(s, Step(t)) && s.pc[t].GiveBack?
    ensures
      var s', ts' := DoStep(s, t), Track(s, ts, Step(t));
      && |ts'| == |ts|
      && ThreadOk(s', ts', t)
      && forall i {:trigger TicketOk(s', ts', i)} :: 0 <= i < |ts| && Belongs(ts[i], t) ==> TicketOk(s', ts', i)
  {
    var s', ts' := DoStep(s, t), Track(s, ts, Step(t));
    assert ThreadOk(s, ts, t);
    forall i | 0 <= i < |ts| && Belongs(ts[i], t) ensures TicketOk(s', ts', i) {
      assert TicketOk(s, ts, i);
    }
  }

  lemma GiveBackKeepsInv(s: State, ts: seq<Ticket>, t: Thread)
    requires Inv(s, ts) && Enabled(s, Step(t)) && s.pc[t].GiveBack?
    ensures Inv(DoStep(s, t), Track(s, ts, Step(t)))
  {
    var s', ts' := DoStep(s, t), Track(s, ts, Step(t));
    var first, surplus := s.pc[t].first, s.pc[t].surplus;
    assert ThreadOk(s, ts, t);
    TallyTurn(ts, first, first + surplus, Losing(t), Returned, Taken);
    TallyTurn(ts, first, first + surplus, Losing(t), Returned, Back);
    OtherThreads(s, ts, s', ts', t);
    WithinStays(s, ts, s', ts', t);
    GiveBackOwn(s, ts, t);
  }

  lemma ClaimKeepsInv(s: State, ts: seq<Ticket>, t: Thread)
    requires Inv(s, ts) && Enabled(s, Step(t)) && s.pc[t].Claim?
    ensures Inv(DoStep(s, t), Track(s, ts, Step(t)))
  {
    var s', ts' := DoStep(s, t), Track(s, ts, Step(t));
    var actual, mine := s.pc[t].actual, s.pc[t].mine;
    assert ThreadOk(s, ts, t);
    TallyTurn(ts, mine, mine + actual, Winning(t), Claimed, Taken);
    TallyTurn(ts, mine, mine + actual, Winning(t), Claimed, Back);
    OtherThreads(s, ts, s', ts', t);
    WithinStays(s, ts, s', ts', t);
    forall i | 0 <= i < |ts'| ensures TicketOk(s', ts', i) {
      if Belongs(ts[i], t) {
        assert TicketOk(s, ts, i);
      }
    }
  }

  lemma ActionKeepsInv(s: State, ts: seq<Ticket>, a: Action)
    requires Inv(s, ts) && Enabled(s, a)
    ensures Inv(Do(s, a), Track(s, ts, a))
  {
    match a
    case Publish(n) => PublishKeepsInv(s, ts, n);
    case Start(t, _) => MoveKeepsInv(s, ts, Do(s, a), t);
    case Step(t) =>
      assert ThreadOk(s, ts, t);
      match s.pc[t]
      case LoadTail(_) => MoveKeepsInv(s, ts, DoStep(s, t), t);
      case LoadOvercommit(_, _) => MoveKeepsInv(s, ts, DoStep(s, t), t);
      case LoadCount(_, _, _) => MoveKeepsInv(s, ts, DoStep(s, t), t);
      case Reserve(_, _) => ReserveKeepsInv(s, ts, t);
      case ReloadTail(_, _, _) => ReloadTailKeepsInv(s, ts, t);
      case GiveBack(_, _, _) => GiveBackKeepsInv(s, ts, t);
      case Claim(_, _) => ClaimKeepsInv(s, ts, t);
  }

  lemma {:induction false} RunKeepsInv(s: State, ts: seq<Ticket>, run: seq<Action>) returns (ts': seq<Ticket>)
    requires Inv(s, ts) && Legal(s, run)
    ensures Inv(After(s, run), ts')
    decreases |run|
  {
    if run == [] {
      ts' := ts;
    } else {
      ActionKeepsInv(s, ts, run[0]);
      ts' := RunKeepsInv(Do(s, run[0]), Track(s, ts, run[0]), run[1..]);
    }
  }

  lemma ReachableInv(s: State) returns (ts: seq<Ticket>)
    requires Reachable(s)
    ensures Inv(s, ts)
  {
    var s0, run :| Init(s0) && Legal(s0, run) && After(s0, run) == s;
    ts := RunKeepsInv(s0, [], run);
  }

  // ----- What holds in every reachable state -----

  /** The head never passes the tail, nor the overcommit the optimistic count. */
  lemma HeadWithinTail(s: State)
    requires Reachable(s)
    ensures s.head <= s.tail && s.head + s.overcommit <= s.optimistic
  {
    var ts := ReachableInv(s);
    WonWithinTail(ts, s.tail);
    TallyExclusive(ts);
  }

  /** A consumer about to add to the head is sure to find that many elements, all published. */
  lemma ClaimIsPublished(s: State, t: Thread)
    requires Reachable(s) && t in s.pc && s.pc[t].Claim?
    ensures s.head + s.pc[t].actual <= s.tail
  {
    var ts := ReachableInv(s);
    ActionKeepsInv(s, ts, Step(t));
    var ts' := Track(s, ts, Step(t));
    WonWithinTail(ts', s.tail);
    TallyExclusive(ts');
  }

  /** What a consumer is going to add to the head for tickets that passed already. */
  function Pending(pc: Pc): nat {
    match pc
    case Claim(actual, _) => actual
    case GiveBack(_, _, ThenClaim(actual, _)) => actual
    case _ => 0
  }

  ghost function AllPending(s: State, us: seq<Thread>): nat
    requires forall u :: u in us ==> u in s.pc
  {
    if us == [] then 0 else Pending(s.pc[us[0]]) + AllPending(s, us[1..])
  }

  /** A step of another thread leaves what these are going to claim. */
  lemma {:induction false} OthersPending(s: State, t: Thread, us: seq<Thread>)
    requires (forall u :: u in us ==> u in s.pc && u != t) && Enabled(s, Step(t))
    ensures AllPending(DoStep(s, t), us) == AllPending(s, us)
    decreases |us|
  {
    if us != [] {
      OthersPending(s, t, us[1..]);
    }
  }

  /** All claims under way, of any number of consumers, fit below the tail together. */
  lemma {:induction false} PendingFits(s: State, ts: seq<Ticket>, us: seq<Thread>)
    requires Inv(s, ts) && (forall u :: u in us ==> u in s.pc)
    requires forall i, j :: 0 <= i < j < |us| ==> us[i] != us[j]
    ensures s.head + AllPending(s, us) <= s.tail
    decreases |us|, if us != [] && s.pc[us[0]].GiveBack? then 1 else 0
  {
    if us == [] {
      WonWithinTail(ts, s.tail);
      TallyExclusive(ts);
    } else {
      var t, rest := us[0], us[1..];
      assert forall i :: 0 <= i < |rest| ==> rest[i] == us[i + 1];
      if Pending(s.pc[t]) == 0 {
        PendingFits(s, ts, rest);
      } else {
        ActionKeepsInv(s, ts, Step(t));
        OthersPending(s, t, rest);
        var s1, ts1 := Do(s, Step(t)), Track(s, ts, Step(t));
        if s.pc[t].GiveBack? {
          PendingFits(s1, ts1, us);
        } else {
          PendingFits(s1, ts1, rest);
        }
      }
    }
  }

  /** The same in every reachable state, whichever of them go first. */
  lemma ClaimsFitTogether(s: State, us: seq<Thread>)
    requires Reachable(s) && (forall u :: u in us ==> u in s.pc)
    requires forall i, j :: 0 <= i < j < |us| ==> us[i] != us[j]
    ensures s.head + AllPending(s, us) <= s.tail
  {
    var ts := ReachableInv(s);
    PendingFits(s, ts, us);
  }

  /** What a consumer has loaded before its first test is not ahead of the counters. */
  lemma CountsOrdered(s: State, ts: seq<Ticket>, t: Thread)
    requires Inv(s, ts) && t in s.pc && s.pc[t].LoadCount?
    ensures s.pc[t].tail <= s.tail && s.head <= s.optimistic - s.pc[t].overcommit
  {
    assert ThreadOk(s, ts, t);
    TallyExclusive(ts);
  }

  /** The head is not further than the tickets before the consumer's own that were not given back, and those since. */
  lemma TicketsOrdered(s: State, ts: seq<Ticket>, t: Thread)
    requires Inv(s, ts) && t in s.pc && s.pc[t].ReloadTail?
    ensures
      var ReloadTail(_, overcommit, mine) := s.pc[t];
      overcommit <= mine <= s.optimistic && s.head <= mine - overcommit + (s.optimistic - mine)
  {
    var ReloadTail(desired, overcommit, mine) := s.pc[t];
    assert ThreadOk(s, ts, t);
    TallyConcat(ts[..mine], ts[mine..], Taken);
    assert ts == ts[..mine] + ts[mine..];
    TallyExclusive(ts[..mine]);
    TallyExclusive(ts[mine..]);
  }

  lemma {:induction false} HeadOnlyGrows(s: State, run: seq<Action>)
    requires Legal(s, run)
    ensures s.head <= After(s, run).head
    decreases |run|
  {
    if run != [] {
      HeadOnlyGrows(Do(s, run[0]), run[1..]);
    }
  }

  /** Each index is claimed once: the indices `[head, head + actual)` one consumer claims lie below
      those of any later claim, and start where the claims so far end. */
  lemma ClaimsAreDisjoint(s: State, t: Thread, run: seq<Action>, u: Thread)
    requires t in s.pc && s.pc[t].Claim?
    requires Legal(Do(s, Step(t)), run)
    requires var s2 := After(Do(s, Step(t)), run); u in s2.pc && s2.pc[u].Claim?
    ensures s.head + s.pc[t].actual == Do(s, Step(t)).head <= After(Do(s, Step(t)), run).head
  {
    HeadOnlyGrows(Do(s, Step(t)), run);
  }

  ghost predicate Quiet(s: State) {
    forall t :: t in s.pc ==> s.pc[t] == Idle
  }

  /** With no dequeue in flight the effective dequeue count is the head: no ticket leaks. */
  lemma QuietCountsAgree(s: State)
    requires Reachable(s) && Quiet(s)
    ensures s.optimistic - s.overcommit == s.head
  {
    var ts := ReachableInv(s);
    QuietCounts(s, ts);
  }

  lemma QuietCounts(s: State, ts: seq<Ticket>)
    requires Inv(s, ts) && Quiet(s)
    ensures s.optimistic == s.head + s.overcommit && s.head <= s.tail
  {
    forall x | x in ts ensures x.Claimed? || x.Returned? {
      var i :| 0 <= i < |ts| && ts[i] == x;
      assert TicketOk(s, ts, i);
    }
    TallyExclusive(ts);
    WonWithinTail(ts, s.tail);
  }

  /** `t` runs on its own until its call returns, for at most `k` steps. */
  ghost function Alone(s: State, t: Thread, k: nat): State
    requires t in s.pc
    decreases k
  {
    if k == 0 || s.pc[t].Idle? then s else Alone(DoStep(s, t), t, k - 1)
  }

  /** A consumer alone on a quiet queue gets exactly what there is, up to what it asks for, and an
      empty queue is told from a non-empty one without touching any counter. */
  lemma SoloDequeue(s: State, t: Thread, want: nat, k: nat)
    requires k >= 6
    requires Reachable(s) && Quiet(s) && t in s.pc && want > 0
    ensures
      var got := if s.head < s.tail then Min(want, s.tail - s.head) else 0;
      Alone(Do(s, Start(t, want)), t, k) == s.(head := s.head + got, optimistic := s.optimistic + got)
  {
    var ts := ReachableInv(s);
    QuietCounts(s, ts);
    SoloCall(s, t, want, k);
  }

  lemma SoloCall(s: State, t: Thread, want: nat, k: nat)
    requires k >= 6 && t in s.pc && s.pc[t].Idle? && want > 0
    requires s.optimistic == s.head + s.overcommit && s.head <= s.tail
    ensures
      var got := if s.head < s.tail then Min(want, s.tail - s.head) else 0;
      Alone(Do(s, Start(t, want)), t, k) == s.(head := s.head + got, optimistic := s.optimistic + got)
  {
    var s1 := Do(s, Start(t, want));
    AloneMoves(s, t, s1, LoadOvercommit(want, s.tail), k);
    AloneMoves(s, t, At(s, t, LoadOvercommit(want, s.tail)), LoadCount(want, s.tail, s.overcommit), k - 1);
    var s3 := At(s, t, LoadCount(want, s.tail, s.overcommit));
    if s.head == s.tail {
      AloneMoves(s, t, s3, Idle, k - 2);
      assert At(s, t, Idle) == s;
    } else {
      var got := Min(want, s.tail - s.head);
      AloneMoves(s, t, s3, Reserve(got, s.overcommit), k - 2);
      var s' := s.(optimistic := s.optimistic + got);
      AloneMoves(s', t, At(s, t, Reserve(got, s.overcommit)), ReloadTail(got, s.overcommit, s.optimistic), k - 3);
      AloneMoves(s', t, At(s', t, ReloadTail(got, s.overcommit, s.optimistic)), Claim(got, s.optimistic), k - 4);
      var s'' := s'.(head := s.head + got);
      AloneMoves(s'', t, At(s', t, Claim(got, s.optimistic)), Idle, k - 5);
      assert At(s'', t, Idle) == s'';
    }
  }

  ghost function At(s: State, t: Thread, pc: Pc): State {
    s.(pc := s.pc[t := pc])
  }

  lemma AloneMoves(s: State, t: Thread, before: State, pc: Pc, k: nat)
    requires k > 0 && t in before.pc && !before.pc[t].Idle?
    requires DoStep(before, t) == At(s, t, pc)
    ensures Alone(before, t, k) == Alone(At(s, t, pc), t, k - 1)
  {
  }
}
