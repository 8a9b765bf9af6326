/** What one consumer's call does to the counters while any number of others run: how many tickets it takes, and what
    becomes of them. */
module DequeueCalls {
  import opened Arith
  import opened DequeueProtocol

  /** By how much the steps of one thread raised the counters. */
  datatype Raised = Raised(head: int, overcommit: int, optimistic: int)

  ghost function RaisedBy(s: State, run: seq<Action>, t: Thread): Raised
    requires Legal(s, run)
    decreases |run|
  {
    if run == [] then Raised(0, 0, 0)
    else
      var s' := Do(s, run[0]);
      var rest := RaisedBy(s', run[1..], t);
      if run[0] == Step(t) then
        Raised(rest.head + s'.head - s.head, rest.overcommit + s'.overcommit - s.overcommit,
               rest.optimistic + s'.optimistic - s.optimistic)
      else rest
  }

  /** The run has no new call of `t`. */
  ghost predicate SameCall(run: seq<Action>, t: Thread) {
    forall a :: a in run ==> !(a.Start? && a.t == t)
  }

  /** The tickets of `t` that are counted and not yet claimed or given back. */
  function InHand(pc: Pc): nat {
    match pc
    case ReloadTail(desired, _, _) => desired
    case GiveBack(surplus, _, rest) => surplus + Pending(pc)
    case _ => Pending(pc)
  }

  /** Whatever the others do, each ticket that a thread counted it has claimed, has given back, or still holds. */
  lemma {:induction false} TicketsBalance(s: State, run: seq<Action>, t: Thread)
    requires Legal(s, run) && t in s.pc
    ensures t in After(s, run).pc
    ensures
      var r := RaisedBy(s, run, t);
      r.optimistic + InHand(s.pc[t]) == r.head + r.overcommit + InHand(After(s, run).pc[t])
    decreases |run|
  {
    if run != [] {
      TicketsBalance(Do(s, run[0]), run[1..], t);
    }
  }

  /** What is left to be given back. */
  function Owed(pc: Pc): nat {
    if pc.GiveBack? then pc.surplus else 0
  }

  /** Once the tickets are decided, the call claims and gives back exactly as decided. */
  lemma {:induction false} AsDecided(s: State, run: seq<Action>, t: Thread)
    requires Legal(s, run) && SameCall(run, t) && t in s.pc
    requires s.pc[t].GiveBack? || s.pc[t].Claim? || s.pc[t].Idle?
    ensures
      var e := After(s, run);
      && t in e.pc && (e.pc[t].GiveBack? || e.pc[t].Claim? || e.pc[t].Idle?)
      && RaisedBy(s, run, t) == Raised(Pending(s.pc[t]) - Pending(e.pc[t]), Owed(s.pc[t]) - Owed(e.pc[t]), 0)
    decreases |run|
  {
    if run != [] {
      assert run[0] in run;
      AsDecided(Do(s, run[0]), run[1..], t);
    }
  }

  /** The tickets that the tail covers when a consumer loads it again, no more than it has, are what its call claims,
      and the others it gives back, whatever other threads do before the call ends. */
  lemma ClaimsCovered(s: State, run: seq<Action>, t: Thread)
    requires t in s.pc && s.pc[t].ReloadTail? && run != [] && run[0] == Step(t)
    requires Legal(s, run) && SameCall(run, t)
    requires var e := After(s, run); t in e.pc ==> e.pc[t].Idle?
    ensures
      var ReloadTail(desired, overcommit, mine) := s.pc[t];
      var r := RaisedBy(s, run, t);
      var covered := s.tail - (mine - overcommit);
      && r.head == (if covered <= 0 then 0 else if covered < desired then covered else desired)
      && r.overcommit == desired - r.head && r.optimistic == 0
  {
    AsDecided(Do(s, run[0]), run[1..], t);
  }

  /** No ticket is counted after those of the first test. */
  lemma {:induction false} AsCounted(s: State, run: seq<Action>, t: Thread)
    requires Legal(s, run) && SameCall(run, t) && t in s.pc
    requires s.pc[t].Reserve? || s.pc[t].ReloadTail? || s.pc[t].GiveBack? || s.pc[t].Claim? || s.pc[t].Idle?
    ensures
      var e := After(s, run);
      && t in e.pc
      && RaisedBy(s, run, t).optimistic ==
           (if s.pc[t].Reserve? then s.pc[t].desired else 0) - (if e.pc[t].Reserve? then e.pc[t].desired else 0)
    decreases |run|
  {
    if run != [] {
      assert run[0] in run;
      AsCounted(Do(s, run[0]), run[1..], t);
    }
  }

  /** What a consumer's first test finds between its tickets and the tail, no more than it wants, is what its call
      counts, and of these it claims some and gives the others back. */
  lemma CountsFound(s: State, run: seq<Action>, t: Thread)
    requires t in s.pc && s.pc[t].LoadCount? && run != [] && run[0] == Step(t)
    requires Legal(s, run) && SameCall(run, t)
    requires var e := After(s, run); t in e.pc ==> e.pc[t].Idle?
    ensures
      var LoadCount(want, tail, overcommit) := s.pc[t];
      var r := RaisedBy(s, run, t);
      var found := tail - (s.optimistic - overcommit);
      && r.optimistic == (if found <= 0 then 0 else if found < want then found else want)
      && r.optimistic == r.head + r.overcommit
  {
    AsCounted(Do(s, run[0]), run[1..], t);
    TicketsBalance(s, run, t);
  }
}
