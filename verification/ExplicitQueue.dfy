/** The explicit producer and its consumers together. Every access of any thread to what another may write is a step
    of its own: the producer's look at a block's flags, its stores to the index and its publishing; a consumer's part
    in the dequeue protocol, its four reads on the way to the block of its index, taking the element out, and marking
    its place. The steps come in any order. */
module ExplicitQueue {
  import opened Arith
  import opened Bits
  import opened BlockIndex
  import opened Options
  import Q = DequeueProtocol

  type Thread = Q.Thread

  /** How far a consumer is with the index it has claimed, and what it has read. */
  datatype Stage<T> =
    | Claimed(i: nat)
    | AtHeader(i: nat, c: nat)
    | AtFront(i: nat, c: nat, f: nat)
    | AtBase(i: nat, c: nat, f: nat, base: nat)
    | Found(i: nat, block: Block<T>)
    | Emptied(i: nat, block: Block<T>)

  /** How many of its steps with the index a consumer has made. */
  function Progress<T>(st: Stage<T>): nat {
    match st
    case Claimed(_) => 0
    case AtHeader(_, _) => 1
    case AtFront(_, _, _) => 2
    case AtBase(_, _, _, _) => 3
    case Found(_, _) => 4
    case Emptied(_, _) => 5
  }

  /** What a `dequeue` took out, and for which index. */
  datatype Delivery<T> = Delivery(t: Thread, i: nat, x: T)

  /** The next step of some thread. The producer goes on with the look at the oldest block, begins a block, with or
      without memory for a larger index and with or without a block from the free list, writes its entry, moves the
      front, or puts an element; a consumer starts a call or goes on with it. */
  datatype Action<T> =
    | LookOn
    | Begin(alloc: bool, give: bool)
    | WriteEntry
    | MoveFront
    | Put(x: T)
    | Start(t: Thread)
    | Step(t: Thread)

  // ----- What a consumer relies on -----

  ghost predicate WayOk<T>(st: Stage<T>, size: nat, owner: seq<Block<T>>, hs: seq<Header<T>>, vs: seq<View>) {
    match st
    case Claimed(i) => true
    case AtHeader(i, c) => SeenNow(size, owner, hs, vs, c, i)
    case AtFront(i, c, f) => exists kf: nat :: Seen(size, owner, hs, vs, c, f, i, kf)
    case AtBase(i, c, f, base) => exists kf: nat :: Seen(size, owner, hs, vs, c, f, i, kf) && base == At(size, kf, 0)
    case Found(i, b) => size > 0 && i / size < |owner| && b == owner[i / size]
    case Emptied(i, b) => size > 0 && i / size < |owner| && b == owner[i / size]
  }

  /** What it relies on is still there after any step that keeps the ways of consumers. */
  lemma WayStays<T>(st: Stage<T>, size: nat, o: seq<Block<T>>, h: seq<Header<T>>, v: seq<View>,
                    o': seq<Block<T>>, h': seq<Header<T>>, v': seq<View>, completed: set<nat>)
    requires WayOk(st, size, o, h, v) && StillSeen(size, o, h, v, o', h', v', completed)
    requires st.i !in completed && o <= o'
    ensures WayOk(st, size, o', h', v')
  {
    hide Seen, SeenNow, At;
    match st
    case AtFront(i, c, f) =>
      var kf: nat :| Seen(size, o, h, v, c, f, i, kf);
      assert Seen(size, o', h', v', c, f, i, kf);
    case AtBase(i, c, f, base) =>
      var kf: nat :| Seen(size, o, h, v, c, f, i, kf) && base == At(size, kf, 0);
      assert Seen(size, o', h', v', c, f, i, kf);
    case _ =>
  }

  /** The index was claimed and is not completed, and its element is taken exactly if the thread took it. */
  ghost predicate HoldsIndex<T>(st: Stage<T>, head: nat, taken: set<nat>, completed: set<nat>) {
    st.i < head && st.i !in completed && (st.Emptied? <==> st.i in taken)
  }

  /** Threads hold different indices, and a thread that holds one is not inside the protocol. */
  ghost predicate StagesOk<T>(stages: map<Thread, Stage<T>>, s: Q.State, head: nat, taken: set<nat>,
                              completed: set<nat>)
  {
    && (forall t {:trigger stages[t]} :: t in stages ==>
          t in s.pc && s.pc[t] == Q.Idle && HoldsIndex(stages[t], head, taken, completed))
    && (forall t, u {:trigger stages[t], stages[u]} :: t in stages && u in stages && t != u ==>
          stages[t].i != stages[u].i)
  }

  ghost predicate WaysOk<T>(stages: map<Thread, Stage<T>>, size: nat, owner: seq<Block<T>>, hs: seq<Header<T>>,
                            vs: seq<View>)
  {
    forall t {:trigger stages[t]} :: t in stages ==> WayOk(stages[t], size, owner, hs, vs)
  }

  lemma WaysStay<T>(stages: map<Thread, Stage<T>>, size: nat, o: seq<Block<T>>, h: seq<Header<T>>, v: seq<View>,
                    o': seq<Block<T>>, h': seq<Header<T>>, v': seq<View>, completed: set<nat>)
    requires WaysOk(stages, size, o, h, v) && StillSeen(size, o, h, v, o', h', v', completed) && o <= o'
    requires forall t :: t in stages ==> stages[t].i !in completed
    ensures WaysOk(stages, size, o', h', v')
  {
    hide StillSeen, WayOk;
    forall t | t in stages ensures WayOk(stages[t], size, o', h', v') {
      WayStays(stages[t], size, o, h, v, o', h', v', completed);
    }
  }

  // ----- What was delivered -----

  /** Every delivery is the element enqueued at its index; every index whose element was taken was delivered, and once;
      and every index claimed was delivered or is in a thread's hands. */
  ghost predicate Delivered<T>(log: seq<Delivery<T>>, stages: map<Thread, Stage<T>>, enqueued: seq<T>, head: nat,
                               taken: set<nat>)
  {
    && (forall j {:trigger log[j]} :: 0 <= j < |log| ==>
          log[j].i < |enqueued| && log[j].x == enqueued[log[j].i] && log[j].i in taken)
    && (forall j, k {:trigger log[j], log[k]} :: 0 <= j < k < |log| ==> log[j].i != log[k].i)
    && (forall i: nat {:trigger i in taken} :: i in taken ==> Has(log, i))
    && (forall i: nat {:trigger i in taken} :: i < head && i !in taken ==> Held(stages, i))
  }

  ghost predicate Has<T>(log: seq<Delivery<T>>, i: nat) {
    exists j :: 0 <= j < |log| && log[j].i == i
  }

  ghost predicate Held<T>(stages: map<Thread, Stage<T>>, i: nat) {
    exists t :: t in stages && stages[t].i == i
  }

  // ----- Single dequeues in the protocol -----

  /** All calls under way are for one element. */
  ghost predicate Single(pc: Q.Pc) {
    match pc
    case Idle => true
    case LoadTail(want) => want == 1
    case LoadOvercommit(want, _) => want == 1
    case LoadCount(want, _, _) => want == 1
    case Reserve(desired, _) => desired == 1
    case ReloadTail(desired, _, _) => desired == 1
    case GiveBack(_, _, rest) => rest == Q.ThenReturn
    case Claim(actual, _) => actual == 1
  }

  ghost predicate AllSingle(s: Q.State) {
    forall t {:trigger s.pc[t]} :: t in s.pc ==> Single(s.pc[t])
  }

  lemma StaysSingle(s: Q.State, a: Q.Action)
    requires AllSingle(s) && Q.Enabled(s, a) && (a.Start? ==> a.want == 1)
    ensures AllSingle(Q.Do(s, a))
  {
  }

  /** An index that is about to be claimed is published. */
  lemma ClaimIsPublished(s: Q.State, ts: seq<Q.Ticket>, t: Thread)
    requires Q.Inv(s, ts) && t in s.pc && s.pc[t].Claim? && s.pc[t].actual == 1
    ensures s.head < s.tail
  {
    Q.PendingFits(s, ts, [t]);
    assert Q.AllPending(s, [t]) == Q.Pending(s.pc[t]);
  }

  // ----- The queue -----

  class ExplicitQueue<T> {
    const q: ExplicitProducer<T>
    var phase: Phase
    var s: Q.State
    var stages: map<Thread, Stage<T>>

    ghost var tickets: seq<Q.Ticket>
    ghost var log: seq<Delivery<T>>

    /** The registers count what was published and claimed. */
    ghost predicate Agrees()
      reads this, q
    {
      && Q.Inv(s, tickets) && AllSingle(s) && s.tail == q.tailIndex && s.head == q.headIndex
    }

    ghost predicate ConsumersOk()
      reads this, q
    {
      && StagesOk(stages, s, q.headIndex, q.taken, q.completed)
      && WaysOk(stages, q.blockSize, q.owner, q.headers, q.views)
    }

    ghost predicate Valid()
      reads this, q, q.owner
    {
      && q.InOrder(phase) && Agrees() && ConsumersOk()
      && Delivered(log, stages, q.enqueued, q.headIndex, q.taken)
    }

    /** A new producer, and any number of consumers. */
    constructor (q: ExplicitProducer<T>, threads: set<Thread>)
      requires q.Valid() && q.enqueued == [] && q.headIndex == 0 && q.taken == {}
      ensures Valid() && this.q == q && log == [] && stages == map[] && s.pc.Keys == threads
    {
      this.q, phase, stages := q, Outside, map[];
      s := Q.State(0, 0, 0, 0, map t | t in threads :: Q.Idle);
      tickets, log := [], [];
      new;
      q.InCounts(Outside);
    }

    // ----- The producer's steps -----

    /** The action is the producer's next. */
    ghost predicate IsNext(a: Action<T>)
      requires q.blockSize > 0
      reads this, q
    {
      match phase
      case Outside => if And(q.tailIndex, q.blockSize - 1) == 0 then a.LookOn? else a.Put?
      case Looking(_) => a.LookOn?
      case Looked(_) => a.Begin?
      case Started => a.WriteEntry?
      case Entered => a.MoveFront?
      case Fronted => a.Put?
    }

    /** A read of the producer, or a store to the index; nothing happens if this is not the next. */
    method IndexAct(a: Action<T>)
      requires Valid() && (a.LookOn? || a.WriteEntry? || a.MoveFront?)
      modifies this`phase, q
      ensures Valid() && q.enqueued == old(q.enqueued) && q.owner == old(q.owner)
      ensures a.LookOn? && old(phase).Looking? ==> phase == Looking(old(phase).read + 1) || phase.Looked?
      ensures a.LookOn? && old(phase).Outside? && old(And(q.tailIndex, q.blockSize - 1)) == 0 ==>
        phase == Looking(0) || phase == Looked(false)
      ensures a.WriteEntry? && old(phase).Started? ==> phase == Entered
      ensures a.MoveFront? && old(phase).Entered? ==> phase == Fronted
      ensures !old(IsNext(a)) ==> phase == old(phase)
    {
      hide ExplicitProducer.Blocks, ExplicitProducer.Covered, StillSeen, Q.Inv, WaysOk, StagesOk, Delivered, AllSingle;
      q.InCounts(phase);
      StagesOpen(stages, s, q.headIndex, q.taken, q.completed);
      q.NothingChanges();
      if a.LookOn? {
        if phase.Looking? {
          phase := q.Look(phase.read);
        } else if phase.Outside? && And(q.tailIndex, q.blockSize - 1) == 0 {
          phase := q.StartLook();
        }
      } else if a.WriteEntry? && phase.Started? {
        q.StoreEntry();
        phase := Entered;
      } else if a.MoveFront? && phase.Entered? {
        q.StoreFront();
        phase := Fronted;
      }
      WaysStay(stages, q.blockSize, old(q.owner), old(q.headers), old(q.views), q.owner, q.headers, q.views,
          q.completed);
    }

    /** The producer takes the oldest block or adds one, if it has looked; else nothing happens. */
    method BeginAct(alloc: bool, give: bool)
      requires Valid()
      modifies this`phase, q, q.owner
      ensures Valid() && q.enqueued == old(q.enqueued)
      ensures
        if phase == Started && old(phase).Looked? then |q.owner| == old(|q.owner|) + 1 && old(q.owner) <= q.owner
        else phase == (if old(phase).Looked? then Outside else old(phase)) && q.owner == old(q.owner)
      ensures old(phase) == Looked(true) ==> phase == Started
      ensures old(phase).Looked? && q.limit == None && alloc && give && old(q.indexSize) < Pow2(WORD_BITS - 1) ==>
        phase == Started
      ensures
        old(phase) == Looked(false) && q.limit.Some? && alloc && give && old(q.indexSize) < Pow2(WORD_BITS - 1) ==>
          (phase == Started <==>
            q.limit.value >= q.blockSize && q.tailIndex - q.headIndex + q.blockSize <= q.limit.value)
      ensures forall j {:trigger q.owner[j]} :: 0 <= j < |q.owner| ==> q.owner[j] in old(q.owner) || fresh(q.owner[j])
    {
      hide ExplicitProducer.Blocks, ExplicitProducer.Covered, ExplicitProducer.NextBlock, StillSeen, Pow2, Q.Inv;
      hide WaysOk, StagesOk, Delivered, AllSingle;
      q.InCounts(phase);
      StagesOpen(stages, s, q.headIndex, q.taken, q.completed);
      if phase.Looked? {
        var newBlock: Block?<T> := null;
        if give {
          newBlock := new Block<T>(q.blockSize);
        }
        var ok := q.BeginBlock(phase.empty, alloc && q.indexSize < Pow2(WORD_BITS - 1), newBlock);
        phase := if ok then Started else Outside;
        WaysStay(stages, q.blockSize, old(q.owner), old(q.headers), old(q.views), q.owner, q.headers, q.views,
            q.completed);
      }
    }

    /** The producer constructs and publishes an element, if it is there; else nothing happens. */
    method PutAct(x: T)
      requires Valid()
      modifies this`phase, this`s, q, q.owner
      ensures Valid() && q.owner == old(q.owner)
      ensures
        if old(phase).Fronted? || (old(phase).Outside? && old(And(q.tailIndex, q.blockSize - 1)) != 0)
        then phase == Outside && q.enqueued == old(q.enqueued) + [x] && s == Q.Do(old(s), Q.Publish(1))
        else phase == old(phase) && q.enqueued == old(q.enqueued) && s == old(s)
    {
      hide ExplicitProducer.Blocks, ExplicitProducer.Covered, Pow2, Q.Inv, Q.Do, WaysOk, StagesOk, AllSingle, Delivered;
      q.InCounts(phase);
      if phase.Fronted? || (phase.Outside? && And(q.tailIndex, q.blockSize - 1) != 0) {
        q.HasTail(phase);
        q.Construct(x, phase);
        phase := Outside;
        PutKeeps(s, tickets, stages, q.headIndex, q.taken, q.completed);
        PutDelivers(log, stages, old(q.enqueued), x, q.headIndex, q.taken);
        q.InCounts(Outside);
        s := Q.Do(s, Q.Publish(1));
      }
    }

    // ----- A consumer's steps -----

    /** A consumer that holds no index starts a call; else nothing happens. */
    method StartAct(t: Thread)
      requires Valid()
      modifies this`s
      ensures Valid()
      ensures s == if t !in stages && Q.Enabled(old(s), Q.Start(t, 1)) then Q.Do(old(s), Q.Start(t, 1)) else old(s)
    {
      hide ExplicitProducer.InOrder, Q.Inv, Q.Do, WaysOk, StagesOk, AllSingle, Delivered;
      if t !in stages && Q.Enabled(s, Q.Start(t, 1)) {
        CallStarts(s, tickets, stages, q.headIndex, q.taken, q.completed, t);
        s := Q.Do(s, Q.Start(t, 1));
      }
    }

    /** A step of the dequeue protocol; the last one claims the next index. */
    method ProtocolAct(t: Thread)
      requires Valid() && t !in stages && t in s.pc && !s.pc[t].Idle?
      modifies this`s, this`stages, this`tickets, q`headIndex
      ensures Valid() && s == Q.Do(old(s), Q.Step(t))
      ensures stages == if old(s.pc[t]).Claim? then old(stages)[t := Claimed(old(q.headIndex))] else old(stages)
    {
      hide ExplicitProducer.Blocks, ExplicitProducer.Covered, Q.Inv, Q.Do, Q.Track, WaysOk, StagesOk, AllSingle;
      hide Delivered;
      q.InCounts(phase);
      var a := Q.Step(t);
      if s.pc[t].Claim? {
        CallClaims(s, tickets, stages, q.headIndex, q.taken, q.completed, t);
        ClaimDelivers(log, stages, q.enqueued, q.headIndex, q.taken, t);
        ClaimWays(stages, q.blockSize, q.owner, q.headers, q.views, t, q.headIndex);
        var i := q.Claim(phase);
        stages := stages[t := Claimed(i)];
      } else {
        CallGoesOn(s, tickets, stages, q.headIndex, q.taken, q.completed, t);
      }
      tickets := Q.Track(s, tickets, a);
      s := Q.Do(s, a);
    }

    /** One of the four reads that lead to the block of the index. */
    method ReadAct(t: Thread)
      requires Valid() && t in stages && !stages[t].Found? && !stages[t].Emptied?
      modifies this`stages
      ensures Valid() && t in stages && stages == old(stages)[t := stages[t]] && stages[t].i == old(stages[t]).i
      ensures Progress(stages[t]) == Progress(old(stages[t])) + 1
    {
      hide ExplicitProducer.Blocks, ExplicitProducer.Covered, Q.Inv, StagesOk, AllSingle, Delivered, Seen, SeenNow, At;
      q.InCounts(phase);
      StageOpen(stages, s, q.headIndex, q.taken, q.completed, t);
      var next: Stage<T>;
      match stages[t] {
        case Claimed(i) =>
          var c := q.LoadIndex(i, phase);
          next := AtHeader(i, c);
        case AtHeader(i, c) =>
          var f, kf := q.LoadFront(c, i);
          next := AtFront(i, c, f);
        case AtFront(i, c, f) =>
          ghost var kf: nat :| Seen(q.blockSize, q.owner, q.headers, q.views, c, f, i, kf);
          var base := q.ReadBase(c, f, i, kf);
          next := AtBase(i, c, f, base);
        case AtBase(i, c, f, base) =>
          ghost var kf: nat :|
            Seen(q.blockSize, q.owner, q.headers, q.views, c, f, i, kf) && base == At(q.blockSize, kf, 0);
          var b := q.ReadBlock(c, f, base, i, kf);
          next := Found(i, b);
      }
      ReadKeeps(stages, s, q.headIndex, q.taken, q.completed, t, next);
      ReadDelivers(log, stages, q.enqueued, q.headIndex, q.taken, t, next);
      stages := stages[t := next];
    }

    /** Takes the element out of its place. */
    method TakeAct(t: Thread)
      requires Valid() && t in stages && stages[t].Found?
      modifies this`stages, this`log, q`taken, q.owner
      ensures Valid() && old(stages[t].i) < |q.enqueued| && q.taken == old(q.taken) + {old(stages[t]).i}
      ensures stages == old(stages)[t := Emptied(old(stages[t]).i, old(stages[t]).block)]
      ensures log == old(log) + [Delivery(t, old(stages[t].i), q.enqueued[old(stages[t].i)])]
    {
      hide ExplicitProducer.Blocks, ExplicitProducer.Covered, Q.Inv, StagesOk, AllSingle, Delivered, WaysOk;
      hide ExplicitProducer.Steady;
      q.InCounts(phase);
      StageOpen(stages, s, q.headIndex, q.taken, q.completed, t);
      TakeWays(stages, q.blockSize, q.owner, q.headers, q.views, t);
      var i, b := stages[t].i, stages[t].block;
      TakeKeeps(stages, s, q.headIndex, q.taken, q.completed, t);
      TakeDelivers(log, stages, q.enqueued, q.headIndex, q.taken, t);
      var x := q.Take(b, i, phase);
      log := log + [Delivery(t, i, x)];
      stages := stages[t := Emptied(i, b)];
    }

    /** Marks the place of the element taken. */
    method MarkAct(t: Thread)
      requires Valid() && t in stages && stages[t].Emptied?
      modifies this`stages, q`completed, q.owner
      ensures Valid() && stages == old(stages) - {t} && q.completed == old(q.completed) + {old(stages[t]).i}
    {
      hide ExplicitProducer.Blocks, ExplicitProducer.Covered, Q.Inv, StagesOk, AllSingle, Delivered, WaysOk;
      hide ExplicitProducer.Steady;
      q.InCounts(phase);
      StageOpen(stages, s, q.headIndex, q.taken, q.completed, t);
      TakeWays(stages, q.blockSize, q.owner, q.headers, q.views, t);
      var i, b := stages[t].i, stages[t].block;
      MarkKeeps(stages, s, q.headIndex, q.taken, q.completed, t);
      MarkDelivers(log, stages, q.enqueued, q.headIndex, q.taken, t);
      q.Finish(b, i, phase);
      stages := stages - {t};
    }

    // ----- A whole call -----

    /** `dequeue` by a consumer while no other is inside the protocol, whatever the producer is at: the oldest element
        that is published and not claimed is taken out and its place marked; without one nothing happens. */
    method Dequeue(t: Thread)
      requires Valid() && Q.Quiet(s) && t in s.pc && t !in stages
      modifies this`s, this`stages, this`tickets, this`log, q`headIndex, q`taken, q`completed, q.owner
      ensures Valid() && stages == old(stages)
      ensures
        if old(q.headIndex) < q.tailIndex
        then
          var i := old(q.headIndex);
          && q.headIndex == i + 1 && i < |q.enqueued| && log == old(log) + [Delivery(t, i, q.enqueued[i])]
          && q.completed == old(q.completed) + {i}
        else q.headIndex == old(q.headIndex) && log == old(log) && q.completed == old(q.completed)
    {
      hide Valid, Q.Alone, Q.Do, Q.Quiet;
      Registers();
      ghost var goal := CallLeads(t);
      var i := q.headIndex;
      StartAct(t);
      ghost var k: nat := 6;
      while !s.pc[t].Idle?
        invariant Valid() && t in s.pc && log == old(log) && q.completed == old(q.completed)
        invariant Q.Alone(s, t, k) == goal
        invariant if s.pc[t].Idle? && s.head != i then stages == old(stages)[t := Claimed(i)]
                  else stages == old(stages) && s.head == i
        invariant q.headIndex == s.head
        decreases k
      {
        Registers();
        AloneOn(s, t, k);
        StepIs(s, t);
        ProtocolAct(t);
        Registers();
        k := k - 1;
      }
      AloneEnds(s, t, k);
      if q.headIndex != i {
        while Progress(stages[t]) < 4
          invariant Valid() && t in stages && stages - {t} == old(stages) && stages[t].i == i
          invariant Progress(stages[t]) <= 4 && log == old(log) && q.completed == old(q.completed)
          invariant q.headIndex == i + 1
          decreases 4 - Progress(stages[t])
        {
          ReadAct(t);
        }
        TakeAct(t);
        MarkAct(t);
      }
    }

    lemma SizeIs()
      requires Valid()
      ensures q.blockSize > 0
    {
      q.InCounts(phase);
    }

    lemma Registers()
      requires Valid()
      ensures s.tail == q.tailIndex && s.head == q.headIndex && AllSingle(s)
    {
    }

    /** Where the steps of the call lead. */
    lemma CallLeads(t: Thread) returns (goal: Q.State)
      requires Valid() && Q.Quiet(s) && t in s.pc
      ensures Q.Enabled(s, Q.Start(t, 1)) && Q.Alone(Q.Do(s, Q.Start(t, 1)), t, 6) == goal
      ensures t in goal.pc && goal.pc[t].Idle? && goal.head == if s.head < s.tail then s.head + 1 else s.head
      ensures var s' := Q.Do(s, Q.Start(t, 1)); s'.head == s.head && t in s'.pc && !s'.pc[t].Idle?
    {
      hide Q.Inv, Q.Alone;
      Q.QuietCounts(s, tickets);
      Q.SoloCall(s, t, 1, 6);
      goal := Q.Alone(Q.Do(s, Q.Start(t, 1)), t, 6);
    }

    // ----- Any run -----

    /** What the action does to the counters of the protocol. */
    static ghost function StepOf(a: Action<T>, s: Q.State, stages: map<Thread, Stage<T>>, next: bool): Q.State {
      match a
      case Put(_) => if next then Q.Do(s, Q.Publish(1)) else s
      case Start(t) => if t !in stages && Q.Enabled(s, Q.Start(t, 1)) then Q.Do(s, Q.Start(t, 1)) else s
      case Step(t) => if t !in stages && Q.Enabled(s, Q.Step(t)) then Q.Do(s, Q.Step(t)) else s
      case _ => s
    }

    /** A step of any thread. */
    method Act(a: Action<T>)
      requires Valid()
      modifies this, q, q.owner
      ensures Valid()
      ensures q.enqueued == if a.Put? && old(IsNext(a)) then old(q.enqueued) + [a.x] else old(q.enqueued)
      ensures s == StepOf(a, old(s), old(stages), old(IsNext(a)))
      ensures
        if a.Step? && a.t in old(stages) && old(stages)[a.t].Found?
        then
          var i := old(stages)[a.t].i;
          i < |q.enqueued| && log == old(log) + [Delivery(a.t, i, q.enqueued[i])]
        else log == old(log)
      ensures forall j {:trigger q.owner[j]} :: 0 <= j < |q.owner| ==> q.owner[j] in old(q.owner) || fresh(q.owner[j])
    {
      hide Valid;
      SizeIs();
      match a
      case Begin(alloc, give) => BeginAct(alloc, give);
      case Put(x) => PutAct(x);
      case Start(t) => StartAct(t);
      case Step(t) =>
        if t in stages {
          match stages[t]
          case Found(_, _) => TakeAct(t);
          case Emptied(_, _) => MarkAct(t);
          case _ => ReadAct(t);
        } else if t in s.pc && !s.pc[t].Idle? {
          ProtocolAct(t);
        }
      case _ => IndexAct(a);
    }

    /** Any number of steps of any threads, in any order. */
    method Run(actions: seq<Action<T>>)
      requires Valid()
      modifies this, q, q.owner
      ensures Valid() && old(q.enqueued) <= q.enqueued && old(log) <= log
    {
      hide Valid;
      for n := 0 to |actions|
        invariant Valid() && old(q.enqueued) <= q.enqueued && old(log) <= log
        invariant forall j {:trigger q.owner[j]} :: 0 <= j < |q.owner| ==>
          q.owner[j] in old(q.owner) || fresh(q.owner[j])
      {
        Act(actions[n]);
      }
    }

    /** After any run: what was delivered is what was enqueued, each index at most once; and when no consumer holds an
        index, exactly the elements before the head were delivered. */
    lemma EachOnce()
      requires Valid()
      ensures forall j :: 0 <= j < |log| ==> log[j].i < |q.enqueued| && log[j].x == q.enqueued[log[j].i]
      ensures forall j, k :: 0 <= j < k < |log| ==> log[j].i != log[k].i
      ensures stages == map[] ==> forall i: nat {:trigger Has(log, i)} :: i < q.headIndex <==> Has(log, i)
    {
      hide Q.Inv, ExplicitProducer.Blocks, ExplicitProducer.Covered, StagesOk, WaysOk, AllSingle, Delivered;
      q.InCounts(phase);
      AllDelivered(log, stages, q.enqueued, q.headIndex, q.taken);
    }
  }

  // ----- What a step does to the stages and to what was delivered -----

  lemma StagesOpen<T>(stages: map<Thread, Stage<T>>, s: Q.State, head: nat, taken: set<nat>, completed: set<nat>)
    requires StagesOk(stages, s, head, taken, completed)
    ensures forall t :: t in stages ==> stages[t].i !in completed
  {
  }

  lemma StageOpen<T>(stages: map<Thread, Stage<T>>, s: Q.State, head: nat, taken: set<nat>, completed: set<nat>,
                     t: Thread)
    requires StagesOk(stages, s, head, taken, completed) && t in stages
    ensures HoldsIndex(stages[t], head, taken, completed)
  {
  }

  lemma AllDelivered<T>(log: seq<Delivery<T>>, stages: map<Thread, Stage<T>>, enqueued: seq<T>, head: nat,
                        taken: set<nat>)
    requires Delivered(log, stages, enqueued, head, taken) && forall i :: i in taken ==> i < head
    ensures forall j :: 0 <= j < |log| ==> log[j].i < |enqueued| && log[j].x == enqueued[log[j].i]
    ensures forall j, k :: 0 <= j < k < |log| ==> log[j].i != log[k].i
    ensures stages == map[] ==> forall i: nat {:trigger Has(log, i)} :: i < head <==> Has(log, i)
  {
    if stages == map[] {
      forall i: nat ensures i < head <==> Has(log, i) {
        assert i < head && i !in taken ==> Held(stages, i);
      }
    }
  }

  lemma PutKeeps<T>(s: Q.State, ts: seq<Q.Ticket>, stages: map<Thread, Stage<T>>, head: nat, taken: set<nat>,
                    completed: set<nat>)
    requires Q.Inv(s, ts) && AllSingle(s) && StagesOk(stages, s, head, taken, completed)
    ensures
      var s' := Q.Do(s, Q.Publish(1));
      && Q.Inv(s', ts) && AllSingle(s') && StagesOk(stages, s', head, taken, completed)
      && s'.tail == s.tail + 1 && s'.head == s.head
  {
    hide Q.Inv;
    Q.ActionKeepsInv(s, ts, Q.Publish(1));
    StaysSingle(s, Q.Publish(1));
  }

  lemma PutDelivers<T>(log: seq<Delivery<T>>, stages: map<Thread, Stage<T>>, enqueued: seq<T>, x: T, head: nat,
                       taken: set<nat>)
    requires Delivered(log, stages, enqueued, head, taken)
    ensures Delivered(log, stages, enqueued + [x], head, taken)
  {
  }

  /** A thread that found the block of its index has it. */
  lemma TakeWays<T>(stages: map<Thread, Stage<T>>, size: nat, owner: seq<Block<T>>, hs: seq<Header<T>>, vs: seq<View>,
                    t: Thread)
    requires WaysOk(stages, size, owner, hs, vs) && t in stages && (stages[t].Found? || stages[t].Emptied?)
    ensures
      var i, b := stages[t].i, stages[t].block;
      && size > 0 && i / size < |owner| && b == owner[i / size] && b in owner
      && WaysOk(stages[t := Emptied(i, b)], size, owner, hs, vs) && WaysOk(stages - {t}, size, owner, hs, vs)
  {
  }

  lemma CallStarts<T>(s: Q.State, ts: seq<Q.Ticket>, stages: map<Thread, Stage<T>>, head: nat, taken: set<nat>,
                      completed: set<nat>, t: Thread)
    requires Q.Inv(s, ts) && AllSingle(s) && StagesOk(stages, s, head, taken, completed)
    requires t !in stages && Q.Enabled(s, Q.Start(t, 1))
    ensures
      var s' := Q.Do(s, Q.Start(t, 1));
      && Q.Inv(s', ts) && AllSingle(s') && StagesOk(stages, s', head, taken, completed)
      && s'.tail == s.tail && s'.head == s.head
  {
    hide Q.Inv;
    Q.ActionKeepsInv(s, ts, Q.Start(t, 1));
    StaysSingle(s, Q.Start(t, 1));
  }

  lemma AloneOn(s: Q.State, t: Thread, k: nat)
    requires t in s.pc && !s.pc[t].Idle? && (k == 0 ==> Q.Alone(s, t, k).pc[t].Idle?)
    ensures k > 0 && Q.Alone(s, t, k) == Q.Alone(Q.Do(s, Q.Step(t)), t, k - 1)
  {
  }

  lemma AloneEnds(s: Q.State, t: Thread, k: nat)
    requires t in s.pc && s.pc[t].Idle?
    ensures Q.Alone(s, t, k) == s
  {
  }

  lemma StepIs(s: Q.State, t: Thread)
    requires AllSingle(s) && t in s.pc && !s.pc[t].Idle?
    ensures
      var s' := Q.Do(s, Q.Step(t));
      && s'.tail == s.tail && s'.head == s.head + (if s.pc[t].Claim? then 1 else 0)
      && s'.pc == s.pc[t := s'.pc[t]] && (s.pc[t].Claim? ==> s'.pc[t] == Q.Idle)
  {
  }

  lemma CallGoesOn<T>(s: Q.State, ts: seq<Q.Ticket>, stages: map<Thread, Stage<T>>, head: nat, taken: set<nat>,
                      completed: set<nat>, t: Thread)
    requires Q.Inv(s, ts) && AllSingle(s) && StagesOk(stages, s, head, taken, completed)
    requires t !in stages && t in s.pc && !s.pc[t].Idle? && !s.pc[t].Claim?
    ensures
      var s' := Q.Do(s, Q.Step(t));
      && Q.Inv(s', Q.Track(s, ts, Q.Step(t))) && AllSingle(s') && StagesOk(stages, s', head, taken, completed)
      && s'.tail == s.tail && s'.head == s.head
  {
    hide Q.Inv, Q.Do, Q.Track;
    Q.ActionKeepsInv(s, ts, Q.Step(t));
    StaysSingle(s, Q.Step(t));
    StepIs(s, t);
  }

  /** The claim: the protocol guarantees that the index was published. */
  lemma CallClaims<T>(s: Q.State, ts: seq<Q.Ticket>, stages: map<Thread, Stage<T>>, head: nat, taken: set<nat>,
                      completed: set<nat>, t: Thread)
    requires Q.Inv(s, ts) && AllSingle(s) && StagesOk(stages, s, head, taken, completed)
    requires t !in stages && t in s.pc && s.pc[t].Claim? && s.head == head
    requires (forall i :: i in taken ==> i < head) && (forall i :: i in completed ==> i in taken)
    ensures
      var s' := Q.Do(s, Q.Step(t));
      && Q.Inv(s', Q.Track(s, ts, Q.Step(t))) && AllSingle(s')
      && StagesOk(stages[t := Claimed(head)], s', head + 1, taken, completed)
      && s'.tail == s.tail && s'.head == s.head + 1 && s.head < s.tail
  {
    hide Q.Inv, Q.Do, Q.Track;
    Q.ActionKeepsInv(s, ts, Q.Step(t));
    StaysSingle(s, Q.Step(t));
    StepIs(s, t);
    ClaimIsPublished(s, ts, t);
  }

  lemma ClaimWays<T>(stages: map<Thread, Stage<T>>, size: nat, owner: seq<Block<T>>, hs: seq<Header<T>>, vs: seq<View>,
                     t: Thread, i: nat)
    requires WaysOk(stages, size, owner, hs, vs)
    ensures WaysOk(stages[t := Claimed(i)], size, owner, hs, vs)
  {
  }

  lemma ClaimDelivers<T>(log: seq<Delivery<T>>, stages: map<Thread, Stage<T>>, enqueued: seq<T>, head: nat,
                         taken: set<nat>, t: Thread)
    requires Delivered(log, stages, enqueued, head, taken) && t !in stages
    ensures Delivered(log, stages[t := Claimed(head)], enqueued, head + 1, taken)
  {
    var stages' := stages[t := Claimed(head)];
    forall i: nat | i < head + 1 && i !in taken ensures Held(stages', i) {
      if i == head {
        assert stages'[t].i == i;
      } else {
        var u :| u in stages && stages[u].i == i;
        assert stages'[u].i == i;
      }
    }
  }

  lemma ReadKeeps<T>(stages: map<Thread, Stage<T>>, s: Q.State, head: nat, taken: set<nat>, completed: set<nat>,
                     t: Thread, next: Stage<T>)
    requires StagesOk(stages, s, head, taken, completed) && t in stages
    requires next.i == stages[t].i && !stages[t].Emptied? && !next.Emptied?
    ensures StagesOk(stages[t := next], s, head, taken, completed)
  {
  }

  lemma SameHeld<T>(stages: map<Thread, Stage<T>>, t: Thread, next: Stage<T>, i: nat)
    requires t in stages && next.i == stages[t].i && Held(stages, i)
    ensures Held(stages[t := next], i)
  {
    var u :| u in stages && stages[u].i == i;
    assert stages[t := next][u].i == i;
  }

  lemma ReadDelivers<T>(log: seq<Delivery<T>>, stages: map<Thread, Stage<T>>, enqueued: seq<T>, head: nat,
                        taken: set<nat>, t: Thread, next: Stage<T>)
    requires Delivered(log, stages, enqueued, head, taken) && t in stages && next.i == stages[t].i
    ensures Delivered(log, stages[t := next], enqueued, head, taken)
  {
    forall i: nat | i < head && i !in taken ensures Held(stages[t := next], i) {
      SameHeld(stages, t, next, i);
    }
  }

  lemma TakeKeeps<T>(stages: map<Thread, Stage<T>>, s: Q.State, head: nat, taken: set<nat>, completed: set<nat>,
                     t: Thread)
    requires StagesOk(stages, s, head, taken, completed) && t in stages && stages[t].Found?
    ensures
      var i, b := stages[t].i, stages[t].block;
      StagesOk(stages[t := Emptied(i, b)], s, head, taken + {i}, completed)
  {
  }

  lemma TakeDelivers<T>(log: seq<Delivery<T>>, stages: map<Thread, Stage<T>>, enqueued: seq<T>, head: nat,
                        taken: set<nat>, t: Thread)
    requires Delivered(log, stages, enqueued, head, taken) && t in stages && stages[t].Found?
    requires stages[t].i < |enqueued| && stages[t].i !in taken
    ensures
      var i, b := stages[t].i, stages[t].block;
      Delivered(log + [Delivery(t, i, enqueued[i])], stages[t := Emptied(i, b)], enqueued, head, taken + {i})
  {
    var n, b := stages[t].i, stages[t].block;
    var log', taken' := log + [Delivery(t, n, enqueued[n])], taken + {n};
    forall i: nat | i in taken' ensures Has(log', i) {
      if i == n {
        assert log'[|log|].i == i;
      } else {
        assert Has(log, i);
        var j :| 0 <= j < |log| && log[j].i == i;
        assert log'[j].i == i;
      }
    }
    forall i: nat | i < head && i !in taken' ensures Held(stages[t := Emptied(n, b)], i) {
      assert i !in taken;
      SameHeld(stages, t, Emptied(n, b), i);
    }
  }

  lemma MarkKeeps<T>(stages: map<Thread, Stage<T>>, s: Q.State, head: nat, taken: set<nat>, completed: set<nat>,
                     t: Thread)
    requires StagesOk(stages, s, head, taken, completed) && t in stages
    ensures StagesOk(stages - {t}, s, head, taken, completed + {stages[t].i})
  {
  }

  lemma MarkDelivers<T>(log: seq<Delivery<T>>, stages: map<Thread, Stage<T>>, enqueued: seq<T>, head: nat,
                        taken: set<nat>, t: Thread)
    requires Delivered(log, stages, enqueued, head, taken) && t in stages && stages[t].i in taken
    ensures Delivered(log, stages - {t}, enqueued, head, taken)
  {
    forall i: nat | i < head && i !in taken ensures Held(stages - {t}, i) {
      assert Held(stages, i);
      var u :| u in stages && stages[u].i == i;
      assert u != t && (stages - {t})[u].i == i;
    }
  }
}
