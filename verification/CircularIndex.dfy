/** Wrapping queue indices: `circular_less_than`, and the leeway test by which the implicit producer
    keeps its tail from running so far ahead of the head that the comparison would fail. */
module CircularIndex {

  import opened Arith
  import opened Options

  /** The low `w` bits of an index. */
  function Wrap(x: int, w: nat): (r: nat)
    ensures r < Pow2(w)
  {
    x % Pow2(w)
  }

  /** `static_cast<T>(a - b) > static_cast<T>(1 << (w - 1))` on unsigned `w`-bit values. */
  predicate CircularLessThan(a: int, b: int, w: nat)
    requires w > 0
  {
    Wrap(a - b, w) > Pow2(w - 1)
  }

  /** A difference of wrapped values wraps like the difference of the values. */
  lemma WrapDifference(a: int, b: int, w: nat)
    ensures Wrap(Wrap(a, w) - Wrap(b, w), w) == Wrap(a - b, w)
  {
    ModSub(a, b, Pow2(w));
  }

  lemma WrapSum(a: int, d: int, w: nat)
    ensures Wrap(Wrap(a, w) + d, w) == Wrap(a + d, w)
  {
    ModAdd(a, d, Pow2(w));
  }

  /** Exactly when the comparison of wrapped values says "less": the distance from `a` up to `b`,
      around the circle, is positive and less than half of it. */
  lemma CircularLessThanIff(a: int, b: int, w: nat)
    requires w > 0
    ensures CircularLessThan(Wrap(a, w), Wrap(b, w), w) <==> 0 < Wrap(b - a, w) < Pow2(w - 1)
  {
    WrapDifference(a, b, w);
    ModNegate(b - a, Pow2(w));
    assert -(b - a) == a - b;
  }

  /** On values less than half the circle apart the comparison is that of the unbounded values. */
  lemma CircularLessThanExact(a: int, b: int, w: nat)
    requires w > 0 && a - b < Pow2(w - 1) && b - a < Pow2(w - 1)
    ensures CircularLessThan(Wrap(a, w), Wrap(b, w), w) <==> a < b
  {
    CircularLessThanIff(a, b, w);
    if a <= b {
      DivModSmall(b - a, Pow2(w));
    } else {
      DivModUnique(b - a, -1, b - a + Pow2(w), Pow2(w));
    }
  }

  /** Half the circle apart, neither of two values is less than the other. */
  lemma CircularLessThanAtHalf(a: int, w: nat)
    requires w > 0
    ensures !CircularLessThan(Wrap(a, w), Wrap(a + Pow2(w - 1), w), w)
    ensures !CircularLessThan(Wrap(a + Pow2(w - 1), w), Wrap(a, w), w)
  {
    var h: int := Pow2(w - 1);
    CircularLessThanIff(a, a + h, w);
    CircularLessThanIff(a + h, a, w);
    DivModSmall(h, Pow2(w));
    DivModUnique(-h, -1, h, Pow2(w));
  }

  // ----- The implicit producer's leeway -----

  /** Index width, log of the block size, and MAX_SUBQUEUE_SIZE when the traits set one (kept by the
      queue at a multiple of the block size). */
  datatype Config = Config(width: nat, blockBits: nat, limit: Option<nat>)

  ghost predicate ValidConfig(c: Config) {
    && 0 < c.blockBits < c.width - 1
    && (c.limit.Some? ==> c.limit.value % Pow2(c.blockBits) == 0)
  }

  /** The producer is outside `enqueue`, or has passed its tests and is about to publish the tail. */
  datatype Pc = Outside | Storing

  /** The two index registers, and how many elements were ever enqueued and claimed. */
  datatype State = State(tailIndex: nat, headIndex: nat, pc: Pc, enqueued: nat, claimed: nat)

  /** Begin: load the tail, and the head too at the end of a block; Store: publish the new tail;
      Claim: a consumer takes `n` published elements. */
  datatype Action = Begin | Store | Claim(n: nat)

  /** The test made when a new block is needed. */
  predicate NoLeeway(c: Config, tail: nat, head: nat)
    requires c.width > 0
  {
    var blockSize := Pow2(c.blockBits);
    || !CircularLessThan(head, Wrap(tail + blockSize, c.width), c.width)
    || (c.limit.Some? && (c.limit.value == 0 || c.limit.value - blockSize < Wrap(tail - head, c.width)))
  }

  ghost predicate Enabled(s: State, a: Action) {
    match a
    case Begin => s.pc == Outside
    case Store => s.pc == Storing
    case Claim(n) => n <= s.enqueued - s.claimed
  }

  ghost function Do(c: Config, s: State, a: Action): State
    requires c.width > 0 && Enabled(s, a)
  {
    match a
    case Begin =>
      if s.tailIndex % Pow2(c.blockBits) == 0 && NoLeeway(c, s.tailIndex, s.headIndex)
      then s  // enqueue returns false
      else s.(pc := Storing)
    case Store => s.(tailIndex := Wrap(s.tailIndex + 1, c.width), pc := Outside, enqueued := s.enqueued + 1)
    case Claim(n) => Claimed(c, s, n)
  }

  /** The fetch-add on the head. */
  function Claimed(c: Config, s: State, n: nat): State {
    s.(headIndex := Wrap(s.headIndex + n, c.width), claimed := s.claimed + n)
  }

  ghost predicate Legal(c: Config, s: State, run: seq<Action>)
    requires c.width > 0
    decreases |run|
  {
    run == [] || (Enabled(s, run[0]) && Legal(c, Do(c, s, run[0]), run[1..]))
  }

  ghost function After(c: Config, s: State, run: seq<Action>): State
    requires c.width > 0 && Legal(c, s, run)
    decreases |run|
  {
    if run == [] then s else After(c, Do(c, s, run[0]), run[1..])
  }

  const Start := State(0, 0, Outside, 0, 0)

  /** The first index past the block the tail is in. */
  function BlockEnd(c: Config, i: nat): nat {
    (i / Pow2(c.blockBits) + 1) * Pow2(c.blockBits)
  }

  /** How far the tail may go before the next test: to the end of its block. */
  ghost function Reach(c: Config, s: State): nat {
    if s.enqueued % Pow2(c.blockBits) == 0 && s.pc != Storing then s.enqueued else BlockEnd(c, s.enqueued)
  }

  ghost predicate Inv(c: Config, s: State)
    requires c.width > 0
  {
    && s.claimed <= s.enqueued
    && s.tailIndex == Wrap(s.enqueued, c.width)
    && s.headIndex == Wrap(s.claimed, c.width)
    && Reach(c, s) - s.claimed < Pow2(c.width - 1)
    && (c.limit.Some? ==> Reach(c, s) - s.claimed <= c.limit.value)
  }

  /** The low block bits survive wrapping. */
  lemma WrapKeepsOffset(x: nat, b: nat, w: nat)
    requires b <= w
    ensures Wrap(x, w) % Pow2(b) == x % Pow2(b)
  {
    var k := Pow2Divides(b, w);
    ModMod(x, k, Pow2(b));
  }

  lemma ReachBounds(c: Config, s: State)
    ensures s.enqueued <= Reach(c, s) <= s.enqueued + Pow2(c.blockBits)
    ensures s.enqueued % Pow2(c.blockBits) == 0 ==> BlockEnd(c, s.enqueued) == s.enqueued + Pow2(c.blockBits)
    ensures s.enqueued < BlockEnd(c, s.enqueued)
  {
    var b := Pow2(c.blockBits);
    assert (s.enqueued / b + 1) * b == s.enqueued - s.enqueued % b + b;
  }

  lemma BeginKeepsInv(c: Config, s: State)
    requires ValidConfig(c) && Inv(c, s) && Enabled(s, Begin)
    ensures Inv(c, Do(c, s, Begin))
  {
    var b, w := Pow2(c.blockBits), c.width;
    WrapKeepsOffset(s.enqueued, c.blockBits, w);
    ReachBounds(c, s);
    if s.enqueued % b == 0 && !NoLeeway(c, s.tailIndex, s.headIndex) {
      WrapSum(s.enqueued, b, w);
      CircularLessThanIff(s.claimed, s.enqueued + b, w);
      WrapDifference(s.enqueued, s.claimed, w);
      var k := Pow2Divides(c.blockBits, w - 1);
      MulAtLeast(k, b);
      DivModSmall(s.enqueued + b - s.claimed, Pow2(w));
      DivModSmall(s.enqueued - s.claimed, Pow2(w));
    }
  }

  lemma StoreKeepsInv(c: Config, s: State)
    requires ValidConfig(c) && Inv(c, s) && Enabled(s, Store)
    ensures Inv(c, Do(c, s, Store))
  {
    var b := Pow2(c.blockBits);
    var s' := Do(c, s, Store);
    WrapSum(s.enqueued, 1, c.width);
    ReachBounds(c, s);
    ReachBounds(c, s');
    NextOffset(s.enqueued, b);
    assert Reach(c, s') == Reach(c, s);
  }

  lemma ClaimKeepsInv(c: Config, s: State, n: nat)
    requires ValidConfig(c) && Inv(c, s) && Enabled(s, Claim(n))
    ensures Inv(c, Do(c, s, Claim(n)))
  {
    WrapSum(s.claimed, n, c.width);
  }

  lemma {:induction false} RunKeepsInv(c: Config, s: State, run: seq<Action>)
    requires ValidConfig(c) && Inv(c, s) && Legal(c, s, run)
    ensures Inv(c, After(c, s, run))
    decreases |run|
  {
    if run != [] {
      match run[0] {
        case Begin => BeginKeepsInv(c, s);
        case Store => StoreKeepsInv(c, s);
        case Claim(n) => ClaimKeepsInv(c, s, n);
      }
      RunKeepsInv(c, Do(c, s, run[0]), run[1..]);
    }
  }

  /** In every reachable state the queue holds fewer elements than half the index range, and no more
      than MAX_SUBQUEUE_SIZE; so the producer's comparisons of head and tail, made on wrapped
      registers, mean what they say about the true counts. */
  lemma LeewayHolds(c: Config, run: seq<Action>)
    requires ValidConfig(c) && Legal(c, Start, run)
    ensures
      var s := After(c, Start, run);
      && 0 <= s.enqueued - s.claimed < Pow2(c.width - 1)
      && (c.limit.Some? ==> s.enqueued - s.claimed <= c.limit.value)
      && Wrap(s.tailIndex - s.headIndex, c.width) == s.enqueued - s.claimed
      && (CircularLessThan(s.headIndex, s.tailIndex, c.width) <==> s.claimed < s.enqueued)
      && !CircularLessThan(s.tailIndex, s.headIndex, c.width)
  {
    RunKeepsInv(c, Start, run);
    CountsAgree(c, After(c, Start, run));
  }

  lemma CountsAgree(c: Config, s: State)
    requires ValidConfig(c) && Inv(c, s)
    ensures 0 <= s.enqueued - s.claimed < Pow2(c.width - 1)
    ensures c.limit.Some? ==> s.enqueued - s.claimed <= c.limit.value
    ensures Wrap(s.tailIndex - s.headIndex, c.width) == s.enqueued - s.claimed
    ensures CircularLessThan(s.headIndex, s.tailIndex, c.width) <==> s.claimed < s.enqueued
    ensures !CircularLessThan(s.tailIndex, s.headIndex, c.width)
  {
    ReachBounds(c, s);
    CircularLessThanExact(s.claimed, s.enqueued, c.width);
    CircularLessThanExact(s.enqueued, s.claimed, c.width);
    WrapDifference(s.enqueued, s.claimed, c.width);
    DivModSmall(s.enqueued - s.claimed, Pow2(c.width));
  }

  /** When `enqueue` goes on, told in counts: within a block always; at the end of one if the next block still leaves
      the tail less than half the index range ahead, and fits into the limit if there is one. */
  lemma AcceptsIff(c: Config, s: State)
    requires ValidConfig(c) && Inv(c, s) && Enabled(s, Begin)
    ensures
      var s', held, block := Do(c, s, Begin), s.enqueued - s.claimed, Pow2(c.blockBits);
      && s'.(pc := Outside) == s
      && (s'.pc == Storing <==>
            || s.enqueued % block != 0
            || (held + block < Pow2(c.width - 1) && (c.limit.Some? ==> held + block <= c.limit.value)))
  {
    var b, w := Pow2(c.blockBits), c.width;
    hide Reach;
    CountsAgree(c, s);
    WrapKeepsOffset(s.enqueued, c.blockBits, w);
    if s.enqueued % b == 0 {
      WrapSum(s.enqueued, b, w);
      CircularLessThanIff(s.claimed, s.enqueued + b, w);
      var k := Pow2Divides(c.blockBits, w - 1);
      MulAtLeast(k, b);
      DivModSmall(s.enqueued + b - s.claimed, Pow2(w));
    }
  }
}
