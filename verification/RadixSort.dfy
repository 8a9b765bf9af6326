/** The in-place MSD radix sort: a histogram of one byte, cursors into the buckets, cycles of swaps that
    carry every element into its bucket, then each bucket by its next byte, small ones by insertion. */
module RadixSort {
  import opened Arith
  import opened Bits

  const RADIX_BITS: nat := 8
  const RADIX_BIN: nat := 256
  const INSERT_SORT_THRESHOLD: nat := 64

  // ----- Bytes of a value -----

  /** An integer type of `bytes` bytes. */
  datatype Traits = Unsigned(bytes: nat) | Signed(bytes: nat)

  predicate InRange(tr: Traits, x: int) {
    match tr
    case Unsigned(n) => 0 <= x < Pow2(8 * n)
    case Signed(n) => n > 0 && -Half(n) <= x < Half(n)
  }

  /** `T(0x80) << ((sizeof(T) - 1) * 8)`, without its sign. */
  function Half(n: nat): int
    requires n > 0
  {
    Pow2(8 * n - 1)
  }

  /** The bits of a value of the type, as an unsigned word. */
  function Word(tr: Traits, x: int): nat
    requires InRange(tr, x)
  {
    if x < 0 then x + Pow2(8 * tr.bytes) else x
  }

  /** The word whose bytes are compared: the sign bit of a signed value is flipped. */
  function Flipped(tr: Traits, x: int): nat
    requires InRange(tr, x)
  {
    match tr
    case Unsigned(_) => Word(tr, x)
    case Signed(n) => Xor(Word(tr, x), Half(n))
  }

  /** `kth_byte` */
  function KthByte(tr: Traits, x: int, k: nat): (b: nat)
    requires InRange(tr, x)
    ensures b < RADIX_BIN
  {
    AndOnes(Shr(Flipped(tr, x), RADIX_BITS * k), 8);
    And(Shr(Flipped(tr, x), RADIX_BITS * k), RADIX_BIN - 1)
  }

  /** What the bytes spell, in the order of the type. */
  function Key(tr: Traits, x: int): int
    requires InRange(tr, x)
  {
    match tr
    case Unsigned(_) => x
    case Signed(n) => x + Half(n)
  }

  /** All bytes from the `k`-th up. */
  function Prefix(tr: Traits, x: int, k: nat): int
    requires InRange(tr, x)
  {
    Key(tr, x) / Pow2(8 * k)
  }

  lemma {:induction false} XorTop(u: nat, n: nat)
    requires u < Pow2(n + 1)
    ensures Xor(u, Pow2(n)) == if u < Pow2(n) then u + Pow2(n) else u - Pow2(n)
    decreases n
  {
    if n == 0 {
      assert Pow2(1) == 2;
      assert Xor(0, 0) == 0;
    } else {
      XorTop(u / 2, n - 1);
      assert Pow2(n) / 2 == Pow2(n - 1) && Pow2(n) % 2 == 0;
    }
  }

  /** Flipping the sign bit of the two's complement word shifts the signed range to start at zero. */
  lemma FlippedIsKey(tr: Traits, x: int)
    requires InRange(tr, x)
    ensures Flipped(tr, x) == Key(tr, x) < Pow2(8 * tr.bytes)
  {
    if tr.Signed? {
      assert Pow2(8 * tr.bytes) == 2 * Pow2(8 * tr.bytes - 1);
      XorTop(Word(tr, x), 8 * tr.bytes - 1);
    }
  }

  /** A prefix is the next shorter one with a byte appended. */
  lemma PrefixStep(tr: Traits, x: int, k: nat)
    requires InRange(tr, x)
    ensures Prefix(tr, x, k) == Prefix(tr, x, k + 1) * RADIX_BIN + KthByte(tr, x, k)
  {
    hide Pow2, Shr, And;
    FlippedIsKey(tr, x);
    ByteStep(Key(tr, x), k);
  }

  lemma ByteStep(key: nat, k: nat)
    ensures Quotient(key, Pow2(8 * k)) ==
            Quotient(key, Pow2(8 * (k + 1))) * RADIX_BIN + And(Shr(key, RADIX_BITS * k), RADIX_BIN - 1)
  {
    ByteBits();
    hide Pow2, Shr, And;
    ShrIsDiv(key, 8 * k);
    AndOnes(Shr(key, 8 * k), 8);
    ShrIsDiv(Shr(key, 8 * k), 8);
    ShrTwice(key, 8 * k, 8);
    ShrIsDiv(key, 8 * (k + 1));
  }

  lemma ByteBits()
    ensures Pow2(8) == RADIX_BIN == 256 && RADIX_BITS == 8
  {
  }

  lemma PrefixOfAll(tr: Traits, x: int)
    requires InRange(tr, x)
    ensures Prefix(tr, x, tr.bytes) == 0 && Prefix(tr, x, 0) == Key(tr, x)
  {
    FlippedIsKey(tr, x);
    DivModSmall(Key(tr, x), Pow2(8 * tr.bytes));
    DivModUnique(Key(tr, x), Key(tr, x), 0, 1);
  }

  /** Different prefixes order the values. */
  lemma PrefixOrders(tr: Traits, x: int, y: int, k: nat)
    requires InRange(tr, x) && InRange(tr, y) && Prefix(tr, x, k) < Prefix(tr, y, k)
    ensures x < y
  {
    DivOrder(Key(tr, x), Key(tr, y), Pow2(8 * k));
  }

  // ----- Sorted ranges and permutations -----

  predicate SortedBetween(a: seq<int>, s: nat, e: nat)
    requires e <= |a|
  {
    forall i, j :: s <= i < j < e ==> a[i] <= a[j]
  }

  /** `b` is `a` with the range from `s` to `e` permuted. */
  ghost predicate Permuted(a: seq<int>, b: seq<int>, s: nat, e: nat) {
    && s <= e <= |a| == |b|
    && multiset(a) == multiset(b)
    && a[..s] == b[..s] && a[e..] == b[e..]
  }

  lemma PermutedTrans(a: seq<int>, b: seq<int>, c: seq<int>, s: nat, e: nat, s': nat, e': nat)
    requires Permuted(a, b, s, e) && Permuted(b, c, s', e') && s <= s' <= e' <= e
    ensures Permuted(a, c, s, e)
  {
    assert b[..s] == b[..s'][..s] && c[..s] == c[..s'][..s];
    assert b[e..] == b[e'..][e - e'..] && c[e..] == c[e'..][e - e'..];
  }

  lemma PermutedLength(a: seq<int>, b: seq<int>, s: nat, e: nat)
    requires Permuted(a, b, s, e)
    ensures s <= e <= |a| == |b|
  {
  }

  lemma PermutedRange(a: seq<int>, b: seq<int>, s: nat, e: nat)
    requires Permuted(a, b, s, e)
    ensures multiset(a[s..e]) == multiset(b[s..e])
  {
    SplitMultiset(a, s, e);
    SplitMultiset(b, s, e);
    forall x ensures multiset(a[s..e])[x] == multiset(b[s..e])[x] {
      assert multiset(a)[x] == multiset(b)[x];
    }
  }

  lemma SplitMultiset(a: seq<int>, s: nat, e: nat)
    requires s <= e <= |a|
    ensures multiset(a) == multiset(a[..s]) + multiset(a[s..e]) + multiset(a[e..])
  {
    assert a == a[..s] + a[s..e] + a[e..];
    assert multiset((a[..s] + a[s..e]) + a[e..]) == multiset(a[..s] + a[s..e]) + multiset(a[e..]);
  }

  /** Every element of a permuted range was in the range before. */
  lemma PermutedMember(a: seq<int>, b: seq<int>, s: nat, e: nat, p: nat) returns (q: nat)
    requires Permuted(a, b, s, e) && s <= p < e
    ensures s <= q < e && a[q] == b[p]
  {
    PermutedRange(a, b, s, e);
    assert b[s..e][p - s] in multiset(b[s..e]);
    assert b[p] in a[s..e];
    var i :| 0 <= i < e - s && a[s..e][i] == b[p];
    q := s + i;
  }

  lemma SwapPermutes(a: seq<int>, i: nat, j: nat, s: nat, e: nat)
    requires s <= i < e <= |a| && s <= j < e
    ensures Permuted(a, a[i := a[j]][j := a[i]], s, e)
  {
  }

  // ----- Insertion sort -----

  /** `insert_sort_core_` */
  method InsertSort(a: array<int>, s: nat, e: nat)
    requires s <= e <= a.Length
    modifies a
    ensures SortedBetween(a[..], s, e) && Permuted(old(a[..]), a[..], s, e)
  {
    var i := s + 1;
    while i < e
      invariant s + 1 <= i && (i <= e || s == e)
      invariant SortedBetween(a[..], s, if i <= e then i else e)
      invariant Permuted(old(a[..]), a[..], s, e)
    {
      if a[i] < a[i - 1] {
        InsertOne(a, s, i, e);
      }
      i := i + 1;
    }
  }

  /** Element `i`, held in `tmp`, goes into the gap at `j`: what is above the gap is larger, and the
      sequence with the gap filled is a permutation of the one before. */
  ghost predicate Gap(before: seq<int>, a: seq<int>, tmp: int, s: nat, j: nat, i: nat, e: nat) {
    && s <= j < i < e <= |a|
    && (forall p, q :: s <= p < q <= i ==> a[p] <= a[q])
    && (forall p :: j <= p <= i ==> tmp < a[p])
    && Permuted(before, a[j := tmp], s, e)
  }

  lemma GapOpens(a: seq<int>, s: nat, i: nat, e: nat)
    requires s < i < e <= |a| && SortedBetween(a, s, i) && a[i] < a[i - 1]
    ensures Gap(a, a[i := a[i - 1]], a[i], s, i - 1, i, e)
  {
    hide Permuted;
    assert a[i := a[i - 1]][i - 1 := a[i]] == a[i - 1 := a[i]][i := a[i - 1]];
    SwapPermutes(a, i - 1, i, s, e);
  }

  lemma GapMoves(before: seq<int>, a: seq<int>, tmp: int, s: nat, j: nat, i: nat, e: nat)
    requires Gap(before, a, tmp, s, j, i, e) && j > s && tmp < a[j - 1]
    ensures Gap(before, a[j := a[j - 1]], tmp, s, j - 1, i, e)
  {
    hide Permuted;
    GapSwap(before, a, tmp, s, j, e);
  }

  lemma GapSwap(before: seq<int>, a: seq<int>, tmp: int, s: nat, j: nat, e: nat)
    requires s < j < e <= |a| && Permuted(before, a[j := tmp], s, e)
    ensures Permuted(before, a[j := a[j - 1]][j - 1 := tmp], s, e)
  {
    hide Permuted;
    var was, now := a[j := tmp], a[j := a[j - 1]][j - 1 := tmp];
    assert now == was[j := was[j - 1]][j - 1 := was[j]];
    SwapPermutes(was, j, j - 1, s, e);
    PermutedTrans(before, was, now, s, e, s, e);
  }

  lemma GapCloses(before: seq<int>, a: seq<int>, tmp: int, s: nat, j: nat, i: nat, e: nat)
    requires Gap(before, a, tmp, s, j, i, e) && (j > s ==> a[j - 1] <= tmp)
    ensures SortedBetween(a[j := tmp], s, i + 1) && Permuted(before, a[j := tmp], s, e)
  {
  }

  /** Moves element `i` down to its place among the sorted elements before it. */
  method InsertOne(a: array<int>, s: nat, i: nat, ghost e: nat)
    requires s < i < e <= a.Length && SortedBetween(a[..], s, i) && a[i] < a[i - 1]
    modifies a
    ensures SortedBetween(a[..], s, i + 1) && Permuted(old(a[..]), a[..], s, e)
  {
    hide SortedBetween, Permuted, Gap;
    ghost var before := a[..];
    GapOpens(before, s, i, e);
    var tmp := a[i];
    a[i] := a[i - 1];
    assert a[..] == before[i := before[i - 1]];
    var j := i - 1;
    while j > s && tmp < a[j - 1]
      invariant s <= j < i
      invariant Gap(before, a[..], tmp, s, j, i, e)
    {
      ghost var was := a[..];
      GapMoves(before, was, tmp, s, j, i, e);
      a[j] := a[j - 1];
      assert a[..] == was[j := was[j - 1]];
      j := j - 1;
    }
    GapCloses(before, a[..], tmp, s, j, i, e);
    ghost var was := a[..];
    a[j] := tmp;
    assert a[..] == was[j := tmp];
  }

  // ----- Buckets -----

  /** One pass of the sort: the byte it looks at, over the range from `s` to `e`. */
  datatype Pass = Pass(tr: Traits, k: nat, s: nat, e: nat)

  ghost predicate Elements(ps: Pass, a: seq<int>) {
    ps.s <= ps.e <= |a| && forall p :: ps.s <= p < ps.e ==> InRange(ps.tr, a[p])
  }

  /** The byte of the element at `p`; out of range elements have none. */
  ghost predicate Has(ps: Pass, a: seq<int>, p: nat, t: nat)
    requires p < |a|
  {
    InRange(ps.tr, a[p]) && KthByte(ps.tr, a[p], ps.k) == t
  }

  /** How many elements of the range from `s` to `e` have byte `t`. */
  ghost function Tally(ps: Pass, a: seq<int>, lo: nat, hi: nat, t: nat): nat
    requires lo <= hi <= |a|
    decreases hi - lo
  {
    if lo == hi then 0 else Tally(ps, a, lo, hi - 1, t) + if Has(ps, a, hi - 1, t) then 1 else 0
  }

  lemma {:induction false} TallySplit(ps: Pass, a: seq<int>, lo: nat, mid: nat, hi: nat, t: nat)
    requires lo <= mid <= hi <= |a|
    ensures Tally(ps, a, lo, hi, t) == Tally(ps, a, lo, mid, t) + Tally(ps, a, mid, hi, t)
    decreases hi - mid
  {
    if mid < hi {
      TallySplit(ps, a, lo, mid, hi - 1, t);
    }
  }

  lemma {:induction false} TallyFull(ps: Pass, a: seq<int>, lo: nat, hi: nat, t: nat)
    requires lo <= hi <= |a| && forall p {:trigger Has(ps, a, p, t)} :: lo <= p < hi ==> Has(ps, a, p, t)
    ensures Tally(ps, a, lo, hi, t) == hi - lo
    decreases hi - lo
  {
    if lo < hi {
      assert Has(ps, a, hi - 1, t);
      TallyFull(ps, a, lo, hi - 1, t);
    }
  }

  /** One more element with byte `t` besides a run of them makes the tally exceed the run. */
  lemma TallyExceeds(ps: Pass, a: seq<int>, lo: nat, hi: nat, from: nat, to: nat, h: nat, t: nat)
    requires lo <= from <= to <= hi <= |a| && lo <= h < hi && !(from <= h < to) && Has(ps, a, h, t)
    requires forall p {:trigger Has(ps, a, p, t)} :: from <= p < to ==> Has(ps, a, p, t)
    ensures Tally(ps, a, lo, hi, t) > to - from
  {
    TallyFull(ps, a, from, to, t);
    TallySplit(ps, a, lo, from, hi, t);
    TallySplit(ps, a, from, to, hi, t);
    TallyFull(ps, a, h, h + 1, t);
    if h < from {
      TallySplit(ps, a, lo, h, from, t);
      TallySplit(ps, a, h, h + 1, from, t);
    } else {
      TallySplit(ps, a, to, h, hi, t);
      TallySplit(ps, a, h, h + 1, hi, t);
    }
  }

  /** The tally of a range of a sequence with two elements exchanged. */
  lemma TallySwap(ps: Pass, a: seq<int>, i: nat, j: nat, t: nat)
    requires ps.s <= i < j < ps.e <= |a|
    ensures Tally(ps, a[i := a[j]][j := a[i]], ps.s, ps.e, t) == Tally(ps, a, ps.s, ps.e, t)
  {
    var b := a[i := a[j]][j := a[i]];
    Tally5(ps, a, i, j, t);
    Tally5(ps, b, i, j, t);
    TallySame(ps, a, b, ps.s, i, t);
    TallySame(ps, a, b, i + 1, j, t);
    TallySame(ps, a, b, j + 1, ps.e, t);
  }

  lemma TallyOne(ps: Pass, a: seq<int>, i: nat, t: nat)
    requires i < |a|
    ensures Tally(ps, a, i, i + 1, t) == if Has(ps, a, i, t) then 1 else 0
  {
    assert Tally(ps, a, i, i, t) == 0;
  }

  lemma Tally5(ps: Pass, a: seq<int>, i: nat, j: nat, t: nat)
    requires ps.s <= i < j < ps.e <= |a|
    ensures Tally(ps, a, ps.s, ps.e, t) ==
      Tally(ps, a, ps.s, i, t) + (if Has(ps, a, i, t) then 1 else 0) + Tally(ps, a, i + 1, j, t)
      + (if Has(ps, a, j, t) then 1 else 0) + Tally(ps, a, j + 1, ps.e, t)
  {
    hide Tally, Has;
    TallySplit(ps, a, ps.s, i, ps.e, t);
    TallySplit(ps, a, i, i + 1, ps.e, t);
    TallySplit(ps, a, i + 1, j, ps.e, t);
    TallySplit(ps, a, j, j + 1, ps.e, t);
    TallyOne(ps, a, i, t);
    TallyOne(ps, a, j, t);
  }

  lemma {:induction false} TallySame(ps: Pass, a: seq<int>, b: seq<int>, lo: nat, hi: nat, t: nat)
    requires lo <= hi <= |a| == |b| && forall p :: lo <= p < hi ==> a[p] == b[p]
    ensures Tally(ps, a, lo, hi, t) == Tally(ps, b, lo, hi, t)
    decreases hi - lo
  {
    if lo < hi {
      TallySame(ps, a, b, lo, hi - 1, t);
    }
  }

  /** Where bucket `i` starts: after the counts of the buckets before it. */
  ghost function Begin(count: seq<nat>, s: nat, i: nat): nat
    requires i <= |count|
  {
    if i == 0 then s else Begin(count, s, i - 1) + count[i - 1]
  }

  lemma {:induction false} BeginMonotone(count: seq<nat>, s: nat, i: nat, j: nat)
    requires i <= j <= |count|
    ensures Begin(count, s, i) <= Begin(count, s, j)
    decreases j - i
  {
    if i < j {
      BeginMonotone(count, s, i, j - 1);
    }
  }

  lemma {:induction false} BeginBump(count: seq<nat>, s: nat, t: nat, i: nat)
    requires t < |count| && i <= |count|
    ensures Begin(count[t := count[t] + 1], s, i) == Begin(count, s, i) + if t < i then 1 else 0
    decreases i
  {
    if i > 0 {
      BeginBump(count, s, t, i - 1);
    }
  }

  lemma {:induction false} BeginOfZeros(count: seq<nat>, s: nat, i: nat)
    requires i <= |count| && forall t :: 0 <= t < |count| ==> count[t] == 0
    ensures Begin(count, s, i) == s
    decreases i
  {
    if i > 0 {
      BeginOfZeros(count, s, i - 1);
    }
  }

  /** The histogram: every count is the tally of its byte, so the buckets fill the range. */
  ghost predicate Histogram(ps: Pass, a: seq<int>, count: seq<nat>) {
    && Elements(ps, a) && |count| == RADIX_BIN
    && (forall t {:trigger count[t]} :: 0 <= t < RADIX_BIN ==> count[t] == Tally(ps, a, ps.s, ps.e, t))
    && Begin(count, ps.s, RADIX_BIN) == ps.e
  }

  method CountBytes(a: array<int>, ps: Pass) returns (count: array<nat>)
    requires Elements(ps, a[..])
    ensures fresh(count) && Histogram(ps, a[..], count[..])
  {
    count := new nat[RADIX_BIN](_ => 0);
    var i := ps.s;
    BeginOfZeros(count[..], ps.s, RADIX_BIN);
    while i < ps.e
      invariant ps.s <= i <= ps.e
      invariant forall t {:trigger count[t]} :: 0 <= t < RADIX_BIN ==> count[t] == Tally(ps, a[..], ps.s, i, t)
      invariant Begin(count[..], ps.s, RADIX_BIN) == i
    {
      var t := KthByte(ps.tr, a[i], ps.k);
      ghost var was := count[..];
      BeginBump(was, ps.s, t, RADIX_BIN);
      count[t] := count[t] + 1;
      assert count[..] == was[t := was[t] + 1];
      i := i + 1;
    }
  }

  // ----- Cycles -----

  /** Every cursor is within its bucket. */
  ghost predicate Cursors(ps: Pass, count: seq<nat>, last: seq<nat>) {
    && |count| == |last| == RADIX_BIN
    && forall t: nat {:trigger last[t]} :: t < RADIX_BIN ==>
        Begin(count, ps.s, t) <= last[t] <= Begin(count, ps.s, t + 1)
  }

  /** Everything before a bucket's cursor belongs to the bucket. */
  ghost predicate Placed(ps: Pass, a: seq<int>, count: seq<nat>, last: seq<nat>)
    requires |count| == |last| == RADIX_BIN
  {
    forall t: nat, p: nat {:trigger Has(ps, a, p, t)} ::
      t < RADIX_BIN && p < |a| && Begin(count, ps.s, t) <= p < last[t] ==> Has(ps, a, p, t)
  }

  ghost predicate Permuting(ps: Pass, a0: seq<int>, a: seq<int>, count: seq<nat>, last: seq<nat>) {
    Permuted(a0, a, ps.s, ps.e) && Histogram(ps, a, count) && Cursors(ps, count, last) && Placed(ps, a, count, last)
  }

  /** Bucket `t` is full. */
  ghost predicate Full(ps: Pass, count: seq<nat>, last: seq<nat>, t: nat)
    requires |count| == |last| == RADIX_BIN && t < RADIX_BIN
  {
    last[t] == Begin(count, ps.s, t + 1)
  }

  lemma BucketsDisjoint(ps: Pass, count: seq<nat>, t: nat, u: nat, p: nat)
    requires t < |count| && u < |count| && t != u
    requires Begin(count, ps.s, t) <= p < Begin(count, ps.s, t + 1)
    ensures !(Begin(count, ps.s, u) <= p < Begin(count, ps.s, u + 1))
  {
    if t < u {
      BeginMonotone(count, ps.s, t + 1, u);
    } else {
      BeginMonotone(count, ps.s, u + 1, t);
    }
  }

  lemma BucketInRange(ps: Pass, count: seq<nat>, t: nat)
    requires |count| == RADIX_BIN && t < RADIX_BIN && Begin(count, ps.s, RADIX_BIN) == ps.e
    ensures ps.s <= Begin(count, ps.s, t) <= Begin(count, ps.s, t + 1) <= ps.e
  {
    BeginMonotone(count, ps.s, 0, t);
    BeginMonotone(count, ps.s, t + 1, RADIX_BIN);
  }

  /** An element with byte `t` outside the placed part of bucket `t` leaves room in that bucket. */
  lemma RoomForStray(ps: Pass, a0: seq<int>, a: seq<int>, count: seq<nat>, last: seq<nat>, h: nat, t: nat)
    requires Permuting(ps, a0, a, count, last) && t < RADIX_BIN && ps.s <= h < ps.e
    requires Has(ps, a, h, t) && !(Begin(count, ps.s, t) <= h < last[t])
    ensures ps.s <= last[t] < Begin(count, ps.s, t + 1) <= ps.e
  {
    BucketInRange(ps, count, t);
    var from, to := Begin(count, ps.s, t), last[t];
    forall p | from <= p < to ensures Has(ps, a, p, t) {
      assert p < |a|;
    }
    TallyExceeds(ps, a, ps.s, ps.e, from, to, h, t);
    assert count[t] == Tally(ps, a, ps.s, ps.e, t);
  }

  lemma HistogramSwap(ps: Pass, a: seq<int>, count: seq<nat>, i: nat, j: nat)
    requires Histogram(ps, a, count) && ps.s <= i < ps.e && ps.s <= j < ps.e && i != j
    ensures Histogram(ps, a[i := a[j]][j := a[i]], count)
  {
    var b := a[i := a[j]][j := a[i]];
    assert b == a[j := a[i]][i := a[j]];
    forall t: nat | t < RADIX_BIN ensures count[t] == Tally(ps, b, ps.s, ps.e, t) {
      if i < j {
        TallySwap(ps, a, i, j, t);
      } else {
        TallySwap(ps, a, j, i, t);
      }
    }
  }

  /** Exchanging the element at `h`, which belongs to another bucket, with the one at that bucket's
      cursor puts one more element in place. */
  lemma CycleStep(ps: Pass, a0: seq<int>, a: seq<int>, count: seq<nat>, last: seq<nat>, i: nat, tag: nat)
    requires Permuting(ps, a0, a, count, last) && i < RADIX_BIN && tag < RADIX_BIN && tag != i
    requires last[i] < Begin(count, ps.s, i + 1) && last[i] < |a| && Has(ps, a, last[i], tag)
    ensures
      var h, q := last[i], last[tag];
      && ps.s <= h < ps.e && ps.s <= q < ps.e && q != h
      && Permuting(ps, a0, a[h := a[q]][q := a[h]], count, last[tag := q + 1])
  {
    var h, q := last[i], last[tag];
    BucketInRange(ps, count, i);
    BucketsDisjoint(ps, count, i, tag, h);
    RoomForStray(ps, a0, a, count, last, h, tag);
    BucketsDisjoint(ps, count, tag, i, q);
    var b := a[h := a[q]][q := a[h]];
    HistogramSwap(ps, a, count, h, q);
    SwapPermutes(a, h, q, ps.s, ps.e);
    PermutedTrans(a0, a, b, ps.s, ps.e, ps.s, ps.e);
    PlacedSwap(ps, a, count, last, i, tag);
  }

  lemma PlacedSwap(ps: Pass, a: seq<int>, count: seq<nat>, last: seq<nat>, i: nat, tag: nat)
    requires Cursors(ps, count, last) && Placed(ps, a, count, last) && i < RADIX_BIN && tag < RADIX_BIN && tag != i
    requires last[i] < Begin(count, ps.s, i + 1) && last[i] < |a| && Has(ps, a, last[i], tag)
    requires last[tag] < Begin(count, ps.s, tag + 1) && last[tag] < |a|
    ensures Placed(ps, a[last[i] := a[last[tag]]][last[tag] := a[last[i]]], count, last[tag := last[tag] + 1])
  {
    var h, q := last[i], last[tag];
    var b, last' := a[h := a[q]][q := a[h]], last[tag := q + 1];
    forall t: nat, p: nat | t < RADIX_BIN && p < |b| && Begin(count, ps.s, t) <= p < last'[t] ensures Has(ps, b, p, t) {
      if p == q {
        if t != tag {
          BucketsDisjoint(ps, count, tag, t, q);
        }
      } else if p == h {
        if t != i {
          BucketsDisjoint(ps, count, i, t, h);
        }
      } else {
        assert Has(ps, a, p, t);
      }
    }
  }

  /** An element already in its bucket needs only the cursor to move on. */
  lemma CursorStep(ps: Pass, a0: seq<int>, a: seq<int>, count: seq<nat>, last: seq<nat>, i: nat)
    requires Permuting(ps, a0, a, count, last) && i < RADIX_BIN
    requires last[i] < Begin(count, ps.s, i + 1) && last[i] < |a| && Has(ps, a, last[i], i)
    ensures Permuting(ps, a0, a, count, last[i := last[i] + 1])
  {
    hide Permuted, Histogram;
    var last' := last[i := last[i] + 1];
    assert forall t: nat {:trigger last'[t]} :: t < RADIX_BIN && t != i ==> last'[t] == last[t];
    forall t: nat, p: nat | t < RADIX_BIN && p < |a| && Begin(count, ps.s, t) <= p < last'[t] ensures Has(ps, a, p, t) {
      assert (t == i && p == last[i]) || p < last[t];
    }
  }

  /** When the buckets up to `i` take up the whole range and those before it are full, what is left of
      bucket `i` belongs there, and the later buckets are empty. */
  lemma LastBucket(ps: Pass, a0: seq<int>, a: seq<int>, count: seq<nat>, last: seq<nat>, i: nat)
    requires Permuting(ps, a0, a, count, last) && i < RADIX_BIN && Begin(count, ps.s, i + 1) == ps.e
    requires FullBelow(ps, count, last, i)
    ensures Bucketed(ps, a0, a, count, last[i := ps.e])
  {
    hide Permuted, KthByte, Begin;
    var last' := last[i := ps.e];
    BucketInRange(ps, count, i);
    AllFull(ps, a0, a, count, last, i);
    forall t: nat, p: nat | t < RADIX_BIN && p < |a| && Begin(count, ps.s, t) <= p < last'[t] ensures Has(ps, a, p, t) {
      if t == i && p >= last[i] {
        RestBelongs(ps, a0, a, count, last, i, p);
      }
    }
  }

  lemma AllFull(ps: Pass, a0: seq<int>, a: seq<int>, count: seq<nat>, last: seq<nat>, i: nat)
    requires Permuting(ps, a0, a, count, last) && i < RADIX_BIN && Begin(count, ps.s, i + 1) == ps.e
    requires FullBelow(ps, count, last, i)
    ensures forall t: nat {:trigger last[i := ps.e][t]} :: t < RADIX_BIN ==>
      last[i := ps.e][t] == Begin(count, ps.s, t + 1)
  {
    hide Permuted, Has, Begin;
    var last' := last[i := ps.e];
    forall t: nat | t < RADIX_BIN ensures last'[t] == Begin(count, ps.s, t + 1) {
      if t < i {
        assert Full(ps, count, last, t);
      } else if t > i {
        BeginMonotone(count, ps.s, i + 1, t);
        BucketInRange(ps, count, t);
      }
    }
  }

  lemma ByteAt(ps: Pass, a0: seq<int>, a: seq<int>, count: seq<nat>, last: seq<nat>, p: nat) returns (u: nat)
    requires Permuting(ps, a0, a, count, last) && ps.s <= p < ps.e
    ensures u < RADIX_BIN && Has(ps, a, p, u)
    ensures forall t: nat {:trigger Has(ps, a, p, t)} :: Has(ps, a, p, t) ==> t == u
  {
    u := KthByte(ps.tr, a[p], ps.k);
  }

  /** An element in the rest of the last bucket would have no room anywhere else. */
  lemma RestBelongs(ps: Pass, a0: seq<int>, a: seq<int>, count: seq<nat>, last: seq<nat>, i: nat, p: nat)
    requires Permuting(ps, a0, a, count, last) && i < RADIX_BIN && Begin(count, ps.s, i + 1) == ps.e
    requires FullBelow(ps, count, last, i) && last[i] <= p < ps.e
    ensures Has(ps, a, p, i)
  {
    hide Permuted, Begin, KthByte;
    BucketInRange(ps, count, i);
    var u := ByteAt(ps, a0, a, count, last, p);
    if u != i {
      BucketsDisjoint(ps, count, i, u, p);
      if u < i {
        assert Full(ps, count, last, u);
      } else {
        BeginMonotone(count, ps.s, i + 1, u);
        BucketInRange(ps, count, u);
      }
      RoomForStray(ps, a0, a, count, last, p, u);
      assert false;
    }
  }

  // ----- Termination of the cycles -----

  ghost function Sum(xs: seq<nat>): nat {
    if xs == [] then 0 else Sum(xs[..|xs| - 1]) + xs[|xs| - 1]
  }

  lemma {:induction false} SumBump(xs: seq<nat>, i: nat)
    requires i < |xs|
    ensures Sum(xs[i := xs[i] + 1]) == Sum(xs) + 1
    decreases |xs|
  {
    var ys := xs[i := xs[i] + 1];
    if i == |xs| - 1 {
      assert ys[..|ys| - 1] == xs[..|xs| - 1];
    } else {
      assert ys[..|ys| - 1] == xs[..|xs| - 1][i := xs[i] + 1];
      SumBump(xs[..|xs| - 1], i);
    }
  }

  lemma {:induction false} SumBound(xs: seq<nat>, m: nat)
    requires forall i :: 0 <= i < |xs| ==> xs[i] <= m
    ensures Sum(xs) <= |xs| * m
    decreases |xs|
  {
    if xs != [] {
      SumBound(xs[..|xs| - 1], m);
      assert |xs| * m == (|xs| - 1) * m + m;
    }
  }

  /** How many swaps may still come: what all cursors together have left to go, and more. */
  ghost function Budget(ps: Pass, last: seq<nat>): int {
    RADIX_BIN * ps.e - Sum(last)
  }

  lemma BudgetNatural(ps: Pass, a0: seq<int>, a: seq<int>, count: seq<nat>, last: seq<nat>)
    requires Permuting(ps, a0, a, count, last)
    ensures Budget(ps, last) >= 0
  {
    forall t | 0 <= t < RADIX_BIN ensures last[t] <= ps.e {
      BucketInRange(ps, count, t);
    }
    SumBound(last, ps.e);
  }

  // ----- The sort -----

  /** The cursors start at their buckets. */
  method Cursor(ps: Pass, count: array<nat>) returns (last: array<nat>)
    requires count.Length == RADIX_BIN
    ensures fresh(last) && last.Length == RADIX_BIN
    ensures forall t: nat :: t < RADIX_BIN ==> last[t] == Begin(count[..], ps.s, t)
  {
    last := new nat[RADIX_BIN](_ => 0);
    last[0] := ps.s;
    ghost var cs := count[..];
    var i := 1;
    while i < RADIX_BIN
      invariant 1 <= i <= RADIX_BIN && count[..] == cs
      invariant forall t: nat {:trigger last[t]} :: t < i ==> last[t] == Begin(cs, ps.s, t)
    {
      assert last[i - 1] == Begin(cs, ps.s, i - 1);
      last[i] := last[i - 1] + count[i - 1];
      i := i + 1;
    }
  }

  /** One round of `while (last[i] != end)`: the element at the cursor of bucket `i` starts a cycle of
      swaps that ends with an element of bucket `i`. */
  method PlaceNext(a: array<int>, last: array<nat>, ps: Pass, i: nat, ghost a0: seq<int>, ghost count: seq<nat>)
    requires last.Length == RADIX_BIN && i < RADIX_BIN
    requires Permuting(ps, a0, a[..], count, last[..]) && last[i] < Begin(count, ps.s, i + 1)
    modifies a, last
    ensures Permuting(ps, a0, a[..], count, last[..])
    ensures last[i] == old(last[i]) + 1 && Budget(ps, last[..]) < Budget(ps, old(last[..]))
    ensures forall t: nat {:trigger last[t]} :: t < RADIX_BIN ==> old(last[t]) <= last[t]
  {
    hide Permuted, Histogram, Cursors, Placed, Permuting, Sum;
    CursorReadable(ps, a0, a[..], count, last[..], i);
    var swapper := a[last[i]];
    var tag: nat := KthByte(ps.tr, swapper, ps.k);
    if tag != i {
      ghost var h := last[i];
      ghost var filled := a[..];
      while tag != i
        invariant h == last[i] < a.Length && i < RADIX_BIN && tag < RADIX_BIN
        invariant |filled| == a.Length && filled[h] == swapper && filled == a[..][h := swapper]
        invariant Permuting(ps, a0, filled, count, last[..])
        invariant Has(ps, filled, h, tag)
        invariant Budget(ps, last[..]) <= Budget(ps, old(last[..]))
        invariant forall t: nat {:trigger last[t]} :: t < RADIX_BIN ==> old(last[t]) <= last[t]
        decreases Budget(ps, last[..])
      {
        CycleStep(ps, a0, filled, count, last[..], i, tag);
        BudgetNatural(ps, a0, filled, count, last[..]);
        SumBump(last[..], tag);
        ghost var was := last[..];
        var q := last[tag];
        filled := filled[h := filled[q]][q := filled[h]];
        a[q], swapper := swapper, a[q];
        last[tag] := q + 1;
        assert last[..] == was[tag := was[tag] + 1];
        CursorReadable(ps, a0, filled, count, last[..], i);
        tag := KthByte(ps.tr, swapper, ps.k);
      }
      a[last[i]] := swapper;
      assert a[..] == filled;
    }
    CursorStep(ps, a0, a[..], count, last[..], i);
    SumBump(last[..], i);
    ghost var was := last[..];
    last[i] := last[i] + 1;
    assert last[..] == was[i := was[i] + 1];
  }

  lemma CursorReadable(ps: Pass, a0: seq<int>, a: seq<int>, count: seq<nat>, last: seq<nat>, i: nat)
    requires Permuting(ps, a0, a, count, last) && i < RADIX_BIN && last[i] < Begin(count, ps.s, i + 1)
    ensures ps.s <= last[i] < ps.e <= |a| && InRange(ps.tr, a[last[i]])
    ensures Has(ps, a, last[i], KthByte(ps.tr, a[last[i]], ps.k))
  {
    BucketInRange(ps, count, i);
  }

  /** Every element is in the bucket of its byte, and every cursor at its bucket's end. */
  ghost predicate Bucketed(ps: Pass, a0: seq<int>, a: seq<int>, count: seq<nat>, last: seq<nat>) {
    Permuting(ps, a0, a, count, last) && FullBelow(ps, count, last, RADIX_BIN)
  }

  /** Runs the cursor of bucket `i` to the bucket's end. */
  method FillBucket(a: array<int>, last: array<nat>, ps: Pass, i: nat, end: nat, ghost a0: seq<int>, ghost cs: seq<nat>)
    requires last.Length == RADIX_BIN && i < RADIX_BIN == |cs| && end == Begin(cs, ps.s, i + 1)
    requires Permuting(ps, a0, a[..], cs, last[..])
    requires FullBelow(ps, cs, last[..], i)
    modifies a, last
    ensures Permuting(ps, a0, a[..], cs, last[..])
    ensures FullBelow(ps, cs, last[..], i + 1)
  {
    hide Permuted, Histogram, Cursors, Placed, Permuting, Budget, FullBelow, Has, Begin;
    ghost var before := last[..];
    CursorsWithin(ps, a0, a[..], cs, last[..]);
    while last[i] != end
      invariant Permuting(ps, a0, a[..], cs, last[..])
      invariant forall t: nat {:trigger last[t]} :: t < RADIX_BIN ==> before[t] <= last[t] <= Begin(cs, ps.s, t + 1)
      decreases Budget(ps, last[..])
    {
      BudgetNatural(ps, a0, a[..], cs, last[..]);
      PlaceNext(a, last, ps, i, a0, cs);
      CursorsWithin(ps, a0, a[..], cs, last[..]);
    }
    FullNext(ps, cs, before, last[..], i);
  }

  ghost predicate FullBelow(ps: Pass, count: seq<nat>, last: seq<nat>, i: nat)
    requires |count| == |last| == RADIX_BIN
  {
    forall t: nat {:trigger Full(ps, count, last, t)} :: t < i && t < RADIX_BIN ==> Full(ps, count, last, t)
  }

  lemma FullNext(ps: Pass, count: seq<nat>, before: seq<nat>, last: seq<nat>, i: nat)
    requires |count| == |last| == |before| == RADIX_BIN && i < RADIX_BIN
    requires FullBelow(ps, count, before, i) && last[i] == Begin(count, ps.s, i + 1)
    requires forall t: nat {:trigger last[t]} :: t < RADIX_BIN ==> before[t] <= last[t] <= Begin(count, ps.s, t + 1)
    ensures FullBelow(ps, count, last, i + 1)
  {
    forall t: nat | t < i + 1 ensures Full(ps, count, last, t) {
      assert t < i ==> Full(ps, count, before, t);
    }
  }

  /** The loop over the buckets that places every element. */
  method Permute(a: array<int>, count: array<nat>, last: array<nat>, ps: Pass)
    requires count.Length == RADIX_BIN && last.Length == RADIX_BIN && count != last
    requires Histogram(ps, a[..], count[..])
    requires forall t: nat :: t < RADIX_BIN ==> last[t] == Begin(count[..], ps.s, t)
    modifies a, last
    ensures count[..] == old(count[..])
    ensures Bucketed(ps, old(a[..]), a[..], count[..], last[..])
  {
    ghost var a0, cs := a[..], count[..];
    NothingPlaced(ps, a0, cs, last[..]);
    hide Permuted, Histogram, Cursors, Placed, Permuting, FullBelow, Begin;
    var i := 0;
    while i < RADIX_BIN
      invariant 0 <= i <= RADIX_BIN && count[..] == cs
      invariant Permuting(ps, a0, a[..], cs, last[..])
      invariant FullBelow(ps, cs, last[..], i)
    {
      BucketEnd(ps, a0, a[..], cs, last[..], i);
      var end := (if i == 0 then ps.s else last[i - 1]) + count[i];
      if end == ps.e {
        LastBucket(ps, a0, a[..], cs, last[..], i);
        ghost var before := last[..];
        last[i] := ps.e;
        assert last[..] == before[i := ps.e];
        return;
      }
      FillBucket(a, last, ps, i, end, a0, cs);
      i := i + 1;
    }
  }

  lemma BucketEnd(ps: Pass, a0: seq<int>, a: seq<int>, count: seq<nat>, last: seq<nat>, i: nat)
    requires Permuting(ps, a0, a, count, last) && i < RADIX_BIN && FullBelow(ps, count, last, i)
    ensures (if i == 0 then ps.s else last[i - 1]) + count[i] == Begin(count, ps.s, i + 1)
  {
    assert i > 0 ==> Full(ps, count, last, i - 1);
  }

  lemma NothingPlaced(ps: Pass, a: seq<int>, count: seq<nat>, last: seq<nat>)
    requires Histogram(ps, a, count) && |last| == RADIX_BIN
    requires forall t: nat :: t < RADIX_BIN ==> last[t] == Begin(count, ps.s, t)
    ensures Permuting(ps, a, a, count, last) && FullBelow(ps, count, last, 0)
  {
  }

  lemma CursorsWithin(ps: Pass, a0: seq<int>, a: seq<int>, count: seq<nat>, last: seq<nat>)
    requires Permuting(ps, a0, a, count, last)
    ensures |count| == |last| == RADIX_BIN
    ensures forall t: nat {:trigger last[t]} :: t < RADIX_BIN ==> last[t] <= Begin(count, ps.s, t + 1)
  {
  }

  // ----- Recursion -----

  /** All elements of the range from `lo` to `hi` are in the type and agree on the bytes from `k` up. */
  ghost predicate Agree(tr: Traits, a: seq<int>, lo: nat, hi: nat, k: nat, prefix: int) {
    lo <= hi <= |a| && forall p :: lo <= p < hi ==> InRange(tr, a[p]) && Prefix(tr, a[p], k) == prefix
  }

  lemma AgreePermuted(tr: Traits, a: seq<int>, b: seq<int>, s: nat, e: nat, k: nat, prefix: int)
    requires Permuted(a, b, s, e) && Agree(tr, a, s, e, k, prefix)
    ensures Agree(tr, b, s, e, k, prefix)
  {
    forall p | s <= p < e ensures InRange(tr, b[p]) && Prefix(tr, b[p], k) == prefix {
      var q := PermutedMember(a, b, s, e, p);
    }
  }

  /** Sorting a part leaves the elements outside it where they are. */
  lemma OutsideKept(a: seq<int>, b: seq<int>, s: nat, e: nat, p: nat)
    requires Permuted(a, b, s, e) && p < |a| && (p < s || p >= e)
    ensures a[p] == b[p]
  {
    if p < s {
      assert a[..s][p] == b[..s][p];
    } else {
      assert a[e..][p - e] == b[e..][p - e];
    }
  }

  /** The buckets before `i` are sorted and hold smaller prefixes; those from `i` on agree, each on its
      own prefix. */
  ghost predicate Ordered(ps: Pass, a: seq<int>, count: seq<nat>, prefix: int, i: nat) {
    && i <= RADIX_BIN == |count| && ps.s <= ps.e <= |a|
    && Begin(count, ps.s, RADIX_BIN) == ps.e && ps.s <= Begin(count, ps.s, i) <= ps.e
    && SortedBetween(a, ps.s, Begin(count, ps.s, i))
    && Below(ps.tr, a, ps.s, Begin(count, ps.s, i), ps.k, prefix * RADIX_BIN + i)
    && (forall t: nat {:trigger Begin(count, ps.s, t)} :: i <= t < RADIX_BIN ==>
          Agree(ps.tr, a, Begin(count, ps.s, t), Begin(count, ps.s, t + 1), ps.k, prefix * RADIX_BIN + t))
  }

  lemma BucketAgrees(ps: Pass, a0: seq<int>, a: seq<int>, count: seq<nat>, last: seq<nat>, prefix: int, t: nat)
    requires Bucketed(ps, a0, a, count, last) && Agree(ps.tr, a, ps.s, ps.e, ps.k + 1, prefix) && t < RADIX_BIN
    ensures Agree(ps.tr, a, Begin(count, ps.s, t), Begin(count, ps.s, t + 1), ps.k, prefix * RADIX_BIN + t)
  {
    hide Bucketed, Begin, Prefix, KthByte;
    BucketHas(ps, a0, a, count, last, t);
    forall p: nat | Begin(count, ps.s, t) <= p < Begin(count, ps.s, t + 1)
      ensures InRange(ps.tr, a[p]) && Prefix(ps.tr, a[p], ps.k) == prefix * RADIX_BIN + t
    {
      PrefixStep(ps.tr, a[p], ps.k);
    }
  }

  lemma BucketHas(ps: Pass, a0: seq<int>, a: seq<int>, count: seq<nat>, last: seq<nat>, t: nat)
    requires Bucketed(ps, a0, a, count, last) && t < RADIX_BIN
    ensures |count| == RADIX_BIN && ps.s <= Begin(count, ps.s, t) <= Begin(count, ps.s, t + 1) <= ps.e
    ensures forall p: nat {:trigger a[p]} :: Begin(count, ps.s, t) <= p < Begin(count, ps.s, t + 1) ==>
      p < |a| && InRange(ps.tr, a[p]) && KthByte(ps.tr, a[p], ps.k) == t
  {
    hide Permuted, Begin;
    PermutedLength(a0, a, ps.s, ps.e);
    BucketInRange(ps, count, t);
    assert Full(ps, count, last, t);
    forall p: nat | Begin(count, ps.s, t) <= p < Begin(count, ps.s, t + 1)
      ensures InRange(ps.tr, a[p]) && KthByte(ps.tr, a[p], ps.k) == t
    {
      assert Has(ps, a, p, t);
    }
  }

  lemma BucketedIsOrdered(ps: Pass, a0: seq<int>, a: seq<int>, count: seq<nat>, last: seq<nat>, prefix: int)
    requires Bucketed(ps, a0, a, count, last) && Agree(ps.tr, a, ps.s, ps.e, ps.k + 1, prefix)
    ensures Ordered(ps, a, count, prefix, 0)
  {
    hide Permuted, Placed, Cursors, FullBelow;
    forall t: nat | t < RADIX_BIN
      ensures Agree(ps.tr, a, Begin(count, ps.s, t), Begin(count, ps.s, t + 1), ps.k, prefix * RADIX_BIN + t)
    {
      BucketAgrees(ps, a0, a, count, last, prefix, t);
    }
  }

  /** The elements between `s` and `e` have prefixes below `limit`. */
  ghost predicate Below(tr: Traits, a: seq<int>, s: nat, e: nat, k: nat, limit: int) {
    e <= |a| && forall p: nat :: s <= p < e ==> InRange(tr, a[p]) && Prefix(tr, a[p], k) < limit
  }

  lemma BelowNext(tr: Traits, a: seq<int>, b: seq<int>, s: nat, lo: nat, hi: nat, k: nat, limit: int)
    requires s <= lo && Permuted(a, b, lo, hi) && Below(tr, a, s, lo, k, limit) && Agree(tr, b, lo, hi, k, limit)
    ensures Below(tr, b, s, hi, k, limit + 1)
  {
    hide Permuted, Prefix;
    forall p: nat | s <= p < hi ensures InRange(tr, b[p]) && Prefix(tr, b[p], k) < limit + 1 {
      if p < lo {
        OutsideKept(a, b, lo, hi, p);
      }
    }
  }

  lemma SortedNext(tr: Traits, a: seq<int>, b: seq<int>, s: nat, lo: nat, hi: nat, k: nat, limit: int)
    requires s <= lo && Permuted(a, b, lo, hi) && Below(tr, a, s, lo, k, limit) && Agree(tr, b, lo, hi, k, limit)
    requires SortedBetween(a, s, lo) && SortedBetween(b, lo, hi)
    ensures SortedBetween(b, s, hi)
  {
    hide Permuted, Prefix;
    forall p, q | s <= p < q < hi ensures b[p] <= b[q] {
      if p < lo {
        OutsideKept(a, b, lo, hi, p);
        if q < lo {
          OutsideKept(a, b, lo, hi, q);
        } else {
          PrefixOrders(tr, b[p], b[q], k);
        }
      }
    }
  }

  lemma AgreeOutside(tr: Traits, a: seq<int>, b: seq<int>, lo: nat, hi: nat, from: nat, to: nat, k: nat, prefix: int)
    requires Permuted(a, b, lo, hi) && hi <= from && Agree(tr, a, from, to, k, prefix)
    ensures Agree(tr, b, from, to, k, prefix)
  {
    assert |a| == |b|;
    hide Permuted, Prefix;
    forall p: nat | from <= p < to ensures InRange(tr, b[p]) && Prefix(tr, b[p], k) == prefix {
      OutsideKept(a, b, lo, hi, p);
    }
  }

  /** Sorting bucket `i` in place extends the sorted part by it. */
  lemma OrderedNext(ps: Pass, a: seq<int>, b: seq<int>, count: seq<nat>, prefix: int, i: nat)
    requires Ordered(ps, a, count, prefix, i) && i < RADIX_BIN
    requires Permuted(a, b, Begin(count, ps.s, i), Begin(count, ps.s, i + 1))
    requires SortedBetween(b, Begin(count, ps.s, i), Begin(count, ps.s, i + 1))
    ensures Ordered(ps, b, count, prefix, i + 1)
  {
    hide Below, Agree, SortedBetween, Begin, Permuted;
    var lo, hi := Begin(count, ps.s, i), Begin(count, ps.s, i + 1);
    var c := prefix * RADIX_BIN + i;
    BucketInRange(ps, count, i);
    PermutedLength(a, b, lo, hi);
    AgreePermuted(ps.tr, a, b, lo, hi, ps.k, c);
    BelowNext(ps.tr, a, b, ps.s, lo, hi, ps.k, c);
    SortedNext(ps.tr, a, b, ps.s, lo, hi, ps.k, c);
    forall t: nat | i + 1 <= t < RADIX_BIN
      ensures Agree(ps.tr, b, Begin(count, ps.s, t), Begin(count, ps.s, t + 1), ps.k, prefix * RADIX_BIN + t)
    {
      BeginMonotone(count, ps.s, i + 1, t);
      AgreeOutside(ps.tr, a, b, lo, hi, Begin(count, ps.s, t), Begin(count, ps.s, t + 1), ps.k, prefix * RADIX_BIN + t);
    }
  }

  /** Elements that agree on all bytes are equal. */
  lemma AgreeOnAllSorted(tr: Traits, a: seq<int>, lo: nat, hi: nat, prefix: int)
    requires Agree(tr, a, lo, hi, 0, prefix)
    ensures SortedBetween(a, lo, hi)
  {
    forall p, q | lo <= p < q < hi ensures a[p] <= a[q] {
      PrefixOfAll(tr, a[p]);
      PrefixOfAll(tr, a[q]);
    }
  }

  /** The first two thirds of `radix_sort_core_`: the elements go into their buckets, and `last` holds
      where each bucket ends. */
  method Distribute(a: array<int>, ps: Pass, ghost prefix: int) returns (count: array<nat>, last: array<nat>)
    requires Agree(ps.tr, a[..], ps.s, ps.e, ps.k + 1, prefix)
    modifies a
    ensures fresh(count) && fresh(last) && count != last && count.Length == last.Length == RADIX_BIN
    ensures Permuted(old(a[..]), a[..], ps.s, ps.e) && Ordered(ps, a[..], count[..], prefix, 0)
    ensures forall t: nat {:trigger last[t]} :: t < RADIX_BIN ==> last[t] == Begin(count[..], ps.s, t + 1)
  {
    ghost var a0 := a[..];
    count := CountBytes(a, ps);
    HistogramLength(ps, a0, count[..]);
    last := Cursor(ps, count);
    hide *;
    Permute(a, count, last, ps);
    LastIsBegin(ps, a0, a[..], count[..], last[..]);
    AgreePermuted(ps.tr, a0, a[..], ps.s, ps.e, ps.k + 1, prefix);
    BucketedIsOrdered(ps, a0, a[..], count[..], last[..], prefix);
  }

  lemma HistogramLength(ps: Pass, a: seq<int>, count: seq<nat>)
    requires Histogram(ps, a, count)
    ensures |count| == RADIX_BIN
  {
  }

  /** `radix_sort_core_`: the elements agree on the bytes above the `k`-th. */
  method RadixSortCore(a: array<int>, s: nat, e: nat, tr: Traits, k: nat, ghost prefix: int)
    requires Agree(tr, a[..], s, e, k + 1, prefix)
    modifies a
    ensures SortedBetween(a[..], s, e) && Permuted(old(a[..]), a[..], s, e)
    decreases k, 0
  {
    var ps := Pass(tr, k, s, e);
    var count, last := Distribute(a, ps, prefix);
    hide *;
    if k > 0 {
      SortBuckets(a, ps, count, last, old(a[..]), prefix);
    } else {
      LastByteSorts(ps, a[..], count[..], prefix, 0);
    }
  }

  /** The last third of `radix_sort_core_`: every bucket is sorted by its next byte. */
  method SortBuckets(a: array<int>, ps: Pass, count: array<nat>, last: array<nat>, ghost a0: seq<int>,
      ghost prefix: int)
    requires ps.k > 0 && count.Length == last.Length == RADIX_BIN
    requires Permuted(a0, a[..], ps.s, ps.e) && Ordered(ps, a[..], count[..], prefix, 0)
    requires forall t: nat {:trigger last[t]} :: t < RADIX_BIN ==> last[t] == Begin(count[..], ps.s, t + 1)
    requires a as object != count && a as object != last
    modifies a
    ensures ps.e <= a.Length && SortedBetween(a[..], ps.s, ps.e) && Permuted(a0, a[..], ps.s, ps.e)
    decreases ps.k - 1, 2
  {
    hide *;
    ghost var cs := count[..];
    var i := 0;
    while i < RADIX_BIN
      invariant 0 <= i <= RADIX_BIN
      invariant Ordered(ps, a[..], cs, prefix, i) && Permuted(a0, a[..], ps.s, ps.e)
    {
      BucketBounds(ps, a[..], cs, prefix, i);
      var lo, hi := if i == 0 then ps.s else last[i - 1], last[i];
      SortBucket(a, lo, hi, ps, i, count[i], a0, cs, prefix);
      i := i + 1;
    }
    OrderedAll(ps, a[..], cs, prefix);
  }

  /** The body of the loop over the buckets. */
  method SortBucket(a: array<int>, lo: nat, hi: nat, ps: Pass, i: nat, count: nat, ghost a0: seq<int>,
                    ghost cs: seq<nat>, ghost prefix: int)
    requires ps.k > 0 && i < RADIX_BIN == |cs| && lo == Begin(cs, ps.s, i) && hi == Begin(cs, ps.s, i + 1)
    requires ps.s <= lo <= hi <= ps.e && count == hi - lo
    requires Ordered(ps, a[..], cs, prefix, i) && Permuted(a0, a[..], ps.s, ps.e)
    modifies a
    ensures Ordered(ps, a[..], cs, prefix, i + 1) && Permuted(a0, a[..], ps.s, ps.e)
    decreases ps.k - 1, 1
  {
    ghost var was := a[..];
    BucketBounds(ps, was, cs, prefix, i);
    hide *;
    if count > INSERT_SORT_THRESHOLD {
      RadixSortCore(a, lo, hi, ps.tr, ps.k - 1, prefix * RADIX_BIN + i);
    } else if count > 1 {
      InsertSort(a, lo, hi);
    } else {
      NothingToSort(was, lo, hi);
    }
    OrderedNext(ps, was, a[..], cs, prefix, i);
    PermutedTrans(a0, was, a[..], ps.s, ps.e, lo, hi);
  }

  lemma BucketBounds(ps: Pass, a: seq<int>, count: seq<nat>, prefix: int, i: nat)
    requires Ordered(ps, a, count, prefix, i) && i < RADIX_BIN
    ensures |count| == RADIX_BIN && ps.s <= Begin(count, ps.s, i) <= Begin(count, ps.s, i + 1) <= ps.e <= |a|
    ensures i == 0 ==> Begin(count, ps.s, i) == ps.s
    ensures Begin(count, ps.s, i + 1) == Begin(count, ps.s, i) + count[i]
    ensures Agree(ps.tr, a, Begin(count, ps.s, i), Begin(count, ps.s, i + 1), ps.k, prefix * RADIX_BIN + i)
  {
    BucketInRange(ps, count, i);
  }

  /** On the last byte the elements of a bucket are equal, so the buckets are all there is to sort. */
  lemma {:induction false} LastByteSorts(ps: Pass, a: seq<int>, count: seq<nat>, prefix: int, i: nat)
    requires ps.k == 0 && Ordered(ps, a, count, prefix, i)
    ensures ps.e <= |a| && SortedBetween(a, ps.s, ps.e)
    decreases RADIX_BIN - i
  {
    if i == RADIX_BIN {
      OrderedAll(ps, a, count, prefix);
    } else {
      hide *;
      BucketBounds(ps, a, count, prefix, i);
      var lo, hi := Begin(count, ps.s, i), Begin(count, ps.s, i + 1);
      AgreeOnAllSorted(ps.tr, a, lo, hi, prefix * RADIX_BIN + i);
      PermutedSelf(a, lo, hi);
      OrderedNext(ps, a, a, count, prefix, i);
      LastByteSorts(ps, a, count, prefix, i + 1);
    }
  }

  lemma PermutedSelf(a: seq<int>, s: nat, e: nat)
    requires s <= e <= |a|
    ensures Permuted(a, a, s, e)
  {
  }

  lemma OrderedAll(ps: Pass, a: seq<int>, count: seq<nat>, prefix: int)
    requires Ordered(ps, a, count, prefix, RADIX_BIN)
    ensures ps.s <= ps.e <= |a| && SortedBetween(a, ps.s, ps.e)
  {
  }

  lemma LastIsBegin(ps: Pass, a0: seq<int>, a: seq<int>, count: seq<nat>, last: seq<nat>)
    requires Bucketed(ps, a0, a, count, last)
    ensures |count| == |last| == RADIX_BIN && Permuted(a0, a, ps.s, ps.e) && Begin(count, ps.s, RADIX_BIN) == ps.e
    ensures forall t: nat {:trigger last[t]} :: t < RADIX_BIN ==> last[t] == Begin(count, ps.s, t + 1)
  {
    forall t: nat | t < RADIX_BIN ensures last[t] == Begin(count, ps.s, t + 1) {
      assert Full(ps, count, last, t);
    }
  }

  /** A bucket with at most one element is left alone. */
  lemma NothingToSort(a: seq<int>, lo: nat, hi: nat)
    requires lo <= hi <= |a| && hi - lo <= 1
    ensures SortedBetween(a, lo, hi) && Permuted(a, a, lo, hi)
  {
  }

  /** `radix_sort_entry_`: sorts the range, short ones by insertion. */
  method Sort(a: array<int>, s: nat, e: nat, tr: Traits)
    requires s <= e <= a.Length && tr.bytes > 0
    requires forall p :: s <= p < e ==> InRange(tr, a[p])
    modifies a
    ensures forall i, j :: s <= i < j < e ==> a[i] <= a[j]
    ensures multiset(a[s..e]) == multiset(old(a[s..e]))
    ensures a[..s] == old(a[..s]) && a[e..] == old(a[e..])
  {
    ghost var a0 := a[..];
    if e - s <= INSERT_SORT_THRESHOLD {
      InsertSort(a, s, e);
    } else {
      forall p | s <= p < e ensures Prefix(tr, a[p], tr.bytes) == 0 {
        PrefixOfAll(tr, a[p]);
      }
      RadixSortCore(a, s, e, tr, tr.bytes - 1, 0);
    }
    PermutedRange(a0, a[..], s, e);
    assert a[s..e] == a[..][s..e] && a0[s..e] == old(a[s..e]);
    assert a[..s] == a[..][..s] && a[e..] == a[..][e..];
    assert forall i, j :: s <= i < j < e ==> a[..][i] <= a[..][j];
  }
}
