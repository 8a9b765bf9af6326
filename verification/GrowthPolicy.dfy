/** The power-of-two growth policy: a mask picks the bucket, bucket counts are powers of two, and
    growing multiplies by a fixed power of two until the largest one an index can hold. */
module GrowthPolicy {
  import opened Arith
  import opened Bits
  import HopscotchLayout
  import opened Options

  const WORD_BITS: nat := 64
  const MAX_BUCKET_COUNT: nat := Pow2(63)

  /** `is_power_of_two` */
  predicate IsPowerOfTwo(v: nat) {
    v != 0 && And(v, v - 1) == 0
  }

  lemma {:induction false} TestFindsPower(v: nat) returns (k: nat)
    requires IsPowerOfTwo(v)
    ensures v == Pow2(k)
    decreases v
  {
    if v == 1 {
      k := 0;
    } else if v % 2 == 0 {
      assert (v - 1) / 2 == v / 2 - 1;
      k := TestFindsPower(v / 2);
      k := k + 1;
    } else {
      assert (v - 1) / 2 == v / 2 > 0;
      AndSelf(v / 2);
      assert false;
    }
  }

  lemma {:induction false} PowerPassesTest(k: nat)
    ensures IsPowerOfTwo(Pow2(k))
    decreases k
  {
    if k > 0 {
      PowerPassesTest(k - 1);
      assert Pow2(k) / 2 == Pow2(k - 1) && (Pow2(k) - 1) / 2 == Pow2(k - 1) - 1;
    }
  }

  /** The test finds exactly the powers of two. */
  lemma PowerTest(v: nat)
    ensures IsPowerOfTwo(v) <==> exists k: nat :: v == Pow2(k)
  {
    if IsPowerOfTwo(v) {
      var k := TestFindsPower(v);
    }
    if k: nat :| v == Pow2(k) {
      PowerPassesTest(k);
    }
  }

  lemma {:induction false} AndSelf(x: nat)
    ensures And(x, x) == x
    decreases x
  {
    if x > 0 {
      AndSelf(x / 2);
    }
  }

  lemma {:induction false} AndBound(x: nat, y: nat)
    ensures And(x, y) <= y
    decreases y
  {
    if x != 0 && y != 0 {
      AndBound(x / 2, y / 2);
    }
  }

  lemma {:induction false} Pow2Sum(a: nat, b: nat)
    ensures Pow2(a) * Pow2(b) == Pow2(a + b)
    decreases a
  {
    if a > 0 {
      Pow2Sum(a - 1, b);
      assert Pow2(a) * Pow2(b) == 2 * (Pow2(a - 1) * Pow2(b));
    }
  }

  // ----- Rounding up -----

  /** The least power of two from `p` on that is at least `n`. */
  function CeilFrom(p: nat, n: nat): nat
    requires p > 0
    decreases if p < n then n - p else 0
  {
    if p >= n then p else CeilFrom(2 * p, n)
  }

  function Ceil(n: nat): nat {
    CeilFrom(1, n)
  }

  lemma {:induction false} CeilFromIs(j: nat, k: nat, n: nat)
    requires j <= k && n <= Pow2(k) && (j < k ==> Pow2(k - 1) < n)
    ensures CeilFrom(Pow2(j), n) == Pow2(k)
    decreases k - j
  {
    if j < k {
      if j < k - 1 {
        Pow2Increasing(j, k - 1);
      }
      CeilFromIs(j + 1, k, n);
    }
  }

  lemma {:induction false} ShrOnes(a: nat, b: nat)
    requires b <= a
    ensures Shr(Pow2(a) - 1, b) == Pow2(a - b) - 1
    decreases b
  {
    if b > 0 {
      assert (Pow2(a) - 1) / 2 == Pow2(a - 1) - 1;
      ShrOnes(a - 1, b - 1);
    }
  }

  /** The top `c` of the `top` low bits of `v` are ones, and there is nothing above. */
  ghost predicate TopOnes(v: nat, top: nat, c: nat) {
    c <= top && Shr(v, top - c) == Pow2(c) - 1 && Shr(v, top) == 0
  }

  /** A run of `i` ones at the top, or-ed with itself `i` places down, is a run of `i + q`. */
  lemma SmearRun(v: nat, top: nat, i: nat, q: nat)
    requires q <= i && i + q <= top && Shr(v, top - i) == Pow2(i) - 1
    ensures Shr(Or(v, Shr(v, i)), top - i - q) == Pow2(i + q) - 1
  {
    hide Shr, Or, Pow2;
    var m := top - i - q;
    OrShift(v, Shr(v, i), m);
    ShrTwice(v, i, m);
    ShrTwice(v, top - i, i - q);
    ShrOnes(i, i - q);
    assert Shr(Shr(v, i), m) == Pow2(q) - 1;
    ShrTwice(v, m, q);
    OrOnes(Shr(v, m), q);
    Pow2Sum(i, q);
    Minus(Pow2(i), Pow2(q));
  }

  lemma Minus(a: int, b: int)
    ensures (a - 1) * b == a * b - b
  {
  }

  lemma SmearAbove(v: nat, top: nat, i: nat)
    requires Shr(v, top) == 0
    ensures Shr(Or(v, Shr(v, i)), top) == 0
    ensures top <= i ==> Or(v, Shr(v, i)) == v
  {
    OrShift(v, Shr(v, i), top);
    ShrTwice(v, i, top);
    ShrTwice(v, top, i);
    ShrOfZero(i);
    if top <= i {
      ShrTwice(v, top, i - top);
      ShrOfZero(i - top);
      OrZero(v);
    }
  }

  /** Or-ing in a shifted copy doubles the run of ones at the top. */
  lemma SmearStep(v: nat, top: nat, i: nat)
    requires TopOnes(v, top, Min(i, top))
    ensures TopOnes(Or(v, Shr(v, i)), top, Min(2 * i, top))
  {
    hide Shr, Or, Pow2;
    SmearAbove(v, top, i);
    if i < top {
      SmearRun(v, top, i, Min(2 * i, top) - i);
    }
  }

  lemma {:induction false} TopBit(x: nat, n: nat) returns (p: nat)
    requires 0 < x < Pow2(n)
    ensures p < n && Pow2(p) <= x < Pow2(p + 1)
    decreases n
  {
    if n > 0 {
      if Pow2(n - 1) <= x {
        p := n - 1;
      } else {
        p := TopBit(x, n - 1);
      }
    }
  }

  lemma CeilOfPower(value: nat, k: nat)
    requires value == Pow2(k)
    ensures Ceil(value) == value
  {
    if k > 0 {
      Pow2Increasing(k - 1, k);
    }
    CeilFromIs(0, k, value);
  }

  /** A number starts as a run of one at its top bit. */
  lemma SmearStart(v: nat) returns (p: nat)
    requires 0 < v < Pow2(63)
    ensures p < 63 && Pow2(p) <= v < Pow2(p + 1) && TopOnes(v, p + 1, 1)
  {
    p := TopBit(v, 63);
    ShrIsDiv(v, p);
    ShrIsDiv(v, p + 1);
    DivModUnique(v, 1, v - Pow2(p), Pow2(p));
    DivModSmall(v, Pow2(p + 1));
  }

  lemma SmearEnd(value: nat, v: nat, p: nat)
    requires value > 0 && Pow2(p) <= value - 1 < Pow2(p + 1) && TopOnes(v, p + 1, p + 1)
    ensures v + 1 == Ceil(value)
  {
    CeilFromIs(0, p + 1, value);
  }

  /** `round_up_to_power_of_two`, with its smearing loop. */
  method RoundUpToPowerOfTwo(value: nat) returns (r: nat)
    requires value <= MAX_BUCKET_COUNT
    ensures r == Ceil(value)
  {
    hide Or, Shr, Ceil, CeilFrom, TopOnes, IsPowerOfTwo;
    PowerTest(value);
    if IsPowerOfTwo(value) {
      ghost var k: nat :| value == Pow2(k);
      CeilOfPower(value, k);
      return value;
    }
    if value == 0 {
      CeilOfZero();
      return 1;
    }
    var v: nat := value - 1;
    OneIsPower();
    ghost var p := SmearStart(v);
    hide Pow2;
    var i: nat := 1;
    while i < WORD_BITS
      invariant i in {1, 2, 4, 8, 16, 32, 64}
      invariant TopOnes(v, p + 1, Min(i, p + 1))
    {
      SmearStep(v, p + 1, i);
      v := Or(v, Shr(v, i));
      i := i * 2;
    }
    SmearEnd(value, v, p);
    r := v + 1;
  }

  lemma OneIsPower()
    ensures IsPowerOfTwo(1)
  {
  }

  lemma CeilOfZero()
    ensures Ceil(0) == 1
  {
  }

  lemma CeilIsLeastPower(n: nat) returns (k: nat)
    ensures Ceil(n) == Pow2(k) && n <= Pow2(k) && (k > 0 ==> Pow2(k - 1) < n)
  {
    if n <= 1 {
      k := 0;
      CeilFromIs(0, 0, n);
    } else {
      NBelowPow2(n);
      var p := TopBit(n - 1, n);
      k := p + 1;
      CeilFromIs(0, k, n);
    }
  }

  lemma {:induction false} NBelowPow2(n: nat)
    ensures n < Pow2(n)
    decreases n
  {
    if n > 0 {
      NBelowPow2(n - 1);
    }
  }

  // ----- The policy -----

  class PowerOfTwoPolicy {
    const growthFactor: nat
    var mask: nat

    ghost predicate Valid()
      reads this
    {
      growthFactor >= 2 && exists k: nat :: mask + 1 == Pow2(k) && mask < MAX_BUCKET_COUNT
    }

    /** Rounds the requested count, unless it is 0, and takes its mask. The original throws when the
        request exceeds the maximum. */
    constructor (growthFactor: nat, count: nat)
      requires growthFactor >= 2 && count <= MAX_BUCKET_COUNT
      ensures Valid() && this.growthFactor == growthFactor
      ensures mask == if count > 0 then Ceil(count) - 1 else 0
    {
      this.growthFactor := growthFactor;
      var m := 0;
      if count > 0 {
        CeilBelowMax(count);
        m := RoundUpToPowerOfTwo(count);
        m := m - 1;
      }
      mask := m;
      new;
      ghost var k := CeilIsLeastPower(count);
      CeilBelowMax(count);
      assert mask + 1 == if count > 0 then Pow2(k) else Pow2(0);
    }

    /** The bucket of a hash is its remainder by the number of buckets. */
    method BucketForHash(hash: nat) returns (b: nat)
      requires Valid()
      ensures b == hash % (mask + 1) && b <= mask
    {
      ghost var k: nat :| mask + 1 == Pow2(k);
      AndOnes(hash, k);
      AndBound(hash, mask);
      b := And(hash, mask);
    }

    /** The next bucket count, or none where the original throws. */
    method NextBucketCount() returns (n: Option<nat>)
      requires Valid()
      ensures n == AsPolicy(growthFactor).next(mask + 1)
      ensures n.Some? ==> n.value == (mask + 1) * growthFactor
      ensures n.None? <==> (mask + 1) * growthFactor > MAX_BUCKET_COUNT
    {
      if mask + 1 > MAX_BUCKET_COUNT / growthFactor {
        GrowthDoesNotFit(mask + 1, growthFactor, MAX_BUCKET_COUNT);
        return None;
      }
      GrowthFits(mask + 1, growthFactor, MAX_BUCKET_COUNT);
      n := Some((mask + 1) * growthFactor);
    }

    method Clear()
      requires Valid()
      modifies this
      ensures Valid() && mask == 0
    {
      mask := 0;
      assert mask + 1 == Pow2(0);
    }
  }

  lemma CeilBelowMax(n: nat)
    requires n <= MAX_BUCKET_COUNT
    ensures n <= Ceil(n) <= MAX_BUCKET_COUNT
  {
    var k := CeilIsLeastPower(n);
    if k > 63 {
      if 63 < k - 1 {
        Pow2Increasing(63, k - 1);
      }
    } else if k < 63 {
      Pow2Increasing(k, 63);
    }
  }

  /** The policy as the hash table uses it. */
  function Next(growthFactor: nat, count: nat): Option<nat>
    requires growthFactor > 0
  {
    var buckets := if count == 0 then 1 else count;
    if buckets > MAX_BUCKET_COUNT / growthFactor then None
    else Some(buckets * growthFactor)
  }

  function AsPolicy(growthFactor: nat): HopscotchLayout.Policy
    requires growthFactor > 0
  {
    HopscotchLayout.Policy(
      (h: nat, c: nat) => if c == 0 then 0 else And(h, c - 1),
      (n: nat) => if n == 0 then 0 else Ceil(n),
      (c: nat) => Next(growthFactor, c),
      MAX_BUCKET_COUNT)
  }

  /** It meets what the table asks of a policy: buckets in range, rounding up within the maximum, and
      strict growth until it refuses. */
  lemma PowerOfTwoIsLawful(growthFactor: nat)
    requires growthFactor >= 2
    ensures AsPolicy(growthFactor).Lawful()
  {
    var p := AsPolicy(growthFactor);
    forall h: nat, c: nat ensures p.bucketFor(h, c) < c || p.bucketFor(h, c) == 0 {
      if c > 0 {
        AndBound(h, c - 1);
      }
    }
    forall n: nat | n <= p.max ensures n <= p.roundUp(n) <= p.max {
      CeilBelowMax(n);
    }
    forall c: nat | p.next(c).Some? ensures c < p.next(c).value <= p.max {
      var b := if c == 0 then 1 else c;
      GrowthFits(b, growthFactor, p.max);
    }
  }

  lemma GrowthDoesNotFit(b: nat, g: nat, m: nat)
    requires g >= 2 && b > m / g
    ensures b * g > m
  {
    var q, r := m / g, m % g;
    assert m == q * g + r && r < g;
    Multiples(b, q, g);
  }

  lemma Multiples(b: nat, q: nat, g: nat)
    requires b > q
    ensures b * g >= q * g + g
  {
    var d := b - q - 1;
    assert b * g == (d + q + 1) * g == d * g + q * g + g;
  }

  lemma GrowthFits(b: nat, g: nat, m: nat)
    requires b > 0 && g >= 2 && b <= m / g
    ensures b < b * g <= m
  {
    var q, r := m / g, m % g;
    assert m == q * g + r;
    assert (q - b) * g == q * g - b * g;
    assert (q - b) * g >= 0;
    assert b * g == b * (g - 2) + 2 * b && b * (g - 2) >= 0;
  }
}
