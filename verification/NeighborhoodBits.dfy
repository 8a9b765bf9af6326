/** The packed word of a bucket: bit 0 says that it has a value, bit 1 that its home has overflowed,
    and bit `i + 2` that offset `i` of the neighbourhood is on. The word's operations are those of
    HopscotchLayout.Bucket. */
module NeighborhoodBits {
  import opened Arith
  import opened Bits
  import opened HopscotchLayout
  import opened Options

  const RESERVED: nat := 2

  // ----- The operations on the word -----

  predicate WordEmpty(w: nat) {
    And(w, 1) == 0
  }

  predicate WordHasOverflow(w: nat) {
    And(w, 2) != 0
  }

  function NeighborhoodInfos(w: nat): nat {
    Shr(w, RESERVED)
  }

  function ToggleNeighborPresence(w: nat, i: nat): nat {
    Xor(w, Pow2(i + RESERVED))
  }

  predicate CheckNeighborPresence(w: nat, i: nat) {
    And(Shr(w, i + RESERVED), 1) == 1
  }

  /** `~bit` in a word of `width` bits. */
  function Complement(width: nat, bit: nat): nat
    requires bit < width
  {
    Pow2(width) - 1 - (if Pow2(bit) < Pow2(width) then Pow2(bit) else 0)
  }

  function SetOverflow(w: nat, on: bool, width: nat): nat
    requires width > 2
  {
    if on then Or(w, 2) else And(w, Complement(width, 1))
  }

  function SetEmpty(w: nat, on: bool, width: nat): nat
    requires width > 2
  {
    if on then And(w, Complement(width, 0)) else Or(w, 1)
  }

  // ----- What they mean -----

  /** The word stands for the bucket: same presence of a value, same flag, same offsets. */
  ghost predicate StandsFor<K, V>(w: nat, width: nat, b: Bucket<K, V>) {
    && w < Pow2(width)
    && (Bit(w, 0) <==> b.value.Some?)
    && (Bit(w, 1) <==> b.hasOverflow)
    && (forall i: nat :: Bit(w, i + RESERVED) <==> i in b.neighbors)
  }

  lemma AndOne(x: nat)
    ensures And(x, 1) == x % 2
    ensures Bit(x, 0) <==> And(x, 1) == 1
  {
    assert And(x / 2, 0) == 0;
  }

  /** A nonzero word has a bit on; so a masked word with no bit on is zero. */
  lemma AndBitIsZero(w: nat, n: nat)
    ensures And(w, Pow2(n)) != 0 <==> Bit(w, n)
  {
    if And(w, Pow2(n)) != 0 {
      var i := SomeBit(And(w, Pow2(n)));
      BitOfAnd(w, Pow2(n), i);
      BitOfPow2(n, i);
    }
    if Bit(w, n) {
      BitOfAnd(w, Pow2(n), n);
      BitOfPow2(n, n);
      BitOfZero(n);
    }
  }

  lemma BitOfComplement(width: nat, bit: nat, i: nat)
    requires bit < width
    ensures Bit(Complement(width, bit), i) <==> i < width && i != bit
  {
    OnesWithout(width, bit, i);
  }

  lemma {:induction false} OnesWithout(n: nat, bit: nat, i: nat)
    requires bit < n
    ensures Pow2(bit) < Pow2(n) && (Bit(Pow2(n) - 1 - Pow2(bit), i) <==> i < n && i != bit)
    decreases n
  {
    var x := Pow2(n) - 1 - Pow2(bit);
    if bit == 0 {
      Pow2Increasing(0, n);
      assert x == 2 * (Pow2(n - 1) - 1);
      if i > 0 {
        BitOfOnes(n - 1, i - 1);
      }
    } else {
      OnesWithout(n - 1, bit - 1, if i > 0 then i - 1 else 0);
      assert x == 2 * (Pow2(n - 1) - 1 - Pow2(bit - 1)) + 1;
    }
  }

  /** Words with the same bits below `width` and none above are equal; here, a word with no bit from
      `width` on is below the limit. */
  lemma {:induction false} BelowLimit(x: nat, n: nat)
    requires forall i: nat :: Bit(x, i) ==> i < n
    ensures x < Pow2(n)
    decreases n
  {
    if n == 0 {
      if x > 0 {
        var i := SomeBit(x);
      }
    } else {
      forall i: nat | Bit(x / 2, i) ensures i < n - 1 {
        assert Bit(x, i + 1);
      }
      BelowLimit(x / 2, n - 1);
    }
  }

  // ----- The operations refine those of a bucket -----

  lemma ReadsAgree<K, V>(w: nat, width: nat, b: Bucket<K, V>, i: nat)
    requires StandsFor(w, width, b)
    ensures WordEmpty(w) <==> b.Empty()
    ensures WordHasOverflow(w) <==> b.hasOverflow
    ensures CheckNeighborPresence(w, i) <==> i in b.neighbors
  {
    AndOne(w);
    AndBitIsZero(w, 1);
    assert Pow2(1) == 2;
    AndOne(Shr(w, i + RESERVED));
    BitOfShr(w, i + RESERVED, 0);
  }

  lemma ToggleAgrees<K, V>(w: nat, width: nat, b: Bucket<K, V>, i: nat)
    requires StandsFor(w, width, b) && i + RESERVED < width
    ensures StandsFor(ToggleNeighborPresence(w, i), width, b.(neighbors := Toggle(b.neighbors, i)))
  {
    var w' := ToggleNeighborPresence(w, i);
    forall j: nat ensures Bit(w', j) <==> Bit(w, j) != (j == i + RESERVED) {
      BitOfXor(w, Pow2(i + RESERVED), j);
      BitOfPow2(i + RESERVED, j);
    }
    Bounded(w, w', width);
  }

  lemma Bounded(w: nat, w': nat, width: nat)
    requires w < Pow2(width)
    requires forall j: nat :: Bit(w', j) ==> Bit(w, j) || j < width
    ensures w' < Pow2(width)
  {
    forall j: nat | Bit(w', j) ensures j < width {
      if Bit(w, j) {
        BitBelow(w, width, j);
      }
    }
    BelowLimit(w', width);
  }

  lemma SetOverflowAgrees<K, V>(w: nat, width: nat, b: Bucket<K, V>, on: bool)
    requires StandsFor(w, width, b) && width > 2
    ensures StandsFor(SetOverflow(w, on, width), width, b.(hasOverflow := on))
  {
    var w' := SetOverflow(w, on, width);
    forall j: nat ensures Bit(w', j) <==> if j == 1 then on else Bit(w, j) {
      SetBit(w, 1, on, width, j);
    }
    Bounded(w, w', width);
  }

  lemma SetEmptyAgrees<K, V>(w: nat, width: nat, b: Bucket<K, V>, v: Option<(K, V)>)
    requires StandsFor(w, width, b) && width > 2
    ensures StandsFor(SetEmpty(w, v.None?, width), width, b.(value := v))
  {
    var w' := SetEmpty(w, v.None?, width);
    forall j: nat ensures Bit(w', j) <==> if j == 0 then v.Some? else Bit(w, j) {
      SetBit(w, 0, v.Some?, width, j);
    }
    Bounded(w, w', width);
  }

  lemma SetBit(w: nat, n: nat, on: bool, width: nat, j: nat)
    requires w < Pow2(width) && n < width
    ensures on ==> (Bit(Or(w, Pow2(n)), j) <==> j == n || Bit(w, j))
    ensures !on ==> (Bit(And(w, Complement(width, n)), j) <==> j != n && Bit(w, j))
  {
    if on {
      BitOfOr(w, Pow2(n), j);
      BitOfPow2(n, j);
    } else {
      BitOfAnd(w, Complement(width, n), j);
      BitOfComplement(width, n, j);
      if Bit(w, j) {
        BitBelow(w, width, j);
      }
    }
  }

  /** The scan `while infos != 0 { test infos & 1; infos >>= 1 }`: after `j` shifts the word is zero
      exactly when no offset from `j` on is left, and its low bit tells about offset `j`. */
  lemma ScanAgrees<K, V>(w: nat, width: nat, b: Bucket<K, V>, j: nat)
    requires StandsFor(w, width, b)
    ensures
      var infos := Shr(NeighborhoodInfos(w), j);
      && (infos == 0 <==> forall i: nat :: i >= j ==> i !in b.neighbors)
      && (And(infos, 1) == 1 <==> j in b.neighbors)
      && Shr(infos, 1) == Shr(NeighborhoodInfos(w), j + 1)
  {
    var infos := Shr(NeighborhoodInfos(w), j);
    ShrTwice(w, RESERVED, j);
    ShrTwice(NeighborhoodInfos(w), j, 1);
    forall i: nat ensures Bit(infos, i) <==> i + j in b.neighbors {
      BitOfShr(w, RESERVED + j, i);
      assert RESERVED + j + i == (i + j) + RESERVED;
    }
    AndOne(infos);
    assert Bit(infos, 0) <==> 0 + j in b.neighbors;
    if infos != 0 {
      var i := SomeBit(infos);
      assert i + j in b.neighbors;
    } else {
      forall i: nat | i >= j ensures i !in b.neighbors {
        BitOfZero(i - j);
        assert Bit(infos, i - j) <==> (i - j) + j in b.neighbors;
      }
    }
  }
}
