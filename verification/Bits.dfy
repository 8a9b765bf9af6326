/** Bitwise operations on unbounded naturals, and their effect bit by bit. */
module Bits {
  import opened Arith

  predicate Bit(x: nat, i: nat) {
    if i == 0 then x % 2 == 1 else Bit(x / 2, i - 1)
  }

  function Digit(b: bool): nat {
    if b then 1 else 0
  }

  function And(x: nat, y: nat): nat {
    if x == 0 || y == 0 then 0 else 2 * And(x / 2, y / 2) + Digit(x % 2 == 1 && y % 2 == 1)
  }

  function Or(x: nat, y: nat): nat {
    if x == 0 && y == 0 then 0 else 2 * Or(x / 2, y / 2) + Digit(x % 2 == 1 || y % 2 == 1)
  }

  function Xor(x: nat, y: nat): nat {
    if x == 0 && y == 0 then 0 else 2 * Xor(x / 2, y / 2) + Digit(x % 2 != y % 2)
  }

  lemma {:induction false} BitOfZero(i: nat)
    ensures !Bit(0, i)
    decreases i
  {
    if i > 0 {
      BitOfZero(i - 1);
    }
  }

  lemma {:induction false} BitOfAnd(x: nat, y: nat, i: nat)
    ensures Bit(And(x, y), i) <==> Bit(x, i) && Bit(y, i)
    decreases i
  {
    if x == 0 || y == 0 {
      BitOfZero(i);
    } else {
      assert And(x, y) / 2 == And(x / 2, y / 2) && And(x, y) % 2 == Digit(x % 2 == 1 && y % 2 == 1);
      if i > 0 {
        BitOfAnd(x / 2, y / 2, i - 1);
      }
    }
  }

  lemma {:induction false} BitOfOr(x: nat, y: nat, i: nat)
    ensures Bit(Or(x, y), i) <==> Bit(x, i) || Bit(y, i)
    decreases i
  {
    BitOfZero(i);
    if i > 0 {
      BitOfOr(x / 2, y / 2, i - 1);
    }
  }

  lemma {:induction false} BitOfXor(x: nat, y: nat, i: nat)
    ensures Bit(Xor(x, y), i) <==> Bit(x, i) != Bit(y, i)
    decreases i
  {
    BitOfZero(i);
    if i > 0 {
      BitOfXor(x / 2, y / 2, i - 1);
    }
  }

  lemma {:induction false} BitOfPow2(n: nat, i: nat)
    ensures Bit(Pow2(n), i) <==> i == n
    decreases n
  {
    if n == 0 {
      if i > 0 {
        BitOfZero(i - 1);
      }
    } else if i > 0 {
      assert Pow2(n) / 2 == Pow2(n - 1);
      BitOfPow2(n - 1, i - 1);
    }
  }

  /** The word of `n` ones. */
  lemma {:induction false} BitOfOnes(n: nat, i: nat)
    ensures Bit(Pow2(n) - 1, i) <==> i < n
    decreases n
  {
    if n == 0 {
      BitOfZero(i);
    } else {
      assert (Pow2(n) - 1) / 2 == Pow2(n - 1) - 1 && (Pow2(n) - 1) % 2 == 1;
      if i > 0 {
        BitOfOnes(n - 1, i - 1);
      }
    }
  }

  /** A number is zero exactly when no bit is on. */
  lemma {:induction false} SomeBit(x: nat) returns (i: nat)
    requires x > 0
    ensures Bit(x, i) && Pow2(i) <= x
    decreases x
  {
    if x % 2 == 1 {
      i := 0;
    } else {
      var j := SomeBit(x / 2);
      i := j + 1;
    }
  }

  lemma {:induction false} BitBelow(x: nat, n: nat, i: nat)
    requires x < Pow2(n) && Bit(x, i)
    ensures i < n
    decreases n
  {
    if n == 0 {
      BitOfZero(i);
    } else if i > 0 {
      BitBelow(x / 2, n - 1, i - 1);
    }
  }

  /** `x >> n` */
  function Shr(x: nat, n: nat): nat {
    if n == 0 then x else Shr(x / 2, n - 1)
  }

  lemma {:induction false} ShrIsDiv(x: nat, n: nat)
    ensures Shr(x, n) == x / Pow2(n)
    decreases n
  {
    if n == 0 {
      DivModUnique(x, x, 0, 1);
    } else {
      ShrIsDiv(x / 2, n - 1);
      DivByProduct(x, 2, Pow2(n - 1));
    }
  }

  lemma {:induction false} ShrTwice(x: nat, m: nat, n: nat)
    ensures Shr(Shr(x, m), n) == Shr(x, m + n)
    decreases m
  {
    if m > 0 {
      ShrTwice(x / 2, m - 1, n);
    }
  }

  lemma {:induction false} ShrOfZero(n: nat)
    ensures Shr(0, n) == 0
    decreases n
  {
    if n > 0 {
      ShrOfZero(n - 1);
    }
  }

  lemma {:induction false} BitOfShr(x: nat, n: nat, i: nat)
    ensures Bit(Shr(x, n), i) == Bit(x, n + i)
    decreases n
  {
    if n > 0 {
      BitOfShr(x / 2, n - 1, i);
    }
  }

  lemma DivByProduct(x: nat, a: nat, b: nat)
    requires a > 0 && b > 0
    ensures a * b > 0 && x / (a * b) == (x / a) / b
  {
    MulAtLeast(a, b);
    var y, r := x / a, x % a;
    var q, t := y / b, y % b;
    assert x == y * a + r && y == q * b + t;
    Regroup(q, b, t, a);
    TopLimit(t, b, r, a);
    DivModUnique(x, q, t * a + r, a * b);
  }

  lemma Regroup(q: int, b: int, t: int, a: int)
    ensures (q * b + t) * a == q * (a * b) + t * a
  {
    assert (q * b + t) * a == (q * b) * a + t * a;
    assert (q * b) * a == q * (a * b);
  }

  lemma TopLimit(t: int, b: int, r: int, a: int)
    requires 0 <= t < b && 0 <= r < a
    ensures 0 <= t * a + r < a * b
  {
    if t + 1 < b {
      MulAtLeast(b - t - 1, a);
    }
    assert (b - t - 1) * a == b * a - t * a - a;
    assert t * a >= 0;
  }

  /** Masking with `n` ones takes the remainder by `Pow2(n)`. */
  lemma {:induction false} AndOnes(x: nat, n: nat)
    ensures And(x, Pow2(n) - 1) == x % Pow2(n)
    decreases n
  {
    if n == 0 {
      DivModUnique(x, x, 0, 1);
    } else if x == 0 {
      DivModSmall(0, Pow2(n));
    } else {
      AndOnes(x / 2, n - 1);
      var m := Pow2(n - 1);
      assert (Pow2(n) - 1) / 2 == m - 1 && (Pow2(n) - 1) % 2 == 1;
      ModDouble(x, m);
    }
  }

  lemma ModDouble(x: nat, m: nat)
    requires m > 0
    ensures x % (2 * m) == 2 * ((x / 2) % m) + x % 2
  {
    var q, r := (x / 2) / m, (x / 2) % m;
    assert x / 2 == q * m + r;
    assert q * (2 * m) == 2 * (q * m);
    DivModUnique(x, q, 2 * r + x % 2, 2 * m);
  }

  /** Shifting an Or shifts its operands. */
  lemma {:induction false} OrShift(x: nat, y: nat, n: nat)
    ensures Shr(Or(x, y), n) == Or(Shr(x, n), Shr(y, n))
    decreases n
  {
    if n > 0 {
      OrShift(x / 2, y / 2, n - 1);
      assert Or(x, y) / 2 == Or(x / 2, y / 2);
    }
  }

  /** Or with `n` ones fills the low `n` bits. */
  lemma {:induction false} OrOnes(x: nat, n: nat)
    ensures Or(x, Pow2(n) - 1) == Shr(x, n) * Pow2(n) + Pow2(n) - 1
    decreases n
  {
    if n == 0 {
      OrZero(x);
    } else {
      hide Pow2, Shr, Or;
      OrOnes(x / 2, n - 1);
      OrOddly(x, Pow2(n - 1));
      ShrOnce(x, n);
      TwiceOf(Shr(x, n), Pow2(n - 1));
    }
  }

  lemma TwiceOf(q: int, m: int)
    ensures q * (2 * m) == 2 * (q * m)
  {
  }

  lemma OrOddly(x: nat, m: nat)
    requires m > 0
    ensures Or(x, 2 * m - 1) == 2 * Or(x / 2, m - 1) + 1
  {
    assert (2 * m - 1) / 2 == m - 1 && (2 * m - 1) % 2 == 1;
  }

  lemma ShrOnce(x: nat, n: nat)
    requires n > 0
    ensures Shr(x, n) == Shr(x / 2, n - 1) && Pow2(n) == 2 * Pow2(n - 1)
  {
  }

  lemma {:induction false} OrZero(x: nat)
    ensures Or(x, 0) == x
    decreases x
  {
    if x > 0 {
      OrZero(x / 2);
    }
  }
}
