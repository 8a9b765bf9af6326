/** Division and remainder by a positive modulus. */
module Arith {

  lemma MulAtLeast(a: int, m: int)
    requires a >= 1 && m > 0
    ensures a * m >= m
  {
    if a > 1 {
      assert a * m == (a - 1) * m + m;
      assert (a - 1) * m >= 0;
    }
  }

  lemma MulMonotone(a: int, b: int, m: int)
    requires a >= b && m >= 0
    ensures a * m >= b * m
  {
    assert (a - b) * m >= 0;
    assert (a - b) * m == a * m - b * m;
  }

  lemma MulBelow(a: int, m: int)
    requires a < 0 && m > 0
    ensures a * m <= -m
  {
    MulAtLeast(-a, m);
    assert (-a) * m == -(a * m);
  }

  lemma QuotientNat(x: nat, m: nat)
    requires m > 0
    ensures x / m >= 0
  {
    assert x == (x / m) * m + x % m;
    if x / m < 0 {
      MulBelow(x / m, m);
      assert false;
    }
  }

  function Quotient(x: nat, m: nat): (q: nat)
    requires m > 0
    ensures q == x / m
  {
    QuotientNat(x, m);
    x / m
  }

  /** Quotient and remainder are determined by what they must satisfy. */
  lemma DivModUnique(x: int, q: int, r: int, m: int)
    requires m > 0 && x == q * m + r && 0 <= r < m
    ensures x / m == q && x % m == r
  {
    var q', r' := x / m, x % m;
    assert x == q' * m + r';
    assert (q - q') * m == q * m - q' * m;
    assert (q' - q) * m == q' * m - q * m;
    if q > q' {
      MulAtLeast(q - q', m);
    } else if q < q' {
      MulAtLeast(q' - q, m);
    }
  }

  /** Adding multiples of the modulus moves the quotient and leaves the remainder. */
  lemma DivModShift(x: int, k: int, m: int)
    requires m > 0
    ensures (x + k * m) % m == x % m && (x + k * m) / m == x / m + k
  {
    var q, r := x / m, x % m;
    assert x == q * m + r;
    assert (q + k) * m == q * m + k * m;
    DivModUnique(x + k * m, q + k, r, m);
  }

  lemma DivOrder(p: int, q: int, m: int)
    requires m > 0 && p / m < q / m
    ensures p < q
  {
    assert p == (p / m) * m + p % m && q == (q / m) * m + q % m;
    MulAtLeast(q / m - p / m, m);
    assert (q / m - p / m) * m == (q / m) * m - (p / m) * m;
  }

  lemma DivModSmall(x: int, m: int)
    requires 0 <= x < m
    ensures x % m == x && x / m == 0
  {
    DivModUnique(x, 0, x, m);
  }

  /** The remainder of a difference, or of a sum, depends on the remainders only. */
  lemma ModSub(a: int, b: int, m: int)
    requires m > 0
    ensures (a % m - b % m) % m == (a - b) % m
  {
    var p, q := a / m, b / m;
    assert (q - p) * m == q * m - p * m;
    assert a % m - b % m == a - b + (q - p) * m;
    DivModShift(a - b, q - p, m);
  }

  lemma ModAdd(a: int, d: int, m: int)
    requires m > 0
    ensures (a % m + d) % m == (a + d) % m
  {
    var p := a / m;
    assert (-p) * m == -(p * m);
    assert a % m + d == a + d + (-p) * m;
    DivModShift(a + d, -p, m);
  }

  lemma ModNegate(x: int, m: int)
    requires m > 0
    ensures (-x) % m == if x % m == 0 then 0 else m - x % m
  {
    var q, r := x / m, x % m;
    assert x == q * m + r;
    assert (-q) * m == -(q * m);
    if r == 0 {
      DivModUnique(-x, -q, 0, m);
    } else {
      assert (-q - 1) * m == (-q) * m - m;
      DivModUnique(-x, -q - 1, m - r, m);
    }
  }

  /** Remainder by a multiple of `b` keeps the remainder by `b`. */
  lemma ModMod(x: int, k: int, b: int)
    requires b > 0 && k > 0
    ensures k * b > 0 && (x % (k * b)) % b == x % b
  {
    MulAtLeast(k, b);
    var m := k * b;
    var q := x / m;
    assert x % m == x - q * m;
    assert q * m == (q * k) * b;
    assert (-(q * k)) * b == -((q * k) * b);
    DivModShift(x, -(q * k), b);
  }

  lemma NextOffset(x: int, b: int)
    requires b > 1
    ensures (x + 1) % b == if x % b == b - 1 then 0 else x % b + 1
    ensures (x + 1) / b == if x % b == b - 1 then x / b + 1 else x / b
  {
    var q, r := x / b, x % b;
    assert x == q * b + r;
    if r == b - 1 {
      assert (q + 1) * b == q * b + b;
      DivModUnique(x + 1, q + 1, 0, b);
    } else {
      DivModUnique(x + 1, q, r + 1, b);
    }
  }

  function Min(a: int, b: int): int {
    if a < b then a else b
  }

  function Pow2(n: nat): (r: nat)
    ensures r > 0
  {
    if n == 0 then 1 else 2 * Pow2(n - 1)
  }

  lemma {:induction false} Pow2Increasing(a: nat, b: nat)
    requires a < b
    ensures 2 * Pow2(a) <= Pow2(b)
    decreases b
  {
    if a + 1 < b {
      Pow2Increasing(a, b - 1);
    }
  }

  lemma {:induction false} Pow2Divides(a: nat, b: nat) returns (k: nat)
    requires a <= b
    ensures k > 0 && Pow2(b) == k * Pow2(a)
    decreases b
  {
    if a == b {
      k := 1;
    } else {
      var k' := Pow2Divides(a, b - 1);
      k := 2 * k';
      assert 2 * (k' * Pow2(a)) == (2 * k') * Pow2(a);
    }
  }
}
