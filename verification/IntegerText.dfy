/** Integers to decimal text: the leading digit pair by a fixed-point reciprocal, every later pair by
    multiplying the fraction, with no division by a power of ten. */
module IntegerText {
  import opened Arith

  const WORD: nat := 0x1_0000_0000
  const DOUBLE_WORD: nat := 0x1_0000_0000_0000_0000
  const CHUNK: nat := 100_000_000

  /** The ten strings that make up `digits_00_99`. */
  function Row(x: nat): (row: string)
    requires x < 10
    ensures |row| == 20
  {
    match x
    case 0 => "00010203040506070809"
    case 1 => "10111213141516171819"
    case 2 => "20212223242526272829"
    case 3 => "30313233343536373839"
    case 4 => "40414243444546474849"
    case 5 => "50515253545556575859"
    case 6 => "60616263646566676869"
    case 7 => "70717273747576777879"
    case 8 => "80818283848586878889"
    case 9 => "90919293949596979899"
  }

  // ----- The text of a number -----

  function Digit(d: nat): char
    requires d < 10
  {
    '0' + d as char
  }

  function Pow10(n: nat): (p: nat)
    ensures p > 0
  {
    if n == 0 then 1 else 10 * Pow10(n - 1)
  }

  /** A number without its last `n` digits, and those digits. */
  function High(u: nat, n: nat): (h: nat)
    ensures h == u / Pow10(n)
  {
    Quotient(u, Pow10(n))
  }

  function Low(u: nat, n: nat): (r: nat)
    ensures r < Pow10(n)
  {
    u % Pow10(n)
  }

  /** The canonical decimal text of a natural number: no leading zeros. */
  function Text(n: nat): (s: string)
    ensures |s| > 0
  {
    if n < 10 then [Digit(n)] else Text(n / 10) + [Digit(n % 10)]
  }

  /** The last `w` digits, with leading zeros. */
  function Padded(n: nat, w: nat): (s: string)
    ensures |s| == w
  {
    if w == 0 then [] else Padded(n / 10, w - 1) + [Digit(n % 10)]
  }

  /** The text of an integer, with a minus sign if it is negative. */
  function SignedText(i: int): string {
    if i < 0 then "-" + Text(-i) else Text(i)
  }

  lemma {:induction false} Pow10Sum(m: nat, n: nat)
    ensures Pow10(m) * Pow10(n) == Pow10(m + n)
    decreases m
  {
    if m > 0 {
      Pow10Sum(m - 1, n);
      assert Pow10(m) * Pow10(n) == 10 * (Pow10(m - 1) * Pow10(n));
    }
  }

  /** Dividing by ten times `p` is dividing by ten and then by `p`. */
  lemma DivTen(u: nat, p: nat)
    requires p > 0
    ensures (u / 10) / p == u / (10 * p) && u % (10 * p) == 10 * ((u / 10) % p) + u % 10
    ensures (u / 10) % p == (u % (10 * p)) / 10 && (u % (10 * p)) % 10 == u % 10
  {
    var q, r := (u / 10) / p, (u / 10) % p;
    assert u / 10 == q * p + r;
    assert q * (10 * p) == 10 * (q * p);
    DivModUnique(u, q, 10 * r + u % 10, 10 * p);
  }

  /** Padded text splits at any digit. */
  lemma {:induction false} PaddedSplit(u: nat, w: nat, n: nat)
    requires n <= w
    ensures Padded(u, w) == Padded(High(u, n), w - n) + Padded(Low(u, n), n)
    decreases n
  {
    if n == 0 {
      DivModUnique(u, u, 0, 1);
      assert Padded(u, w) == Padded(u, w) + [];
    } else {
      DivTen(u, Pow10(n - 1));
      PaddedSplit(u / 10, w - 1, n - 1);
    }
  }

  /** The text of a number of at least `w` digits and one more splits before its last `w` digits. */
  lemma {:induction false} TextSplit(u: nat, w: nat)
    requires u >= Pow10(w)
    ensures High(u, w) > 0 && Text(u) == Text(High(u, w)) + Padded(Low(u, w), w)
    decreases w
  {
    if w == 0 {
      DivModUnique(u, u, 0, 1);
      assert Text(u) == Text(u) + [];
    } else {
      DivTen(u, Pow10(w - 1));
      TextSplit(u / 10, w - 1);
    }
  }

  /** `k + 1` is the number of digits of `u`. */
  predicate HasLength(u: nat, k: nat) {
    (k == 0 || Pow10(k) <= u) && u < Pow10(k + 1)
  }

  lemma {:induction false} TextIsPadded(u: nat, k: nat)
    requires HasLength(u, k)
    ensures Text(u) == Padded(u, k + 1)
    decreases k
  {
    if k == 0 {
      assert Pow10(1) == 10 * Pow10(0) && Padded(u, 1) == Padded(u / 10, 0) + [Digit(u % 10)];
    } else {
      assert Pow10(k) == 10 * Pow10(k - 1) && Pow10(k + 1) == 10 * Pow10(k);
      TextIsPadded(u / 10, k - 1);
    }
  }

  // ----- Fixed point -----

  /** `t / 2^32` approximates `u / 10^n` from above, by less than one unit of the last digit. */
  ghost predicate Near(t: nat, u: nat, n: nat) {
    WORD * u <= Pow10(n) * t < WORD * (u + 1)
  }

  /** The integer part of the quotient `t / 2^32` of an approximation of `u / p`, and what its fraction is. */
  lemma NearParts(p: nat, t: nat, u: nat)
    requires p > 0 && WORD * u <= p * t < WORD * (u + 1)
    ensures t / WORD == u / p && WORD * (u % p) <= p * (t % WORD) < WORD * (u % p + 1)
  {
    var q, f := t / WORD, t % WORD;
    ProductParts(p, q, f);
    assert t == q * WORD + f;
    QuotientFits(p, q, p * q, p * f, u);
  }

  lemma ProductParts(p: nat, q: nat, f: nat)
    requires p > 0 && f < WORD
    ensures p * (q * WORD + f) == WORD * (p * q) + p * f && 0 <= p * f < WORD * p
  {
    MulAtLeast(WORD - f, p);
    assert (WORD - f) * p == WORD * p - p * f;
    assert p * (q * WORD + f) == p * (q * WORD) + p * f;
    assert p * (q * WORD) == WORD * (p * q);
  }

  lemma QuotientFits(p: nat, q: nat, x: nat, y: nat, u: nat)
    requires p > 0 && x == p * q && 0 <= y < WORD * p && WORD * u <= WORD * x + y < WORD * (u + 1)
    ensures q == u / p && WORD * (u % p) <= y < WORD * (u % p + 1)
  {
    DivModUnique(u, q, u - x, p);
  }

  /** The integer part is exact, and `10^d` times the fraction is near what remains. */
  lemma NearStep(t: nat, u: nat, n: nat, d: nat)
    requires Near(t, u, n) && d <= n
    ensures t / WORD == High(u, n) && Near(Pow10(d) * (t % WORD), Low(u, n), n - d)
  {
    hide Pow10;
    NearParts(Pow10(n), t, u);
    Pow10Sum(d, n - d);
    assert Pow10(n - d) * (Pow10(d) * (t % WORD)) == (Pow10(d) * Pow10(n - d)) * (t % WORD);
  }

  // ----- The reciprocals -----

  /** `1eN` */
  const TEN: seq<nat> := [1, 10, 100, 1000, 10_000, 100_000, 1_000_000, 10_000_000, 100_000_000]

  /** `N / 5 * N * 53 / 16` as a shift */
  function Shift(n: nat): nat {
    n / 5 * n * 53 / 16
  }

  /** `(1 << (32 + shift)) / 1eN + 1 + N / 6 - N / 8` */
  function Reciprocal(n: nat): nat
    requires n <= 8
  {
    WORD * Pow2(Shift(n)) / TEN[n] + 1 + n / 6 - n / 8
  }

  lemma ShiftsAre()
    ensures Shift(1) == Shift(2) == Shift(3) == Shift(4) == 0
    ensures Shift(5) == 16 && Shift(6) == 19 && Shift(7) == 23 && Shift(8) == 26
    ensures Pow2(0) == 1 && Pow2(16) == 0x1_0000 && Pow2(19) == 0x8_0000 && Pow2(23) == 0x80_0000 &&
      Pow2(26) == 0x400_0000
  {
    assert Pow2(8) == 0x100;
    assert Pow2(16) == 0x1_0000;
    assert Pow2(24) == 0x100_0000;
  }

  /** The fixed-point value that the leading pair is taken from, in 64-bit arithmetic. */
  function Scaled(n: nat, u: nat): nat
    requires n <= 8
  {
    Quotient(Reciprocal(n) * u % DOUBLE_WORD, Pow2(Shift(n))) + n / 6 * 4
  }

  /** How good a reciprocal `k` of `p`, scaled by `2^32 * s` and too large by `e / p`, must be. */
  lemma ReciprocalNear(p: nat, k: nat, s: nat, c: nat, e: nat, u: nat)
    requires p > 0 && s > 0 && p * k == WORD * s + e
    requires p * (s - 1) <= e * u + c * (p * s) < WORD * s
    ensures (k * u) / s >= 0 && WORD * u <= p * ((k * u) / s + c) < WORD * (u + 1)
  {
    QuotientNat(k * u, s);
    var q, r := (k * u) / s, (k * u) % s;
    assert k * u == q * s + r;
    SlackBounds(p, s, r);
    ScaleOut(p, q, c, s, r, k * u);
    ScaledProduct(p, k, s, e, u);
    CancelFactor(p * (q + c), WORD * u, e * u + c * (p * s) - p * r, s);
  }

  lemma ScaledProduct(p: nat, k: nat, s: nat, e: nat, u: nat)
    requires p * k == WORD * s + e
    ensures p * (k * u) == WORD * u * s + e * u
  {
    assert p * (k * u) == (p * k) * u;
    assert (WORD * s + e) * u == (WORD * s) * u + e * u;
    assert (WORD * s) * u == WORD * u * s;
  }

  lemma SlackBounds(p: nat, s: nat, r: nat)
    requires 0 <= r < s
    ensures 0 <= p * r <= p * (s - 1)
  {
    assert p * (s - 1) == p * r + p * (s - 1 - r);
    assert p * (s - 1 - r) >= 0;
  }

  lemma ScaleOut(p: nat, q: nat, c: nat, s: nat, r: nat, x: nat)
    requires x == q * s + r
    ensures p * (q + c) * s == p * x - p * r + c * (p * s)
  {
    assert p * (q + c) == p * q + p * c;
    assert (p * q + p * c) * s == (p * q) * s + (p * c) * s;
    assert (p * q) * s == p * (q * s);
    assert p * (q * s) == p * (x - r) == p * x - p * r;
    assert (p * c) * s == c * (p * s);
  }

  lemma CancelFactor(a: int, b: int, slack: int, s: nat)
    requires s > 0 && a * s == b * s + slack && 0 <= slack < WORD * s
    ensures b <= a < b + WORD
  {
    assert (a - b) * s == slack;
    if a < b {
      MulBelow(a - b, s);
    }
    if a >= b + WORD {
      MulMonotone(a - b, WORD, s);
    }
  }

  /** Which numbers the leading pair is right for. Only the one of seven digits needs a lower bound. */
  predicate Fits(u: nat, n: nat) {
    u < Pow10(n + 2) && u < WORD && (n == 5 ==> u >= 1_000_000)
  }

  lemma ScaledFrom(n: nat, k: nat, p: nat, s: nat, e: nat, u: nat)
    requires n <= 8 && Pow10(n) == p == TEN[n] && Pow2(Shift(n)) == s
    requires k == WORD * s / p + 1 + n / 6 - n / 8 && p * k == WORD * s + e
    requires p * (s - 1) <= e * u + n / 6 * 4 * (p * s) < WORD * s && k * u < DOUBLE_WORD && u < 100 * p
    ensures Near(Scaled(n, u), u, n) && Scaled(n, u) < 100 * WORD
  {
    hide Shift, Pow2, Pow10;
    ReciprocalNear(p, k, s, n / 6 * 4, e, u);
    DivModSmall(k * u, DOUBLE_WORD);
    Limit(p, Scaled(n, u), u);
  }

  lemma Limit(p: nat, t: nat, u: nat)
    requires p * t < WORD * (u + 1) && u < 100 * p
    ensures t < 100 * WORD
  {
    if t >= 100 * WORD {
      MulMonotone(t, 100 * WORD, p);
    }
  }

  /** No overflow, and the error of the reciprocal stays below one unit of the last digit. */
  lemma ScaledNear(n: nat, u: nat)
    requires 1 <= n <= 8 && Fits(u, n)
    ensures Near(Scaled(n, u), u, n) && Scaled(n, u) < 100 * WORD
  {
    hide Reciprocal, Shift, Pow2, Pow10, Scaled, Near;
    ShiftsAre();
    TensAre();
    match n {
      case 1 => ScaledFrom(1, 429_496_730, 10, 1, 4, u);
      case 2 => ScaledFrom(2, 42_949_673, 100, 1, 4, u);
      case 3 => ScaledFrom(3, 4_294_968, 1000, 1, 704, u);
      case 4 => ScaledFrom(4, 429_497, 10_000, 1, 2704, u);
      case 5 => ScaledFrom(5, 2_814_749_768, 100_000, 0x1_0000, 89_344, u);
      case 6 => ScaledFrom(6, 2_251_799_815, 1_000_000, 0x8_0000, 1_314_752, u);
      case 7 => ScaledFrom(7, 3_602_879_703, 10_000_000, 0x80_0000, 11_036_032, u);
      case 8 => ScaledFrom(8, 2_882_303_762, 100_000_000, 0x400_0000, 48_288_256, u);
    }
  }

  lemma TensAre()
    ensures Pow10(0) == 1 && Pow10(1) == 10 && Pow10(2) == 100 && Pow10(3) == 1000 && Pow10(4) == 10_000
    ensures Pow10(5) == 100_000 && Pow10(6) == 1_000_000 && Pow10(7) == 10_000_000 && Pow10(8) == 100_000_000
    ensures Pow10(9) == 1_000_000_000 && Pow10(10) == 10_000_000_000
  {
    assert Pow10(3) == 1000;
    assert Pow10(6) == 1_000_000;
  }

  // ----- Writing digits -----

  lemma TableRow(x: nat, y: nat)
    requires x < 10 && y < 10
    ensures Row(x)[2 * y] == Digit(x) && Row(x)[2 * y + 1] == Digit(y)
  {
    RowEntry(Row(x), x, y);
  }

  lemma RowEntry(s: string, x: nat, y: nat)
    requires x < 10 && y < 10 && |s| == 20
    requires s == [Digit(x), '0', Digit(x), '1', Digit(x), '2', Digit(x), '3', Digit(x), '4',
                   Digit(x), '5', Digit(x), '6', Digit(x), '7', Digit(x), '8', Digit(x), '9']
    ensures s[2 * y] == Digit(x) && s[2 * y + 1] == Digit(y)
  {
  }

  /** Character `i` of the table of all digit pairs. */
  function Table(i: nat): char
    requires i < 200
  {
    Row(i / 20)[i % 20]
  }

  lemma TableSplits(d: nat, c: nat)
    requires d < 100 && c < 2
    ensures (2 * d + c) / 20 == d / 10 && (2 * d + c) % 20 == 2 * (d % 10) + c
  {
  }

  lemma TableEntry(d: nat)
    requires d < 100
    ensures Table(2 * d) == Digit(d / 10) && Table(2 * d + 1) == Digit(d % 10)
  {
    hide Digit, Row;
    TableSplits(d, 0);
    TableSplits(d, 1);
    TableRow(d / 10, d % 10);
  }

  lemma PairText(d: nat)
    requires d < 100
    ensures [Table(2 * d), Table(2 * d + 1)] == Padded(d, 2)
  {
    hide Table;
    TableEntry(d);
    assert Padded(d / 10, 1) == Padded(d / 100, 0) + [Digit(d / 10 % 10)];
  }

  /** `after` is `before` with `s` written at `at`. */
  ghost predicate Wrote(before: seq<char>, after: seq<char>, at: nat, s: string) {
    at + |s| <= |before| && after == before[..at] + s + before[at + |s|..]
  }

  lemma WroteThen(b0: seq<char>, b1: seq<char>, b2: seq<char>, at: nat, s: string, s': string)
    requires Wrote(b0, b1, at, s) && Wrote(b1, b2, at + |s|, s')
    ensures Wrote(b0, b2, at, s + s')
  {
    assert b1[..at + |s|] == b0[..at] + s;
    assert b1[at + |s| + |s'|..] == b0[at + |s| + |s'|..];
  }

  /** `JEAIII_W` */
  method Pair(b: array<char>, at: nat, d: nat)
    requires d < 100 && at + 2 <= b.Length
    modifies b
    ensures Wrote(old(b[..]), b[..], at, Padded(d, 2))
  {
    hide Table, Padded;
    PairText(d);
    b[at], b[at + 1] := Table(2 * d), Table(2 * d + 1);
  }

  /** `JEAIII_A`: the leading pair of the `n + 2` digits. */
  method Lead(b: array<char>, at: nat, n: nat, u: nat) returns (t: nat)
    requires 1 <= n <= 8 && Fits(u, n) && at + 2 <= b.Length
    modifies b
    ensures Wrote(old(b[..]), b[..], at, Padded(High(u, n), 2)) && Near(t, u, n)
  {
    hide Scaled, Padded, Near, Wrote, Pow10;
    ScaledNear(n, u);
    t := Scaled(n, u);
    NearStep(t, u, n, 0);
    Pair(b, at, t / WORD);
  }

  /** The `JEAIII_D`s, and the `JEAIII_S` for an odd number of digits, that follow the leading pair. */
  method Rest(b: array<char>, at: nat, n: nat, t: nat, ghost u: nat)
    requires Near(t, u, n) && at + n <= b.Length
    modifies b
    ensures Wrote(old(b[..]), b[..], at, Padded(Low(u, n), n))
    decreases n
  {
    hide Near, Pow10, Padded, Low, High;
    RestText(u, n);
    if n == 1 {
      NearStep(t, u, 1, 1);
      OneDigit(10 * (t % WORD), Low(u, 1));
      b[at] := '0' + (10 * (t % WORD) / WORD) as char;
    } else if n > 1 {
      NearStep(t, u, n, 2);
      var next := 100 * (t % WORD);
      NearStep(next, Low(u, n), n - 2, 0);
      ghost var before := b[..];
      Pair(b, at, next / WORD);
      ghost var middle := b[..];
      Rest(b, at + 2, n - 2, next, Low(u, n));
      WroteThen(before, middle, b[..], at, Padded(next / WORD, 2), Padded(Low(Low(u, n), n - 2), n - 2));
    }
  }

  lemma OneDigit(t: nat, r: nat)
    requires Near(t, r, 0) && r < 10
    ensures t / WORD == r && [Digit(r)] == Padded(r, 1)
  {
    assert Pow10(0) == 1;
    assert r / 10 == 0 && r % 10 == r;
    assert Padded(r / 10, 0) == [];
  }

  lemma RestText(u: nat, n: nat)
    ensures Low(u, 1) < 10
    ensures n == 0 ==> Padded(Low(u, n), n) == []
    ensures n > 1 ==> High(Low(u, n), n - 2) < 100
    ensures n > 1 ==> Padded(Low(u, n), n) == Padded(High(Low(u, n), n - 2), 2) + Padded(Low(Low(u, n), n - 2), n - 2)
    ensures Pow10(1) == 10 && Pow10(2) == 100
  {
    if n > 1 {
      PaddedSplit(Low(u, n), n, n - 2);
      Pow10Sum(2, n - 2);
      assert Pow10(2) == 100;
      HighBelow(Low(u, n), n - 2, 100);
    }
  }

  lemma HighBelow(u: nat, n: nat, m: nat)
    requires u < m * Pow10(n)
    ensures High(u, n) < m
  {
    assert u == High(u, n) * Pow10(n) + u % Pow10(n);
    if High(u, n) >= m {
      MulMonotone(High(u, n), m, Pow10(n));
    }
  }

  /** `JEAIII_C0` to `JEAIII_C9`: writes `k + 1` digits. */
  method Convert(b: array<char>, at: nat, k: nat, u: nat)
    requires k <= 9 && u < Pow10(k + 1) && u < WORD && (k == 6 ==> u >= 1_000_000) && at + k + 1 <= b.Length
    modifies b
    ensures Wrote(old(b[..]), b[..], at, Padded(u, k + 1))
  {
    hide Pow10, Padded, Low, High, Near;
    TensAre();
    if k == 0 {
      OneChar(u);
      b[at] := '0' + u as char;
    } else if k == 1 {
      Pair(b, at, u);
    } else {
      ghost var before := b[..];
      var t := Lead(b, at, k - 1, u);
      ghost var middle := b[..];
      Rest(b, at + 2, k - 1, t, u);
      PaddedSplit(u, k + 1, k - 1);
      WroteThen(before, middle, b[..], at, Padded(High(u, k - 1), 2), Padded(Low(u, k - 1), k - 1));
    }
  }

  lemma OneChar(r: nat)
    requires r < 10
    ensures [Digit(r)] == Padded(r, 1)
  {
    assert r / 10 == 0 && r % 10 == r;
    assert Padded(r / 10, 0) == [];
  }

  /** `JEAIII_L09`: one less than the number of digits, by comparisons. */
  method L09(u: nat) returns (k: nat)
    requires u < WORD
    ensures k <= 9 && HasLength(u, k)
  {
    TensAre();
    hide Pow10;
    if u < 100 {
      k := if u < 10 then 0 else 1;
    } else if u < 1_000_000 {
      if u < 10_000 {
        k := if u < 1000 then 2 else 3;
      } else {
        k := if u < 100_000 then 4 else 5;
      }
    } else if u < 100_000_000 {
      k := if u < 10_000_000 then 6 else 7;
    } else {
      k := if u < 1_000_000_000 then 8 else 9;
    }
  }

  /** `JEAIII_L03` */
  method L03(u: nat) returns (k: nat)
    requires u < 10_000
    ensures k <= 3 && HasLength(u, k)
  {
    TensAre();
    hide Pow10;
    if u < 100 {
      k := if u < 10 then 0 else 1;
    } else {
      k := if u < 1000 then 2 else 3;
    }
  }

  // ----- The whole number -----

  /** The integer types of the library: 8 to 64 bits, signed or not. */
  predicate InType(width: nat, signed: bool, i: int) {
    && width in {8, 16, 32, 64}
    && if signed then -(Values(width) / 2) <= i < Values(width) / 2 else 0 <= i < Values(width)
  }

  function Values(width: nat): nat {
    if width == 8 then 0x100 else if width == 16 then 0x1_0000 else if width == 32 then WORD else DOUBLE_WORD
  }

  /** `JEAIII_K` */
  method Short(b: array<char>, at: nat, u: nat) returns (end: nat)
    requires u < WORD && at + |Text(u)| <= b.Length
    modifies b
    ensures Wrote(old(b[..]), b[..], at, Text(u)) && end == at + |Text(u)|
  {
    hide Wrote, Padded, Text, Pow10;
    var k := L09(u);
    TensAre();
    TextIsPadded(u, k);
    Convert(b, at, k, u);
    end := at + k + 1;
  }

  /** `JEAIII_KX`: a number of up to eight more digits than `u` has. */
  method WithChunk(b: array<char>, at: nat, u: nat, x: nat) returns (end: nat)
    requires 0 < u < WORD && x < CHUNK && at + |Text(u)| + 8 <= b.Length
    modifies b
    ensures Wrote(old(b[..]), b[..], at, Text(u) + Padded(x, 8)) && end == at + |Text(u)| + 8
  {
    hide Wrote, Padded, Text, Pow10;
    TensAre();
    ghost var before := b[..];
    var k := Short(b, at, u);
    ghost var middle := b[..];
    Convert(b, k, 7, x);
    WroteThen(before, middle, b[..], at, Text(u), Padded(x, 8));
    end := k + 8;
  }

  /** A number that starts with `u` and goes on with the eight digits of `x` has this text. */
  lemma TextOfChunks(n: nat, u: nat, x: nat)
    requires u == n / CHUNK && x == n % CHUNK && u > 0
    ensures Text(n) == Text(u) + Padded(x, 8)
  {
    TensAre();
    TextSplit(n, 8);
  }

  /** `JEAIII_KYX`: the leading one to four digits and two chunks. */
  method WithChunks(b: array<char>, at: nat, u: nat, y: nat, x: nat) returns (end: nat)
    requires 0 < u < 10_000 && y < CHUNK && x < CHUNK && at + |Text(u)| + 16 <= b.Length
    modifies b
    ensures Wrote(old(b[..]), b[..], at, Text(u) + Padded(y, 8) + Padded(x, 8)) && end == at + |Text(u)| + 16
  {
    hide Wrote, Padded, Text, Pow10;
    TensAre();
    ghost var b0 := b[..];
    var k := L03(u);
    TextIsPadded(u, k);
    Convert(b, at, k, u);
    ghost var b1 := b[..];
    Convert(b, at + k + 1, 7, y);
    ghost var b2 := b[..];
    WroteThen(b0, b1, b2, at, Text(u), Padded(y, 8));
    Convert(b, at + k + 9, 7, x);
    WroteThen(b0, b2, b[..], at, Text(u) + Padded(y, 8), Padded(x, 8));
    end := at + k + 17;
  }

  /** What is left of a magnitude above the first chunk, and above the second if that does not fit a word. */
  lemma Chunks(m: nat)
    requires WORD <= m < DOUBLE_WORD
    ensures 0 < m / CHUNK && m % CHUNK < CHUNK
    ensures m / CHUNK >= WORD ==> 0 < m / CHUNK / CHUNK < 10_000 && m / CHUNK / CHUNK % WORD == m / CHUNK / CHUNK
  {
  }

  /** The part of `to_text_from_integer` after the sign, for a magnitude `m`. */
  method Magnitude(b: array<char>, at: nat, width: nat, m: nat) returns (end: nat)
    requires width in {8, 16, 32, 64} && m < Values(width) && at + |Text(m)| <= b.Length
    modifies b
    ensures Wrote(old(b[..]), b[..], at, Text(m)) && end == at + |Text(m)|
  {
    hide Wrote, Padded, Text, Pow10;
    var u := if width <= 32 then m % Values(width) else m % WORD;
    if width <= 32 || u == m {
      end := Short(b, at, u);
      return;
    }
    Chunks(m);
    var x := m % CHUNK;
    var t := m / CHUNK;
    TextOfChunks(m, t, x);
    u := t % WORD;
    if u == t {
      end := WithChunk(b, at, u, x);
      return;
    }
    var y := t % CHUNK;
    TextOfChunks(t, t / CHUNK, y);
    u := t / CHUNK % WORD;
    end := WithChunks(b, at, u, y, x);
  }

  method Minus(b: array<char>, at: nat)
    requires at < b.Length
    modifies b
    ensures Wrote(old(b[..]), b[..], at, "-")
  {
    b[at] := '-';
  }

  /** `to_text_from_integer`: writes exactly the decimal text of the value and returns where it ends. */
  method ToText(b: array<char>, at: nat, width: nat, signed: bool, i: int) returns (end: nat)
    requires InType(width, signed, i) && at + |SignedText(i)| <= b.Length
    modifies b
    ensures Wrote(old(b[..]), b[..], at, SignedText(i)) && end == at + |SignedText(i)|
  {
    hide Text, Wrote;
    var t := i % DOUBLE_WORD;
    if i < 0 {
      t := (0 - t) % DOUBLE_WORD;
      assert t == -i;
      ghost var before := b[..];
      Minus(b, at);
      ghost var middle := b[..];
      end := Magnitude(b, at + 1, width, t);
      WroteThen(before, middle, b[..], at, "-", Text(t));
    } else {
      end := Magnitude(b, at, width, t);
    }
  }

  /** Reads decimal text. */
  function Value(s: string): nat
    requires forall k :: 0 <= k < |s| ==> '0' <= s[k] <= '9'
  {
    if s == [] then 0 else 10 * Value(s[..|s| - 1]) + (s[|s| - 1] - '0') as nat
  }

  /** The text is the canonical one: reading it gives the number back, and only zero starts with a zero. */
  lemma {:induction false} TextReads(n: nat)
    ensures forall k :: 0 <= k < |Text(n)| ==> '0' <= Text(n)[k] <= '9'
    ensures Value(Text(n)) == n && (n > 0 ==> Text(n)[0] != '0')
    decreases n
  {
    if n < 10 {
      assert Text(n)[..0] == [];
    } else {
      TextReads(n / 10);
      assert Text(n)[..|Text(n)| - 1] == Text(n / 10);
    }
  }
}
