/**
 128-bit unsigned arithmetic on two 64-bit halves.
 */
module Arith128 {
  import opened Bits

  const W: nat := 0x1_0000_0000_0000_0000
  const M: nat := 0x1_0000_0000_0000_0000_0000_0000_0000_0000

  type U64 = x: int | 0 <= x < 0x1_0000_0000_0000_0000

  lemma {:induction false} Widths()
    ensures Pow2(32) == 0x1_0000_0000 && Pow2(64) == W && Pow2(128) == M == W * W && Pow2(127) * 2 == M
  {
    hide Pow2;
    SmallPowers();
    LargePowers();
    Pow2Add(32, 32);
    Pow2Add(64, 64);
    Pow2Add(1, 127);
  }

  // ----- modular arithmetic -----

  lemma {:induction false} ModUnique(a: int, d: nat, q: int, r: nat)
    requires r < d && a == q * d + r
    ensures a % d == r
  {
    var q', r' := a / d, a % d;
    assert a == q' * d + r' && (q - q') * d == r' - r;
    SmallFactor(q - q', d);
  }

  lemma {:induction false} ModAdd(a: int, b: int, d: nat)
    requires d > 0
    ensures (a % d + b) % d == (a + b) % d
  {
    var s := a % d + b;
    assert a == (a / d) * d + a % d && s == (s / d) * d + s % d;
    assert a + b == (a / d + s / d) * d + s % d;
    ModUnique(a + b, d, a / d + s / d, s % d);
  }

  lemma {:induction false} ModMul(a: int, b: int, d: nat)
    requires d > 0
    ensures ((a % d) * b) % d == (a * b) % d
  {
    var s := (a % d) * b;
    assert a == (a / d) * d + a % d && s == (s / d) * d + s % d;
    assert a * b == ((a / d) * d) * b + s;
    assert ((a / d) * d) * b == ((a / d) * b) * d;
    assert a * b == ((a / d) * b + s / d) * d + s % d;
    ModUnique(a * b, d, (a / d) * b + s / d, s % d);
  }

  // ----- halves -----

  function Join(hi: U64, lo: U64): (v: nat)
    ensures v < M
  {
    hi * 0x1_0000_0000_0000_0000 + lo
  }

  /** The carry out of the low half is seen in the sum being smaller than what it was added to. */
  lemma {:induction false} AddCarry(hi: U64, lo: U64, hi2: U64, lo2: U64)
    ensures var sum := (lo + lo2) % W;
            var carry := if sum < lo then 1 else 0;
            Join((hi + (hi2 + carry) % W) % W, sum) == (Join(hi, lo) + Join(hi2, lo2)) % M
  {
    LowSum(lo, lo2);
    var sum := (lo + lo2) % W;
    var carry := if sum < lo then 1 else 0;
    HighSum(hi, hi2, carry);
    var high := (hi + (hi2 + carry) % W) % W;
    ModUnique(Join(hi, lo) + Join(hi2, lo2), M, if hi + hi2 + carry == high then 0 else 1, Join(high, sum));
  }

  lemma {:induction false} LowSum(lo: U64, lo2: U64)
    ensures var sum := (lo + lo2) % W;
            lo + lo2 == if sum < lo then W + sum else sum
  {
  }

  lemma {:induction false} HighSum(hi: U64, hi2: U64, carry: nat)
    requires carry <= 1
    ensures var high := (hi + (hi2 + carry) % W) % W;
            hi + hi2 + carry == high || hi + hi2 + carry == W + high
  {
  }

  lemma {:induction false} IncHalves(hi: U64, lo: U64)
    ensures var l := (lo + 1) % W;
            Join((hi + if l == 0 then 1 else 0) % W, l) == (Join(hi, lo) + 1) % M
  {
    var l := (lo + 1) % W;
    assert lo + 1 == if l == 0 then W else l;
    if l == 0 && hi == W - 1 {
      ModUnique(M, M, 1, 0);
    } else {
      ModUnique(Join(hi, lo) + 1, M, 0, Join(hi, lo) + 1);
    }
  }

  /** The complement of both halves, plus one, is the two's complement. */
  lemma {:induction false} NegHalves(hi: U64, lo: U64)
    ensures (Join(W - 1 - hi, W - 1 - lo) + 1) % M == (M - Join(hi, lo)) % M
  {
  }

  lemma {:induction false} Compare(hi: U64, lo: U64, hi2: U64, lo2: U64)
    ensures (if hi == hi2 then lo < lo2 else hi < hi2) <==> Join(hi, lo) < Join(hi2, lo2)
    ensures (hi == hi2 && lo == lo2) <==> Join(hi, lo) == Join(hi2, lo2)
  {
  }

  // ----- shifts across the halves -----

  /** `x << n` in 64 bits. */
  function Shl64(x: U64, n: nat): U64 {
    (x * Pow2(n)) % W
  }

  function Shr64(x: U64, n: nat): U64 {
    Shrunk(x, Pow2(n));
    x / Pow2(n)
  }

  function Not64(x: U64): U64 {
    W - 1 - x
  }

  lemma {:induction false} Shrunk(x: nat, p: nat)
    requires p > 0
    ensures 0 <= x / p <= x
  {
    var q := x / p;
    assert x == q * p + x % p;
    NonNegative(x, p);
    if q > 0 {
      AtLeast(p, q);
      assert q * p == p * q;
    }
  }

  lemma {:induction false} PowersOfWord(n: nat)
    requires n <= 64
    ensures Pow2(n) * Pow2(64 - n) == W && Pow2(n) <= W && Pow2(64 - n) <= W
  {
    Widths();
    Pow2Add(n, 64 - n);
    AtLeast(Pow2(n), Pow2(64 - n));
    AtLeast(Pow2(64 - n), Pow2(n));
  }

  function Or64(a: U64, b: U64): U64 {
    Widths();
    OrBounded(a, b, 64);
    Or(a, b)
  }

  function And64(a: U64, b: U64): U64 {
    AndBounded(a, b);
    And(a, b)
  }

  lemma {:induction false} AndBounded(a: nat, b: nat)
    ensures And(a, b) <= a
    decreases a
  {
    if a != 0 && b != 0 {
      AndBounded(a / 2, b / 2);
    }
  }

  /** The bits of `lo` that a shift by `n` moves into the high half. */
  lemma {:induction false} CarriedUp(lo: U64, n: nat)
    requires 0 < n < 64
    ensures Shr64(And64(lo, Not64(Shr64(W - 1, n))), 64 - n) == lo / Pow2(64 - n)
  {
    hide Pow2, And;
    var p, q := Pow2(n), Pow2(64 - n);
    PowersOfWord(n);
    assert W - 1 == (q - 1) * p + (p - 1);
    SplitUnique(W - 1, p, q - 1, p - 1);
    Widths();
    AndHigh(lo, 64 - n, n);
    assert lo == (lo / q) * q + lo % q;
    SplitUnique(lo - lo % q, q, lo / q, 0);
  }

  /** What a product with `p` leaves of the low half, and what it carries. */
  lemma {:induction false} ShlLow(lo: nat, p: nat, q: nat, w: nat)
    requires p > 0 && q > 0 && p * q == w && lo < w
    ensures 0 <= lo / q < p && lo * p == (lo / q) * w + (lo * p) % w
  {
    QuotientBelow(lo, p, q, w);
    ShlSplit(lo / q, lo % q, p, q, w);
  }

  lemma {:induction false} QuotientBelow(lo: nat, p: nat, q: nat, w: nat)
    requires p > 0 && q > 0 && p * q == w && lo < w
    ensures 0 <= lo / q < p && lo == lo / q * q + lo % q
  {
    NonNegative(lo, q);
    LessFactor(lo / q, p, q);
  }

  lemma {:induction false} ShlSplit(t: nat, s: nat, p: nat, q: nat, w: nat)
    requires s < q && p > 0 && p * q == w
    ensures (t * q + s) * p == t * w + s * p && ((t * q + s) * p) % w == s * p
  {
    Distribute(t, q, s, p, w);
    SmallProduct(s, p, q, w);
    ModUnique((t * q + s) * p, w, t, s * p);
  }

  lemma {:induction false} SmallProduct(s: nat, p: nat, q: nat, w: nat)
    requires s < q && p > 0 && p * q == w
    ensures 0 <= s * p < w
  {
    FactorMonotone(s + 1, q, p);
    NonNegativeProduct(s, p);
    assert (s + 1) * p == s * p + p;
  }

  lemma {:induction false} Distribute(t: nat, q: nat, s: nat, p: nat, w: nat)
    requires p * q == w
    ensures (t * q + s) * p == t * w + s * p
  {
    calc {
      (t * q + s) * p;
      t * q * p + s * p;
      t * (q * p) + s * p;
      { assert q * p == w; }
      t * w + s * p;
    }
  }

  /** What a product with `p` leaves of the high half is a multiple of `p`. */
  lemma {:induction false} ShlHigh(hi: nat, p: nat, q: nat, w: nat)
    requires p > 0 && q > 0 && p * q == w
    ensures ((hi * p) % w) % p == 0 && (hi * p) % w + p <= w
  {
    var e, h := (hi * p) / w, (hi * p) % w;
    assert hi * p == e * w + h;
    var g := hi - e * q;
    assert (hi - e * q) * p == hi * p - e * (p * q);
    ModUnique(h, p, g, 0);
    assert q * p == p * q;
    LessFactor(g, q, p);
    assert (q - g) * p == p * q - g * p;
    AtLeast(q - g, p);
  }

  lemma {:induction false} ShlParts(hi: nat, lo: nat, p: nat, q: nat)
    requires p > 0 && q > 0 && p * q == W && hi < W && lo < W
    ensures 0 <= lo / q < p && (hi * p) % W + lo / q < W && ((hi * p) % W) % p == 0
    ensures ((hi * p) % W + lo / q) * W + (lo * p) % W == ((hi * W + lo) * p) % M
  {
    ShlLow(lo, p, q, W);
    ShlHigh(hi, p, q, W);
    var e, h := (hi * p) / W, (hi * p) % W;
    assert (hi * W + lo) * p == (hi * p) * W + lo * p;
    ModUnique((hi * W + lo) * p, M, e, (h + lo / q) * W + (lo * p) % W);
  }

  lemma {:induction false} ShlHalves(hi: U64, lo: U64, n: nat)
    requires 0 < n < 64
    ensures Join(Or64(Shl64(hi, n), Shr64(And64(lo, Not64(Shr64(W - 1, n))), 64 - n)), Shl64(lo, n))
            == (Join(hi, lo) * Pow2(n)) % M
  {
    hide Pow2, Or, And, Shr64, And64, Not64;
    var p, q := Pow2(n), Pow2(64 - n);
    PowersOfWord(n);
    CarriedUp(lo, n);
    ShlParts(hi, lo, p, q);
    OrApart(lo / q, (hi * p) % W, n);
  }

  /** The bits of `hi` that a shift by `n` moves into the low half. */
  lemma {:induction false} CarriedDown(hi: U64, n: nat)
    requires 0 < n < 64
    ensures 0 <= (hi % Pow2(n)) * Pow2(64 - n) <= W - Pow2(64 - n)
    ensures Shl64(And64(hi, Not64(Shl64(W - 1, n))), 64 - n) == (hi % Pow2(n)) * Pow2(64 - n)
  {
    hide Pow2, And;
    var p, q := Pow2(n), Pow2(64 - n);
    PowersOfWord(n);
    assert (W - 1) * p == (p - 1) * W + (W - p);
    ModUnique((W - 1) * p, W, p - 1, W - p);
    AndLow(hi, n);
    var r := hi % p;
    FactorMonotone(r + 1, p, q);
    assert (r + 1) * q == r * q + q && r * q >= 0;
    ModUnique(r * q, W, 0, r * q);
  }

  lemma {:induction false} ShrParts(hi: nat, lo: nat, p: nat, q: nat, w: nat)
    requires p > 0 && q > 0 && p * q == w && lo < w
    ensures 0 <= lo / p < q && (hi / p) * w + (hi % p) * q + lo / p == (hi * w + lo) / p
  {
    var t, e, r := lo / p, hi / p, hi % p;
    ShrLow(lo, p, q, w);
    SplitParts(hi, p, q, w);
    Regroup(hi, t, lo % p, p, q, w);
    SplitUnique(hi * w + lo, p, hi * q + t, lo % p);
  }

  lemma {:induction false} ShrLow(lo: nat, p: nat, q: nat, w: nat)
    requires p > 0 && q > 0 && p * q == w && lo < w
    ensures 0 <= lo / p < q && lo == (lo / p) * p + lo % p
  {
    var t := lo / p;
    assert lo == t * p + lo % p;
    assert q * p == p * q;
    LessFactor(t, q, p);
  }

  lemma {:induction false} SplitParts(hi: nat, p: nat, q: nat, w: nat)
    requires p > 0 && p * q == w
    ensures hi * q == (hi / p) * w + (hi % p) * q
  {
    var e, r := hi / p, hi % p;
    assert hi == e * p + r;
    calc {
      hi * q;
      (e * p + r) * q;
      e * p * q + r * q;
      e * (p * q) + r * q;
    }
  }

  lemma {:induction false} Regroup(hi: nat, t: nat, s: nat, p: nat, q: nat, w: nat)
    requires p * q == w
    ensures hi * w + (t * p + s) == (hi * q + t) * p + s
  {
    calc {
      (hi * q + t) * p;
      hi * q * p + t * p;
      hi * (q * p) + t * p;
      { assert q * p == w; }
      hi * w + t * p;
    }
  }

  lemma {:induction false} ShrHalves(hi: U64, lo: U64, n: nat)
    requires 0 < n < 64
    ensures Join(Shr64(hi, n), Or64(Shr64(lo, n), Shl64(And64(hi, Not64(Shl64(W - 1, n))), 64 - n)))
            == Join(hi, lo) / Pow2(n)
  {
    hide Pow2, Or, And, Shl64, And64, Not64;
    var p, q := Pow2(n), Pow2(64 - n);
    PowersOfWord(n);
    CarriedDown(hi, n);
    ShrParts(hi, lo, p, q, W);
    ModUnique((hi % p) * q, q, hi % p, 0);
    OrApart(lo / p, (hi % p) * q, 64 - n);
  }

  // ----- products of 32-bit limbs -----

  const B: nat := 0x1_0000_0000

  function Limb(x: U64, i: nat): (r: nat)
    requires i < 2
    ensures r < 0x1_0000_0000
  {
    if i == 0 then x % 0x1_0000_0000 else x / 0x1_0000_0000
  }

  lemma {:induction false} LimbProduct(a: nat, b: nat)
    requires a < B && b < B
    ensures 0 <= a * b < W && a * b <= (B - 1) * (B - 1)
  {
    FactorMonotone(a, B - 1, b);
    FactorMonotone(b, B - 1, B - 1);
    assert b * (B - 1) == (B - 1) * b;
  }

  function Row(a: nat, b0: nat, b1: nat, b2: nat, b3: nat): nat {
    a * b0 + a * b1 * 0x1_0000_0000 + a * b2 * 0x1_0000_0000_0000_0000 + a * b3 * 0x1_0000_0000_0000_0000_0000_0000
  }

  function Limbs(b0: nat, b1: nat, b2: nat, b3: nat): nat {
    b0 + b1 * 0x1_0000_0000 + b2 * 0x1_0000_0000_0000_0000 + b3 * 0x1_0000_0000_0000_0000_0000_0000
  }

  lemma {:induction false} RowIsProduct(a: nat, b0: nat, b1: nat, b2: nat, b3: nat)
    ensures a * Limbs(b0, b1, b2, b3) == Row(a, b0, b1, b2, b3)
  {
  }

  /** The low four diagonals of the product of two numbers of four limbs. */
  function Diagonals(a0: nat, a1: nat, a2: nat, a3: nat, b0: nat, b1: nat, b2: nat, b3: nat): nat {
    (((a3 * b0 + a2 * b1 + a1 * b2 + a0 * b3) * 0x1_0000_0000 + a2 * b0 + a1 * b1 + a0 * b2) * 0x1_0000_0000
     + a1 * b0 + a0 * b1) * 0x1_0000_0000 + a0 * b0
  }

  lemma {:induction false} ProductOfLimbs(a0: nat, a1: nat, a2: nat, a3: nat, b0: nat, b1: nat, b2: nat, b3: nat)
    ensures Diagonals(a0, a1, a2, a3, b0, b1, b2, b3) % M == (Limbs(a0, a1, a2, a3) * Limbs(b0, b1, b2, b3)) % M
  {
    var b := Limbs(b0, b1, b2, b3);
    RowIsProduct(a0, b0, b1, b2, b3);
    RowIsProduct(a1, b0, b1, b2, b3);
    RowIsProduct(a2, b0, b1, b2, b3);
    RowIsProduct(a3, b0, b1, b2, b3);
    RowIsProduct(b, a0, a1, a2, a3);
    var low := Diagonals(a0, a1, a2, a3, b0, b1, b2, b3);
    var high := a1 * b3 + a2 * b2 + a3 * b1 + (a2 * b3 + a3 * b2) * B + a3 * b3 * W;
    assert Limbs(a0, a1, a2, a3) * b == high * M + low;
    ModAdd(high * M, low, M);
    ModUnique(high * M, M, high, 0);
  }

  lemma {:induction false} LimbsOf(hi: U64, lo: U64)
    ensures Limbs(Limb(lo, 0), Limb(lo, 1), Limb(hi, 0), Limb(hi, 1)) == Join(hi, lo)
  {
  }

  /** The product of two limbs fits into 64 bits. */
  function Times(a: nat, b: nat): U64
    requires a < 0x1_0000_0000 && b < 0x1_0000_0000
  {
    LimbProduct(a, b);
    a * b
  }

  lemma {:induction false} MulHalves(hi: U64, lo: U64, hi2: U64, lo2: U64)
    ensures var a0, a1, a2, a3 := Limb(lo, 0), Limb(lo, 1), Limb(hi, 0), Limb(hi, 1);
            var b0, b1, b2, b3 := Limb(lo2, 0), Limb(lo2, 1), Limb(hi2, 0), Limb(hi2, 1);
            ((((Times(a3, b0) + Times(a2, b1) + Times(a1, b2) + Times(a0, b3)) * 0x1_0000_0000
               + Times(a2, b0) + Times(a1, b1) + Times(a0, b2)) * 0x1_0000_0000
              + Times(a1, b0) + Times(a0, b1)) * 0x1_0000_0000 + Times(a0, b0)) % M
            == (Join(hi, lo) * Join(hi2, lo2)) % M
  {
    hide Limb, Limbs;
    LimbsOf(hi, lo);
    LimbsOf(hi2, lo2);
    ProductOfLimbs(Limb(lo, 0), Limb(lo, 1), Limb(hi, 0), Limb(hi, 1), Limb(lo2, 0), Limb(lo2, 1), Limb(hi2, 0),
        Limb(hi2, 1));
  }
}
