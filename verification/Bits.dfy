/**
 Bitwise operations on natural numbers, and what they come to when the bits are known to be apart.
 */
module Bits {

  function Pow2(k: nat): (p: nat)
    ensures p > 0
  {
    if k == 0 then 1 else 2 * Pow2(k - 1)
  }

  lemma {:induction false} Pow2Add(j: nat, k: nat)
    ensures Pow2(j + k) == Pow2(j) * Pow2(k)
    decreases j
  {
    if j > 0 {
      Pow2Add(j - 1, k);
    }
  }

  lemma {:induction false} SmallPowers()
    ensures Pow2(1) == 2 && Pow2(7) == 0x80 && Pow2(8) == 0x100
  {
    assert Pow2(2) == 4 && Pow2(4) == 16 && Pow2(6) == 64;
  }

  lemma {:induction false} LargePowers()
    ensures Pow2(28) == 0x1000_0000 && Pow2(32) == 0x1_0000_0000 && Pow2(35) == 0x8_0000_0000
  {
    hide Pow2;
    SmallPowers();
    Pow2Add(7, 7);
    Pow2Add(14, 14);
    Pow2Add(28, 7);
    Pow2Add(8, 8);
    Pow2Add(16, 16);
  }

  lemma {:induction false} Pow2Monotone(j: nat, k: nat)
    requires j <= k
    ensures Pow2(j) <= Pow2(k)
  {
    Pow2Add(j, k - j);
    AtLeast(Pow2(k - j), Pow2(j));
    assert Pow2(j) * Pow2(k - j) == Pow2(k - j) * Pow2(j);
  }

  function Or(a: nat, b: nat): nat {
    if a == 0 then b
    else if b == 0 then a
    else 2 * Or(a / 2, b / 2) + (if a % 2 == 1 || b % 2 == 1 then 1 else 0)
  }

  function And(a: nat, b: nat): nat {
    if a == 0 || b == 0 then 0
    else 2 * And(a / 2, b / 2) + (if a % 2 == 1 && b % 2 == 1 then 1 else 0)
  }

  function Xor(a: nat, b: nat): nat {
    if a == 0 then b
    else if b == 0 then a
    else 2 * Xor(a / 2, b / 2) + (if a % 2 != b % 2 then 1 else 0)
  }

  // ----- a number as high and low part -----

  lemma {:induction false} DivPow2(a: nat, k: nat)
    requires k > 0
    ensures a / Pow2(k) == (a / 2) / Pow2(k - 1) && a % Pow2(k) == 2 * ((a / 2) % Pow2(k - 1)) + a % 2
  {
    var p, h := Pow2(k - 1), a / 2;
    assert a == 2 * h + a % 2 && h == (h / p) * p + h % p;
    SplitUnique(a, 2 * p, h / p, 2 * (h % p) + a % 2);
  }

  lemma {:induction false} SplitUnique(a: nat, d: nat, q: nat, r: nat)
    requires d > 0 && r < d && a == q * d + r
    ensures a / d == q && a % d == r
  {
    var q', r' := a / d, a % d;
    assert a == q' * d + r' && (q - q') * d == r' - r;
    SmallFactor(q - q', d);
  }

  lemma {:induction false} SmallFactor(k: int, d: nat)
    requires 0 - d < k * d < d
    ensures k == 0
  {
    assert (-k) * d == -(k * d);
    if k > 0 {
      AtLeast(k, d);
    } else if k < 0 {
      AtLeast(-k, d);
    }
  }

  lemma {:induction false} LessFactor(a: int, b: int, c: nat)
    requires a * c < b * c
    ensures a < b
  {
    assert a * c == b * c + (a - b) * c;
    if a > b {
      AtLeast(a - b, c);
    }
  }

  lemma {:induction false} AtLeast(n: nat, d: nat)
    requires n > 0
    ensures n * d >= d
  {
    assert n * d == (n - 1) * d + d;
  }

  lemma {:induction false} FactorMonotone(a: nat, b: nat, c: nat)
    requires a <= b
    ensures a * c <= b * c
  {
    assert b * c == a * c + (b - a) * c;
  }

  lemma {:induction false} NonNegativeProduct(a: nat, b: nat)
    ensures a * b >= 0
  {
  }

  lemma {:induction false} DivTwice(a: nat, w: nat, p: nat)
    requires w > 0 && p > 0
    ensures w * p > 0 && a / w / p == a / (w * p)
  {
    var h, l := a / w, a % w;
    var q, r := h / p, h % p;
    assert a == h * w + l && h == q * p + r && w * p > 0;
    calc {
      a;
      (q * p + r) * w + l;
      q * p * w + r * w + l;
      q * (p * w) + (r * w + l);
      { assert p * w == w * p; }
      q * (w * p) + (r * w + l);
    }
    assert (p - r) * w == p * w - r * w;
    AtLeast(p - r, w);
    NonNegative(a, w);
    NonNegative(h, p);
    SplitUnique(a, w * p, q, r * w + l);
  }

  lemma {:induction false} QuotientTwice(a: nat, w: nat, p: nat)
    requires w > 0 && p > 0
    ensures w * p > 0 && a / w / p == a / (w * p)
  {
    DivTwice(a, w, p);
  }

  lemma {:induction false} Pow2Zero()
    ensures Pow2(0) == 1
  {
  }

  lemma {:induction false} NonNegative(a: nat, d: nat)
    requires d > 0
    ensures a / d >= 0
  {
    var q := a / d;
    assert a == q * d + a % d;
    LessFactor(-1, q, d);
  }

  /** `a` has only bits below `k` and `b` only bits from `k` up. */
  lemma {:induction false} OrApart(a: nat, b: nat, k: nat)
    requires a < Pow2(k) && b % Pow2(k) == 0
    ensures Or(a, b) == Or(b, a) == a + b
    decreases k
  {
    if k > 0 {
      DivPow2(b, k);
      OrApart(a / 2, b / 2, k - 1);
    }
  }

  lemma {:induction false} OrBounded(a: nat, b: nat, k: nat)
    requires a < Pow2(k) && b < Pow2(k)
    ensures Or(a, b) < Pow2(k)
    decreases k
  {
    if k > 0 {
      OrBounded(a / 2, b / 2, k - 1);
    }
  }

  /** Two numbers in two halves each. */
  lemma {:induction false} OrHalves(a: nat, b: nat, c: nat, d: nat, k: nat)
    requires b < Pow2(k) && d < Pow2(k)
    ensures Or(a * Pow2(k) + b, c * Pow2(k) + d) == Or(a, c) * Pow2(k) + Or(b, d)
    decreases k
  {
    if k > 0 {
      OrHalves(a, b / 2, c, d / 2, k - 1);
      OrHalvesStep(a, b, c, d, Pow2(k - 1));
    }
  }

  lemma {:induction false} OrHalvesStep(a: nat, b: nat, c: nat, d: nat, p: nat)
    requires Or(a * p + b / 2, c * p + d / 2) == Or(a, c) * p + Or(b / 2, d / 2)
    ensures Or(a * (2 * p) + b, c * (2 * p) + d) == Or(a, c) * (2 * p) + Or(b, d)
  {
    hide Or;
    Half(a, b, p);
    Half(c, d, p);
    OrStep(a * (2 * p) + b, c * (2 * p) + d);
    OrStep(b, d);
    assert 2 * (Or(a, c) * p) == Or(a, c) * (2 * p);
  }

  lemma {:induction false} Half(a: nat, b: nat, p: nat)
    ensures (a * (2 * p) + b) / 2 == a * p + b / 2 && (a * (2 * p) + b) % 2 == b % 2
  {
    assert a * (2 * p) == 2 * (a * p);
  }

  lemma {:induction false} OrStep(a: nat, b: nat)
    ensures Or(a, b) == 2 * Or(a / 2, b / 2) + (if a % 2 == 1 || b % 2 == 1 then 1 else 0)
  {
  }

  // ----- masks -----

  /** The bits below `k`. */
  lemma {:induction false} AndLow(a: nat, k: nat)
    ensures And(a, Pow2(k) - 1) == a % Pow2(k)
    decreases k
  {
    if k > 0 {
      DivPow2(a, k);
      AndLow(a / 2, k - 1);
      assert (Pow2(k) - 1) / 2 == Pow2(k - 1) - 1;
    }
  }

  /** The bits from `k` up to `k + n`. */
  lemma {:induction false} AndHigh(a: nat, k: nat, n: nat)
    requires a < Pow2(k + n)
    ensures Pow2(k) <= Pow2(k + n) && And(a, Pow2(k + n) - Pow2(k)) == a - a % Pow2(k)
    decreases k
  {
    hide And;
    if k == 0 {
      AndLow(a, n);
      SplitUnique(a, Pow2(n), 0, a);
    } else {
      var p, q := Pow2(k - 1), Pow2(k - 1 + n);
      assert Pow2(k) == 2 * p && Pow2(k + n) == 2 * q by { assert k + n - 1 == k - 1 + n; }
      AndHigh(a / 2, k - 1, n);
      DivPow2(a, k);
      AndStep(a, 2 * q - 2 * p, q - p);
    }
  }

  lemma {:induction false} AndStep(a: nat, b: nat, c: nat)
    requires b == 2 * c
    ensures And(a, b) == 2 * And(a / 2, c)
  {
  }

  lemma {:induction false} XorOnes(a: nat, k: nat)
    requires a < Pow2(k)
    ensures Xor(a, Pow2(k) - 1) == Pow2(k) - 1 - a
    decreases k
  {
    if k > 0 {
      XorOnes(a / 2, k - 1);
      assert (Pow2(k) - 1) / 2 == Pow2(k - 1) - 1;
      assert Pow2(k) - 1 != 0;
    }
  }

  lemma {:induction false} XorApart(a: nat, b: nat, k: nat)
    requires a < Pow2(k) && b % Pow2(k) == 0
    ensures Xor(a, b) == a + b
    decreases k
  {
    if k > 0 {
      DivPow2(b, k);
      XorApart(a / 2, b / 2, k - 1);
    }
  }

  /** A mask below 2^k looks at the bits below `k` only. */
  lemma {:induction false} AndBelowBit(a: nat, m: nat, k: nat)
    requires k > 0 && And(a / 2, m / 2) == And(a / 2 % Pow2(k - 1), m / 2)
    ensures And(a, m) == And(a % Pow2(k), m)
  {
    hide And, Pow2;
    DivPow2(a, k);
    AndBit(a, m);
    AndBit(2 * (a / 2 % Pow2(k - 1)) + a % 2, m);
  }

  lemma {:induction false} AndBelow(a: nat, m: nat, k: nat)
    requires m < Pow2(k)
    ensures And(a, m) == And(a % Pow2(k), m)
    decreases k
  {
    if k == 0 {
      hide And;
      AndZero(a);
      AndZero(0);
    } else {
      assert m / 2 < Pow2(k - 1);
      AndBelow(a / 2, m / 2, k - 1);
      AndBelowBit(a, m, k);
    }
  }

  /** Bit `k` of a number. */
  predicate BitAt(a: nat, k: nat)
    decreases k
  {
    if k == 0 then a % 2 == 1 else BitAt(a / 2, k - 1)
  }

  lemma {:induction false} BitAtIs(a: nat, k: nat)
    ensures BitAt(a, k) <==> a / Pow2(k) % 2 == 1
    decreases k
  {
    if k > 0 {
      BitAtIs(a / 2, k - 1);
      QuotientTwice(a, 2, Pow2(k - 1));
    }
  }

  /** The operations work bit by bit. */
  lemma {:induction false} BitByBit(a: nat, b: nat, k: nat)
    ensures BitAt(Or(a, b), k) <==> BitAt(a, k) || BitAt(b, k)
    ensures BitAt(And(a, b), k) <==> BitAt(a, k) && BitAt(b, k)
    ensures BitAt(Xor(a, b), k) <==> BitAt(a, k) != BitAt(b, k)
    decreases k
  {
    NoBits(k);
    LowBitOfOr(a, b);
    LowBitOfAnd(a, b);
    LowBitOfXor(a, b);
    if k > 0 {
      BitByBit(a / 2, b / 2, k - 1);
    }
  }

  lemma {:induction false} NoBits(k: nat)
    ensures !BitAt(0, k)
    decreases k
  {
    if k > 0 {
      NoBits(k - 1);
    }
  }

  lemma {:induction false} LowBitOfOr(a: nat, b: nat)
    ensures Or(a, b) % 2 == (if a % 2 == 1 || b % 2 == 1 then 1 else 0) && Or(a, b) / 2 == Or(a / 2, b / 2)
  {
    hide Or;
    OrStep(a, b);
    HalfAndBit(Or(a / 2, b / 2), if a % 2 == 1 || b % 2 == 1 then 1 else 0);
  }

  lemma {:induction false} HalfAndBit(half: nat, bit: nat)
    requires bit <= 1
    ensures (2 * half + bit) % 2 == bit && (2 * half + bit) / 2 == half
  {
  }

  lemma {:induction false} LowBitOfAnd(a: nat, b: nat)
    ensures And(a, b) % 2 == (if a % 2 == 1 && b % 2 == 1 then 1 else 0) && And(a, b) / 2 == And(a / 2, b / 2)
  {
    hide And;
    AndBit(a, b);
    HalfAndBit(And(a / 2, b / 2), if a % 2 == 1 && b % 2 == 1 then 1 else 0);
  }

  lemma {:induction false} LowBitOfXor(a: nat, b: nat)
    ensures Xor(a, b) % 2 == (if a % 2 != b % 2 then 1 else 0) && Xor(a, b) / 2 == Xor(a / 2, b / 2)
  {
    hide Xor;
    XorBit(a, b);
    HalfAndBit(Xor(a / 2, b / 2), if a % 2 != b % 2 then 1 else 0);
  }

  lemma {:induction false} XorBit(a: nat, b: nat)
    ensures Xor(a, b) == 2 * Xor(a / 2, b / 2) + if a % 2 != b % 2 then 1 else 0
  {
    if a == 0 {
      assert Xor(0, b / 2) == b / 2;
    } else if b == 0 {
      assert Xor(a / 2, 0) == a / 2;
    }
  }

  lemma {:induction false} AndZero(a: nat)
    ensures And(a, 0) == 0
  {
  }

  lemma {:induction false} AndBit(a: nat, b: nat)
    ensures And(a, b) == 2 * And(a / 2, b / 2) + if a % 2 == 1 && b % 2 == 1 then 1 else 0
  {
  }
}
