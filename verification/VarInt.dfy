/**
 Variable-length integers: base 128 with the low digits first, and the ZigZag form of signed ones.
 */
module VarInts {
  import opened Bits
  import opened Buffers

  const TWO32: nat := 0x1_0000_0000

  /** Seven bits a byte; the top bit says that more follow. */
  function Encode(n: nat): (s: seq<Byte>)
    ensures |s| > 0
  {
    if n < 128 then [n] else [n % 128 + 128] + Encode(n / 128)
  }

  datatype Decoded =
    | Value(n: nat, rest: seq<Byte>)
    | Abort      // the stream has ended
    | Undefined  // a shift by 32 bits or more

  /** The seven bits of a byte, moved up. */
  function Shifted(b: Byte, bit: nat): (r: nat)
    ensures r % Pow2(bit) == 0
  {
    NonNegativeProduct(b % 128, Pow2(bit));
    SplitUnique(b % 128 * Pow2(bit), Pow2(bit), b % 128, 0);
    b % 128 * Pow2(bit)
  }

  /** Reads bytes from `bit` up, on top of `v`. */
  function Decode(s: seq<Byte>, bit: nat, v: nat): (d: Decoded)
    ensures d.Value? ==> d.n < 0x1_0000_0000
    decreases |s|
  {
    if s == [] then Abort
    else if bit >= 32 then Undefined
    else
      var v' := Or(v, Shifted(s[0], bit) % 0x1_0000_0000);
      if s[0] >= 128 then Decode(s[1..], bit + 7, v') else Value(v' % 0x1_0000_0000, s[1..])
  }

  /** One byte, whose bits lie above those of `v`. */
  lemma {:induction false} DecodeByte(b: Byte, rest: seq<Byte>, bit: nat, v: nat)
    requires bit < 32 && v < Pow2(bit) && v + Shifted(b, bit) < TWO32
    ensures Decode([b] + rest, bit, v)
            == if b >= 128 then Decode(rest, bit + 7, v + Shifted(b, bit)) else Value(v + Shifted(b, bit), rest)
  {
    hide Or, Pow2, Shifted;
    assert ([b] + rest)[1..] == rest;
    OrApart(v, Shifted(b, bit), bit);
  }

  /** Decoding undoes encoding and stops where the encoding ends. */
  lemma {:induction false} DecodeEncode(n: nat, bit: nat, v: nat, rest: seq<Byte>)
    requires v < Pow2(bit) && v + n * Pow2(bit) < TWO32 && bit < 32 && bit % 7 == 0
    ensures Decode(Encode(n) + rest, bit, v) == Value(v + n * Pow2(bit), rest)
    decreases n
  {
    hide Decode, Encode, Pow2, Shifted;
    var low := n % 128;
    EncodeParts(n);
    DigitFits(n, v, Pow2(bit));
    ShiftedDigit(low, bit);
    if n < 128 {
      DecodeByte(n, rest, bit, v);
    } else {
      NextDigit(n, bit, v);
      DecodeEncode(n / 128, bit + 7, v + low * Pow2(bit), rest);
      DecodeByte(low + 128, Encode(n / 128) + rest, bit, v);
      assert [low + 128] + (Encode(n / 128) + rest) == Encode(n) + rest;
    }
  }

  lemma {:induction false} EncodeParts(n: nat)
    ensures Encode(n) == if n < 128 then [n] else [n % 128 + 128] + Encode(n / 128)
  {
  }

  /** Seven bits to a byte, the low ones first; every byte but the last has its top bit set. */
  lemma {:induction false} SevenBits(n: nat, i: nat)
    requires i < |Encode(n)|
    ensures Encode(n)[i] == n / Pow2(7 * i) % 128 + if i + 1 < |Encode(n)| then 128 else 0
    decreases i
  {
    hide Pow2;
    Pow2Zero();
    if i > 0 {
      SevenBits(n / 128, i - 1);
      SmallPowers();
      Pow2Add(7, 7 * (i - 1));
      QuotientTwice(n, 128, Pow2(7 * (i - 1)));
    }
  }

  /** No byte is spent on leading zeros. */
  lemma {:induction false} NoMoreBytes(n: nat)
    ensures n < Pow2(7 * |Encode(n)|) && (n >= 128 ==> n >= Pow2(7 * (|Encode(n)| - 1)))
  {
    SmallPowers();
    if n >= 128 {
      var k := |Encode(n / 128)|;
      NoMoreBytes(n / 128);
      Pow2Add(7, 7 * k);
      Pow2Add(7, 7 * (k - 1));
      if n / 128 < 128 {
        assert k == 1;
      }
    }
  }

  lemma {:induction false} ShiftedDigit(low: nat, bit: nat)
    requires low < 128
    ensures Shifted(low, bit) == Shifted(low + 128, bit) == low * Pow2(bit)
  {
    hide Pow2;
  }

  lemma {:induction false} DigitFits(n: nat, v: nat, p: nat)
    requires p > 0 && v < p && v + n * p < TWO32
    ensures 0 <= n % 128 * p && v + n % 128 * p < TWO32
  {
    var low, q := n % 128, n / 128;
    assert n == q * 128 + low;
    assert (q * 128 + low) * p == q * 128 * p + low * p && q * 128 * p >= 0 && low * p >= 0;
  }

  lemma {:induction false} NextDigit(n: nat, bit: nat, v: nat)
    requires n >= 128 && n * Pow2(bit) < TWO32 && bit % 7 == 0 && v < Pow2(bit)
    ensures bit + 7 < 32 && v + n % 128 * Pow2(bit) < Pow2(bit + 7)
    ensures n % 128 * Pow2(bit) + n / 128 * Pow2(bit + 7) == n * Pow2(bit)
  {
    hide Pow2;
    SmallPowers();
    Pow2Add(bit, 7);
    Digits(n, v, Pow2(bit));
    LargePowers();
    if bit >= 28 {
      Pow2Monotone(28, bit);
    }
  }

  lemma {:induction false} Digits(n: nat, v: nat, p: nat)
    requires n >= 128 && v < p
    ensures v + n % 128 * p < p * 128 && n % 128 * p + n / 128 * (p * 128) == n * p && n * p >= 128 * p
  {
    var low, q := n % 128, n / 128;
    assert n == q * 128 + low;
    Spread(q, low, p);
    FactorMonotone(low, 127, p);
    FactorMonotone(128, n, p);
  }

  lemma {:induction false} Spread(q: nat, low: nat, p: nat)
    ensures (q * 128 + low) * p == q * (p * 128) + low * p
  {
    assert q * (p * 128) == q * p * 128;
  }

  /** Numbers below 2^32 take five bytes at most. */
  lemma {:induction false} EncodeLength(n: nat, k: nat)
    requires k > 0 && n < Pow2(7 * k)
    ensures |Encode(n)| <= k
    decreases k
  {
    if n >= 128 {
      SmallPowers();
      Pow2Add(7, 7 * (k - 1));
      assert k > 1;
      EncodeLength(n / 128, k - 1);
    }
  }

  lemma {:induction false} AtMostFiveBytes(n: nat)
    requires n < TWO32
    ensures |Encode(n)| <= 5
  {
    hide Pow2;
    LargePowers();
    EncodeLength(n, 5);
  }

  // ----- signed -----

  predicate IsInt32(v: int) {
    -0x8000_0000 <= v < 0x8000_0000
  }

  /** `(v << 1) ^ (v >> 31)`, as an unsigned number */
  function ZigZag(v: int): nat
    requires IsInt32(v)
  {
    Xor((2 * v) % 0x1_0000_0000, if v < 0 then 0xFFFF_FFFF else 0)
  }

  /** `(v >> 1) ^ (~(v & 1) + 1)`: the sum is taken in 64 bits and the whole cut down to 32. */
  function UnZigZag(v: nat): (r: int)
    requires v < 0x1_0000_0000
    ensures IsInt32(r)
  {
    var x := Xor(v / 2, 0xFFFF_FFFF - v % 2 + 1) % 0x1_0000_0000;
    if x < 0x8000_0000 then x else x - 0x1_0000_0000
  }

  /** Small numbers of either sign become small numbers. */
  lemma {:induction false} ZigZagValue(v: int)
    requires IsInt32(v)
    ensures ZigZag(v) == if v < 0 then -2 * v - 1 else 2 * v
  {
    hide Pow2;
    LargePowers();
    if v < 0 {
      XorOnes((2 * v) % TWO32, 32);
    }
  }

  lemma {:induction false} UnZigZagValue(v: nat)
    requires v < TWO32
    ensures UnZigZag(v) == if v % 2 == 0 then v / 2 else -(v / 2) - 1
  {
    hide Pow2;
    LargePowers();
    if v % 2 == 0 {
      XorApart(v / 2, TWO32, 32);
    } else {
      XorOnes(v / 2, 32);
    }
  }

  lemma {:induction false} UnZigZagZigZag(v: int)
    requires IsInt32(v)
    ensures 0 <= ZigZag(v) < TWO32 && UnZigZag(ZigZag(v)) == v
  {
    hide ZigZag, UnZigZag;
    ZigZagValue(v);
    UnZigZagValue(ZigZag(v));
  }
}
