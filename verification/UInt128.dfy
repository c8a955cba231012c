/**
 The class uint128: compound operators that work in place on two 64-bit halves. Operands are objects
 too, and may be the object that is changed.
 */
module UInt128s {
  import opened Bits
  import opened Buffers
  import opened Arith128
  import opened Decimal

  class UInt128 {
    var hi: U64
    var lo: U64

    ghost function Value(): (v: nat)
      reads this
      ensures v < M
    {
      Join(hi, lo)
    }

    constructor (hi: U64, lo: U64)
      ensures this.hi == hi && this.lo == lo
    {
      this.hi, this.lo := hi, lo;
    }

    constructor Copy(u: UInt128)
      ensures Value() == u.Value()
    {
      hi, lo := u.hi, u.lo;
    }

    predicate Equals(o: UInt128)
      reads this, o
      ensures Equals(o) <==> Value() == o.Value()
    {
      Compare(hi, lo, o.hi, o.lo);
      hi == o.hi && lo == o.lo
    }

    predicate Less(o: UInt128)
      reads this, o
      ensures Less(o) <==> Value() < o.Value()
    {
      Compare(hi, lo, o.hi, o.lo);
      if hi == o.hi then lo < o.lo else hi < o.hi
    }

    predicate NotLess(o: UInt128)
      reads this, o
      ensures NotLess(o) <==> Value() >= o.Value()
    {
      Equals(o) || o.Less(this)
    }

    predicate IsZero()
      reads this
      ensures IsZero() <==> Value() == 0
    {
      !(hi != 0 || lo != 0)
    }

    /** `to_integer`: the low 32 bits. */
    function ToInteger(): (n: nat)
      reads this
      ensures Value() < 0x1_0000_0000 ==> n == Value()
    {
      lo % 0x1_0000_0000
    }

    method Increment()
      modifies this
      ensures Value() == (old(Value()) + 1) % M
    {
      hide Join;
      IncHalves(hi, lo);
      lo := (lo + 1) % W;
      hi := (hi + if lo == 0 then 1 else 0) % W;
    }

    method Negated() returns (r: UInt128)
      ensures fresh(r) && r.Value() == (M - Value()) % M
    {
      hide Join;
      NegHalves(hi, lo);
      r := new UInt128(Not64(hi), Not64(lo));
      r.Increment();
    }

    method AddAssign(u: UInt128)
      modifies this
      ensures Value() == (old(Value()) + old(u.Value())) % M
    {
      hide Join;
      AddCarry(hi, lo, u.hi, u.lo);
      var before := lo;
      lo := (lo + u.lo) % W;
      hi := (hi + (u.hi + if lo < before then 1 else 0) % W) % W;
    }

    method SubAssign(u: UInt128)
      modifies this
      ensures Value() == (old(Value()) - old(u.Value())) % M
    {
      var neg := u.Negated();
      ModAdd(M - u.Value(), Value(), M);
      ModAdd(M, Value() - u.Value(), M);
      AddAssign(neg);
    }

    method OrAssign(u: UInt128)
      modifies this
      ensures Value() == Or(old(Value()), old(u.Value()))
    {
      hide Or, Pow2;
      Widths();
      OrHalves(hi, lo, u.hi, u.lo, 64);
      hi := Or64(hi, u.hi);
      lo := Or64(lo, u.lo);
    }

    /** Shifts up by less than a half. */
    method ShlHalf(n: nat)
      requires n < 64
      modifies this
      ensures Value() == (old(Value()) * Pow2(n)) % M
    {
      if n != 0 {
        ShlHalves(hi, lo, n);
        hi := Shl64(hi, n);
        var mask := Not64(Shr64(W - 1, n));
        hi := Or64(hi, Shr64(And64(lo, mask), 64 - n));
        lo := Shl64(lo, n);
      }
    }

    method ShlAssign(rhs: UInt128)
      modifies this
      ensures Value() == if old(rhs.Value()) < 128 then (old(Value()) * Pow2(old(rhs.Value()))) % M else 0
    {
      var width := new UInt128(0, 128);
      if rhs.NotLess(width) {
        hi := 0;
        lo := 0;
      } else {
        var n := rhs.ToInteger();
        ghost var h0, l0, total := hi, lo, n;
        if n >= 64 {
          n := n - 64;
          hi := lo;
          lo := 0;
        }
        ShlTotal(h0, l0, hi, lo, n, total);
        ShlHalf(n);
      }
    }

    /** Shifts down by less than a half. */
    method ShrHalf(n: nat)
      requires n < 64
      modifies this
      ensures Value() == old(Value()) / Pow2(n)
    {
      if n != 0 {
        ShrHalves(hi, lo, n);
        lo := Shr64(lo, n);
        var mask := Not64(Shl64(W - 1, n));
        lo := Or64(lo, Shl64(And64(hi, mask), 64 - n));
        hi := Shr64(hi, n);
      }
    }

    method ShrAssign(rhs: UInt128)
      modifies this
      ensures Value() == if old(rhs.Value()) < 128 then old(Value()) / Pow2(old(rhs.Value())) else 0
    {
      var width := new UInt128(0, 128);
      if rhs.NotLess(width) {
        hi := 0;
        lo := 0;
      } else {
        var n := rhs.ToInteger();
        ghost var h0, l0, total := hi, lo, n;
        if n >= 64 {
          n := n - 64;
          lo := hi;
          hi := 0;
        }
        ShrTotal(h0, l0, hi, lo, n, total);
        ShrHalf(n);
      }
    }

    // ----- products -----

    /** `+=` with a 64-bit operand, on top of a sum that may have passed 2^128 before. */
    method AddWord(w: U64, ghost t: nat)
      requires Value() == t % M
      modifies this
      ensures Value() == (t + w) % M
    {
      var u := new UInt128(0, w);
      ModAdd(t, w, M);
      AddAssign(u);
    }

    method ShlLimb(ghost t: nat)
      requires Value() == t % M
      modifies this
      ensures Value() == (t * 0x1_0000_0000) % M
    {
      var n := new UInt128(0, 0x20);
      Widths();
      ModMul(t, 0x1_0000_0000, M);
      ShlAssign(n);
    }

    /** The 32-bit limbs of both numbers are multiplied; the products are summed up by diagonals, highest first. */
    method MulAssign(b: UInt128)
      modifies this
      ensures Value() == (old(Value()) * old(b.Value())) % M
    {
      hide Times, Limb, Join;
      var a0, a1, a2, a3 := Limb(lo, 0), Limb(lo, 1), Limb(hi, 0), Limb(hi, 1);
      var b0, b1, b2, b3 := Limb(b.lo, 0), Limb(b.lo, 1), Limb(b.hi, 0), Limb(b.hi, 1);
      MulHalves(hi, lo, b.hi, b.lo);
      hi := 0;
      lo := Times(a3, b0);
      SumDiagonals(Times(a3, b0), Times(a2, b1), Times(a1, b2), Times(a0, b3),
                   Times(a2, b0), Times(a1, b1), Times(a0, b2), Times(a1, b0), Times(a0, b1), Times(a0, b0));
    }

    method SumDiagonals(x30: U64, x21: U64, x12: U64, x03: U64, x20: U64, x11: U64, x02: U64, x10: U64, x01: U64,
                        x00: U64)
      requires hi == 0 && lo == x30
      modifies this
      ensures Value() == ((((x30 + x21 + x12 + x03) * 0x1_0000_0000 + x20 + x11 + x02) * 0x1_0000_0000
                           + x10 + x01) * 0x1_0000_0000 + x00) % M
    {
      hide Join;
      SmallValue(x30);
      ModUnique(x30, M, 0, x30);
      ghost var t := SumThree(x21, x12, x03, x30);
      ShlLimb(t);
      t := SumThree(x20, x11, x02, t * 0x1_0000_0000);
      ShlLimb(t);
      t := t * 0x1_0000_0000;
      AddWord(x10, t);
      AddWord(x01, t + x10);
      ShlLimb(t + x10 + x01);
      AddWord(x00, (t + x10 + x01) * 0x1_0000_0000);
    }

    method SumThree(x: U64, y: U64, z: U64, ghost t: nat) returns (ghost sum: nat)
      requires Value() == t % M
      modifies this
      ensures sum == t + x + y + z && Value() == sum % M
    {
      AddWord(x, t);
      AddWord(y, t + x);
      AddWord(z, t + x + y);
      sum := t + x + y + z;
    }

    /** `uint128 s = a; s *= b;` for 64-bit a and b loses nothing. */
    static method WordProduct(a: U64, b: U64) returns (p: UInt128)
      ensures fresh(p) && p.Value() == Product(a, b)
    {
      p := new UInt128(0, a);
      var u := new UInt128(0, b);
      p.MulAssign(u);
      WordProductFits(a, b);
      ModUnique(a * b, M, 0, a * b);
    }

    /** The whole 256-bit product, in two halves. The results may be the operands. */
    static method FullProduct(a: UInt128, b: UInt128, resultHi: UInt128, resultLo: UInt128)
      modifies resultHi, resultLo
      ensures resultHi != resultLo ==> resultHi.Value() * M + resultLo.Value() == old(a.Value()) * old(b.Value())
      ensures resultHi == resultLo ==> resultLo.Value() == old(a.Value()) * old(b.Value()) % M
    {
      hide Join, Product, M;
      var ah, al, bh, bl := a.hi, a.lo, b.hi, b.lo;
      var s := WordProduct(al, bl);
      var r := WordProduct(ah, bl);
      var q := WordProduct(al, bh);
      var p := WordProduct(ah, bh);
      var y0 := s.lo;
      var y1, y2, c2 := MiddleColumns(s.hi, q.lo, r.lo, q.hi, r.hi, p.lo);
      FullProductParts(ah, al, bh, bl, (s.hi, s.lo), (r.hi, r.lo), (q.hi, q.lo), (p.hi, p.lo), y1, y2, c2);
      var y3 := (c2 + p.hi) % W;
      LowHalf(ah, al, bh, bl, y3, y2, y1, y0);
      resultHi.hi, resultHi.lo := y3, y2;
      resultLo.hi, resultLo.lo := y1, y0;
    }

    /** The two middle words of the product, and the carry out of their columns. */
    static method MiddleColumns(sh: U64, ql: U64, rl: U64, qh: U64, rh: U64, pl: U64)
      returns (y1: U64, y2: U64, c2: U64)
      ensures y1 == (sh + ql + rl) % W && c2 * W + y2 == (sh + ql + rl) / W + qh + rh + pl
    {
      hide Join;
      var acc := new UInt128(0, sh);
      SmallSum(sh, 0, 0, 0);
      acc.AddWord(ql, sh);
      acc.AddWord(rl, sh + ql);
      SmallSum(sh, ql, rl, 0);
      Halves(acc.hi, acc.lo);
      y1 := acc.lo;
      ghost var c1 := acc.hi;
      acc := new UInt128(0, acc.hi);
      SmallSum(c1, 0, 0, 0);
      ghost var sum := acc.SumThree(qh, rh, pl, c1);
      SmallSum(c1, qh, rh, pl);
      Halves(acc.hi, acc.lo);
      y2, c2 := acc.lo, acc.hi;
    }

    // ----- division -----

    method AndAssign(u: UInt128)
      modifies this
      ensures hi == And64(old(hi), old(u.hi)) && lo == And64(old(lo), old(u.lo))
    {
      hi := And64(hi, u.hi);
      lo := And64(lo, u.lo);
    }

    /** `((d >> 127) & 1) == 0` */
    method TopBitClear() returns (clear: bool)
      ensures clear <==> Value() < Pow2(127)
    {
      hide Pow2;
      var d := new UInt128.Copy(this);
      var n := new UInt128(0, 127);
      d.ShrAssign(n);
      var one := new UInt128(0, 1);
      TopBit(Value());
      AndOne(d.hi, d.lo);
      d.AndAssign(one);
      clear := d.IsZero();
    }

    /** `<<= 1` */
    method Double()
      modifies this
      ensures Value() == (2 * old(Value())) % M
    {
      SmallPowers();
      var one := new UInt128(0, 1);
      ShlAssign(one);
    }

    /** `>>= 1` */
    method Halve()
      modifies this
      ensures Value() == old(Value()) / 2
    {
      SmallPowers();
      var one := new UInt128(0, 1);
      ShrAssign(one);
    }

    /**
     Shift and subtract: the divisor is shifted up until it is no smaller than the numerator or fills the
     word, then back down, and subtracted wherever it fits. The results may be the operands.
     */
    static method Divide(numerator: UInt128, denominator: UInt128, quotient: UInt128, remainder: UInt128)
      returns (ok: bool)
      modifies quotient, remainder
      ensures ok <==> old(denominator.Value()) != 0
      ensures ok && quotient != remainder ==>
                && old(numerator.Value()) == quotient.Value() * old(denominator.Value()) + remainder.Value()
                && remainder.Value() < old(denominator.Value())
      ensures ok && quotient == remainder ==> remainder.Value() == old(numerator.Value()) % old(denominator.Value())
      ensures !ok ==> unchanged(quotient, remainder)
    {
      if denominator.IsZero() {
        return false;
      }
      var n := new UInt128.Copy(numerator);
      var d := new UInt128.Copy(denominator);
      var x := new UInt128(0, 1);
      var answer := new UInt128(0, 0);
      ghost var k := ShiftUp(n, d, x);
      ShiftDown(n, d, x, answer, denominator.Value(), k);
      SplitUnique(old(numerator.Value()), old(denominator.Value()), answer.Value(), n.Value());
      quotient.hi, quotient.lo := answer.hi, answer.lo;
      remainder.hi, remainder.lo := n.hi, n.lo;
      ok := true;
    }

    static method ShiftUp(n: UInt128, d: UInt128, x: UInt128) returns (ghost k: nat)
      requires d.Value() != 0 && x.Value() == 1 && n != d && n != x && d != x
      modifies d, x
      ensures Scaled(old(d.Value()), d.Value(), x.Value(), k)
      ensures n.Value() < 2 * d.Value()
    {
      hide Pow2, Join, Scaled;
      ghost var divisor := d.Value();
      k := 0;
      ScaledStart(divisor);
      var more := n.NotLess(d);
      if more {
        more := d.TopBitClear();
      }
      while more
        invariant Scaled(divisor, d.Value(), x.Value(), k)
        invariant more <==> n.Value() >= d.Value() && d.Value() < Pow2(127)
        decreases M - d.Value()
      {
        ScaledUp(divisor, d.Value(), x.Value(), k);
        x.Double();
        d.Double();
        k := k + 1;
        more := n.NotLess(d);
        if more {
          more := d.TopBitClear();
        }
      }
      FarEnough(n.Value(), d.Value());
    }

    static method ShiftDown(n: UInt128, d: UInt128, x: UInt128, answer: UInt128, ghost divisor: nat, ghost k0: nat)
      requires divisor > 0 && Scaled(divisor, d.Value(), x.Value(), k0) && n.Value() < 2 * d.Value()
               && answer.Value() == 0
      requires n != d && n != x && n != answer && d != x && d != answer && x != answer
      modifies n, d, x, answer
      ensures old(n.Value()) == answer.Value() * divisor + n.Value() && n.Value() < divisor
    {
      hide Pow2, Join, Scaled, Divided, Or;
      ghost var total := n.Value();
      ghost var k: int := k0;
      DividedStart(total, divisor, d.Value(), x.Value(), k0);
      while !x.IsZero()
        invariant Divided(total, divisor, answer.Value(), n.Value(), d.Value(), x.Value(), k)
        decreases x.Value()
      {
        DividedStep(total, divisor, answer.Value(), n.Value(), d.Value(), x.Value(), k);
        if n.NotLess(d) {
          ModUnique(n.Value() - d.Value(), M, 0, n.Value() - d.Value());
          n.SubAssign(d);
          answer.OrAssign(x);
        }
        x.Halve();
        d.Halve();
        k := k - 1;
      }
      DividedEnd(total, divisor, answer.Value(), n.Value(), d.Value(), k);
    }

    /** `%=` */
    method ModAssign(b: UInt128) returns (ok: bool)
      modifies this
      ensures ok <==> old(b.Value()) != 0
      ensures ok ==> Value() == old(Value()) % old(b.Value())
    {
      var quotient := new UInt128(0, 0);
      ghost var n, d := Value(), b.Value();
      ok := Divide(this, b, quotient, this);
      if ok {
        SplitUnique(n, d, quotient.Value(), Value());
      }
    }

    // ----- text -----

    /** The constructor from a string. */
    constructor FromText(sz: string)
      ensures Value() == Parse(sz)
    {
      hide Join, ReadNumber;
      hi, lo := 0, 0;
      new;
      SmallValue(0);
      ReadNothing();
      if sz != "" {
        var minus := false;
        var i := 0;
        if sz[i] == '-' {
          i := i + 1;
          minus := true;
        }
        assert sz[0..] == sz;
        if i != |sz| {
          ReadUnsigned(sz, i);
        }
        assert i == |sz| ==> sz[i..] == "";
        assert Value() == ReadNumber(sz[i..]);
        if minus {
          var neg := Negated();
          hi, lo := neg.hi, neg.lo;
          assert Value() == neg.Value();
        }
      }
    }

    /** The radix prefix and the digits. */
    method ReadUnsigned(sz: string, start: nat)
      requires start < |sz| && Value() == 0
      modifies this
      ensures Value() == ReadNumber(sz[start..])
    {
      hide Join, ReadDigits;
      var radix, i := 10, start;
      if sz[i] == '0' {
        radix := 8;
        i := i + 1;
        if i != |sz| {
          if sz[i] == 'x' {
            radix := 16;
            i := i + 1;
          }
        }
      }
      PrefixRead(sz, start);
      AccumulateDigits(sz, i, radix);
    }

    method AccumulateDigits(sz: string, start: nat, radix: nat)
      requires start <= |sz| && radix <= 16 && Value() == 0
      modifies this
      ensures Value() == ReadDigits(0, sz[start..], radix)
    {
      hide DigitValue, Join;
      var i := start;
      while i != |sz|
        invariant i <= |sz|
        invariant ReadDigits(Value(), sz[i..], radix) == ReadDigits(0, sz[start..], radix)
        decreases |sz| - i
      {
        var n := DigitValue(sz[i], radix);
        if n < 0 {
          break;
        }
        ModAdd(Value() * radix, n, M);
        assert sz[i..][1..] == sz[i + 1..] && sz[i..][0] == sz[i];
        SmallValue(radix);
        SmallValue(n);
        var r := new UInt128(0, radix);
        MulAssign(r);
        var d := new UInt128(0, n);
        AddAssign(d);
        i := i + 1;
      }
    }

    /**
     `operator std::string`, with the static buffer it fills from the end. The byte that ends the text is
     never written: it is zero from the start.
     */
    method ToText(sz: array<char>) returns (text: string)
      requires sz.Length == 129 && sz[127] == '\0'
      modifies sz
      ensures sz[127] == '\0'
      ensures text == Digits(Value())
    {
      hide CString, Digits, Join;
      if IsZero() {
        FillStart(0);
        return "0";
      }
      sz[128] := '\0';
      var i := FillDigits(sz);
      CStringAt(sz[..], i, Value());
      assert sz[..][i..] == sz[i..];
      text := CString(sz[i..]);
    }

    /** A number survives being printed and parsed. */
    static method PrintParse(v: UInt128) returns (r: UInt128)
      ensures fresh(r) && r.Value() == v.Value()
    {
      hide Join, Digits, Parse;
      var sz := new char[129](_ => '\0');
      var text := v.ToText(sz);
      ParseDigits(v.Value());
      r := new UInt128.FromText(text);
    }

    method FillDigits(sz: array<char>) returns (i: nat)
      requires sz.Length == 129 && Value() != 0
      modifies sz
      ensures i <= 127 && sz[i..127] == Digits(Value()) && sz[127] == old(sz[127])
    {
      hide Join, Digits, NonZeroDigits, DigitChar;
      var ii := new UInt128.Copy(this);
      i := 127;
      ghost var all, last := Digits(Value()), sz[127];
      Below39Digits(Value());
      FillStart(Value());
      assert sz[127..127] == "";
      while !ii.IsZero() && i != 0
        invariant 88 <= i <= 127 && sz[127] == last
        invariant all == NonZeroDigits(ii.Value()) + sz[i..127]
        decreases ii.Value()
      {
        ghost var v, before := ii.Value(), sz[..];
        var r := NextDigit(ii);
        FillStep(all, sz[i..127], v, ii.Value(), r);
        i := i - 1;
        sz[i] := DigitChar(r);
        PutFront(before, sz[..], i, DigitChar(r));
      }
      FillStart(0);
    }

    /** `divide(ii, 10, ii, remainder)` */
    static method NextDigit(ii: UInt128) returns (r: nat)
      modifies ii
      ensures old(ii.Value()) == ii.Value() * 10 + r && r < 10
    {
      var remainder := new UInt128(0, 0);
      var ten := new UInt128(0, 10);
      var ok := Divide(ii, ten, ii, remainder);
      r := remainder.ToInteger();
    }
  }

  /** Four words add up to less than 2^128. */
  lemma {:induction false} SmallSum(w: U64, x: U64, y: U64, z: U64)
    ensures (w + x + y + z) % M == w + x + y + z && Join(0, w) == w
  {
    ModUnique(w + x + y + z, M, 0, w + x + y + z);
  }

  lemma {:induction false} Halves(hi: U64, lo: U64)
    ensures Join(hi, lo) == hi * W + lo && Join(hi, lo) / W == hi && Join(hi, lo) % W == lo
  {
    SplitUnique(Join(hi, lo), W, hi, lo);
  }

  lemma {:induction false} ReadNothing()
    ensures ReadNumber("") == 0
  {
  }

  lemma {:induction false} SmallValue(n: U64)
    ensures Join(0, n) == n
  {
  }

  function NonZeroDigits(n: nat): string {
    if n == 0 then "" else Digits(n)
  }

  lemma {:induction false} PutFront(before: string, after: string, i: nat, c: char)
    requires |before| == 129 && i < 127 && after == before[i := c]
    ensures after[i..127] == [c] + before[i + 1..127] && after[127] == before[127]
  {
  }

  lemma {:induction false} FillStart(n: nat)
    ensures NonZeroDigits(n) + "" == if n == 0 then "" else Digits(n)
    ensures n == 0 ==> forall s: string :: NonZeroDigits(n) + s == s
    ensures Digits(0) == "0"
  {
  }

  /** The text that starts at `i` ends in front of the NUL. */
  lemma {:induction false} CStringAt(s: string, i: nat, n: nat)
    requires |s| == 129 && i <= 127 && s[i..127] == Digits(n) && s[127] == '\0'
    ensures CString(s[i..]) == Digits(n)
  {
    hide CString;
    assert s[i..] == s[i..127] + ['\0'] + s[128..];
    CStringEnds(s[i..127], s[128..]);
  }

  /** The next digit goes in front of those written; there are no more than 39. */
  lemma {:induction false} FillStep(all: string, was: string, n: nat, q: nat, r: nat)
    requires n > 0 && n == q * 10 + r && r < 10 && |all| <= 39 && all == NonZeroDigits(n) + was
    ensures q < n && |was| < 39 && all == NonZeroDigits(q) + ([DigitChar(r)] + was)
  {
    hide Digits, NonZeroDigits, DigitChar;
    DigitsStep(n, q, r);
    var front := NonZeroDigits(q);
    assert front + [DigitChar(r)] + was == front + ([DigitChar(r)] + was);
  }

  lemma {:induction false} DigitsStep(n: nat, q: nat, r: nat)
    requires n > 0 && n == q * 10 + r && r < 10
    ensures q < n && NonZeroDigits(n) == NonZeroDigits(q) + [DigitChar(r)]
  {
    SplitUnique(n, 10, q, r);
  }

  /** What the prefix of a number decides. */
  lemma {:induction false} PrefixRead(sz: string, start: nat)
    requires start < |sz|
    ensures var (radix, digits) := Unprefixed(sz[start..]);
            if sz[start] != '0' then radix == 10 && digits == sz[start..]
            else if start + 1 < |sz| && sz[start + 1] == 'x' then radix == 16 && digits == sz[start + 2..]
            else radix == 8 && digits == sz[start + 1..]
  {
  }

  lemma {:induction false} TopBit(v: nat)
    requires v < M
    ensures 0 <= v / Pow2(127) <= 1 && (v / Pow2(127) == 0 <==> v < Pow2(127))
  {
    Widths();
    var p := Pow2(127);
    if v < p {
      SplitUnique(v, p, 0, v);
    } else {
      SplitUnique(v, p, 1, v - p);
    }
  }

  lemma {:induction false} AndOne(hi: U64, lo: U64)
    requires Join(hi, lo) <= 1
    ensures And64(hi, 0) == 0 && And64(lo, 1) == lo
  {
  }

  /** The divisor after `k` shifts, and the bit of the quotient it stands for. */
  ghost predicate Scaled(divisor: nat, d: nat, x: nat, k: nat) {
    divisor > 0 && x == Pow2(k) && d == divisor * Pow2(k)
  }

  lemma {:induction false} ScaledStart(divisor: nat)
    requires divisor > 0
    ensures Scaled(divisor, divisor, 1, 0)
  {
  }

  lemma {:induction false} ScaledUp(divisor: nat, d: nat, x: nat, k: nat)
    requires Scaled(divisor, d, x, k) && d < Pow2(127)
    ensures Scaled(divisor, 2 * d, 2 * x, k + 1) && 0 < d && (2 * x) % M == 2 * x && (2 * d) % M == 2 * d
  {
    Widths();
    AtLeast(divisor, x);
    Doubled(divisor, k);
    ModUnique(2 * x, M, 0, 2 * x);
    ModUnique(2 * d, M, 0, 2 * d);
  }

  lemma {:induction false} FarEnough(n: nat, d: nat)
    requires n < M && !(n >= d && d < Pow2(127))
    ensures n < 2 * d
  {
    Widths();
  }

  lemma {:induction false} Doubled(divisor: nat, k: nat)
    ensures divisor * Pow2(k + 1) == 2 * (divisor * Pow2(k)) && Pow2(k + 1) == 2 * Pow2(k)
  {
    assert divisor * (2 * Pow2(k)) == 2 * (divisor * Pow2(k));
  }

  /** The bits of the quotient above `k` are found; what is left is less than two times the divisor as it stands. */
  ghost predicate Divided(total: nat, divisor: nat, answer: nat, n: nat, d: nat, x: nat, k: int) {
    && divisor > 0 && k >= -1 && x == (if k < 0 then 0 else Pow2(k)) && (k >= 0 ==> d == divisor * Pow2(k))
    && total == answer * divisor + n && n < divisor * Pow2(k + 1) && answer % Pow2(k + 1) == 0
  }

  lemma {:induction false} DividedStart(total: nat, divisor: nat, d: nat, x: nat, k: nat)
    requires Scaled(divisor, d, x, k) && total < 2 * d
    ensures Divided(total, divisor, 0, total, d, x, k)
  {
    Doubled(divisor, k);
    SplitUnique(0, Pow2(k + 1), 0, 0);
  }

  lemma {:induction false} DividedStep(total: nat, divisor: nat, answer: nat, n: nat, d: nat, x: nat, k: int)
    requires Divided(total, divisor, answer, n, d, x, k) && x != 0
    ensures 0 <= x / 2 < x
    ensures Divided(total, divisor, if n >= d then Or(answer, x) else answer,
                    if n >= d then n - d else n, d / 2, x / 2, k - 1)
  {
    hide Pow2, Or;
    DownBit(divisor, answer, n, k);
    HalveStep(divisor, k);
    if n >= d {
      OrApart(x, answer, k + 1);
      OneMore(answer, x, divisor);
    }
  }

  lemma {:induction false} OneMore(answer: nat, x: nat, divisor: nat)
    ensures (answer + x) * divisor == answer * divisor + divisor * x
  {
  }

  lemma {:induction false} DownBit(divisor: nat, answer: nat, n: nat, k: int)
    requires k >= 0 && answer % Pow2(k + 1) == 0 && n < divisor * Pow2(k + 1)
    ensures answer % Pow2(k) == 0 && (answer + Pow2(k)) % Pow2(k) == 0 && Pow2(k) < Pow2(k + 1)
    ensures n < 2 * (divisor * Pow2(k))
  {
    hide Pow2;
    var x := Pow2(k);
    Doubled(divisor, k);
    Evenly(answer, x);
  }

  lemma {:induction false} Evenly(a: nat, x: nat)
    requires x > 0 && a % (2 * x) == 0
    ensures a % x == 0 && (a + x) % x == 0
  {
    var q := a / (2 * x);
    assert a == q * (2 * x);
    assert q * (2 * x) == (2 * q) * x && (2 * q + 1) * x == (2 * q) * x + x;
    ModUnique(a, x, 2 * q, 0);
    ModUnique(a + x, x, 2 * q + 1, 0);
  }

  lemma {:induction false} DividedEnd(total: nat, divisor: nat, answer: nat, n: nat, d: nat, k: int)
    requires Divided(total, divisor, answer, n, d, 0, k)
    ensures total == answer * divisor + n && n < divisor
  {
  }

  lemma {:induction false} HalveStep(divisor: nat, k: int)
    requires k >= 0
    ensures Pow2(k) / 2 == (if k == 0 then 0 else Pow2(k - 1))
    ensures k > 0 ==> (divisor * Pow2(k)) / 2 == divisor * Pow2(k - 1)
  {
    if k > 0 {
      Doubled(divisor, k - 1);
    }
  }

  ghost function Product(a: U64, b: U64): int {
    a * b
  }

  lemma {:induction false} WordProductFits(a: U64, b: U64)
    ensures 0 <= a * b <= (W - 1) * (W - 1)
  {
    FactorMonotone(a, W - 1, b);
    FactorMonotone(b, W - 1, W - 1);
    assert b * (W - 1) == (W - 1) * b;
  }

  /** The four partial products, the carries between the columns, and no carry out of the last one. */
  lemma {:induction false} FullProductParts(ah: U64, al: U64, bh: U64, bl: U64, s: (U64, U64), r: (U64, U64),
                                            q: (U64, U64), p: (U64, U64),
                                            y1: U64, y2: U64, c2: U64)
    requires Join(s.0, s.1) == Product(al, bl) && Join(r.0, r.1) == Product(ah, bl)
    requires Join(q.0, q.1) == Product(al, bh) && Join(p.0, p.1) == Product(ah, bh)
    requires y1 == (s.0 + q.1 + r.1) % W && c2 * W + y2 == (s.0 + q.1 + r.1) / W + q.0 + r.0 + p.1
    ensures Join((c2 + p.0) % W, y2) * M + Join(y1, s.1) == Join(ah, al) * Join(bh, bl)
  {
    hide Join, Product;
    Carried(s.0 + q.1 + r.1);
    ColumnSums(ah, al, bh, bl, s, r, q, p, y1, (s.0 + q.1 + r.1) / W, y2, c2);
    ModUnique(c2 + p.0, W, 0, c2 + p.0);
  }

  lemma {:induction false} LowHalf(ah: U64, al: U64, bh: U64, bl: U64, y3: U64, y2: U64, y1: U64, y0: U64)
    requires Join(y3, y2) * M + Join(y1, y0) == Join(ah, al) * Join(bh, bl)
    ensures Join(ah, al) * Join(bh, bl) % M == Join(y1, y0)
  {
    hide Join;
    ModUnique(Join(ah, al) * Join(bh, bl), M, Join(y3, y2), Join(y1, y0));
  }

  lemma {:induction false} Carried(x: nat)
    requires x < 3 * W
    ensures 0 <= x / W < W && x == x / W * W + x % W
  {
  }

  lemma {:induction false} ColumnSums(ah: U64, al: U64, bh: U64, bl: U64, s: (U64, U64), r: (U64, U64), q: (U64, U64),
                                      p: (U64, U64),
                                      y1: U64, c1: U64, y2: U64, c2: U64)
    requires Join(s.0, s.1) == Product(al, bl) && Join(r.0, r.1) == Product(ah, bl)
    requires Join(q.0, q.1) == Product(al, bh) && Join(p.0, p.1) == Product(ah, bh)
    requires s.0 + q.1 + r.1 == c1 * W + y1 && c1 + q.0 + r.0 + p.1 == c2 * W + y2
    ensures c2 + p.0 < W
    ensures Join(c2 + p.0, y2) * M + Join(y1, s.1) == Join(ah, al) * Join(bh, bl)
  {
    Foil(ah, al, bh, bl);
    WordProductFits(ah, bh);
    WordProductFits(ah, bl);
    WordProductFits(al, bh);
    WordProductFits(al, bl);
  }

  lemma {:induction false} Foil(a: nat, b: nat, c: nat, d: nat)
    ensures (a * W + b) * (c * W + d) == a * c * M + (a * d + b * c) * W + b * d
  {
    var e := c * W + d;
    assert (a * W + b) * e == a * e * W + b * e;
    assert a * e == a * c * W + a * d && b * e == b * c * W + b * d;
  }

  lemma {:induction false} ShlTotal(h0: U64, l0: U64, h1: U64, l1: U64, n: nat, total: nat)
    requires n < 64 && ((total == n && h1 == h0 && l1 == l0) || (total == n + 64 && h1 == l0 && l1 == 0))
    ensures (Join(h1, l1) * Pow2(n)) % M == (Join(h0, l0) * Pow2(total)) % M
  {
    hide Pow2;
    if total == n + 64 {
      Widths();
      Pow2Add(64, n);
      ModUnique(Join(h0, l0) * W, M, h0, Join(h1, l1));
      ModMul(Join(h0, l0) * W, Pow2(n), M);
      MulAssoc(Join(h0, l0), W, Pow2(n));
    }
  }

  lemma {:induction false} MulAssoc(a: int, b: int, c: int)
    ensures a * b * c == a * (b * c)
  {
  }

  lemma {:induction false} ShrTotal(h0: U64, l0: U64, h1: U64, l1: U64, n: nat, total: nat)
    requires n < 64 && ((total == n && h1 == h0 && l1 == l0) || (total == n + 64 && h1 == 0 && l1 == h0))
    ensures Join(h1, l1) / Pow2(n) == Join(h0, l0) / Pow2(total)
  {
    hide Pow2;
    if total == n + 64 {
      Widths();
      Pow2Add(64, n);
      SplitUnique(Join(h0, l0), W, h0, l0);
      DivTwice(Join(h0, l0), W, Pow2(n));
    }
  }
}
