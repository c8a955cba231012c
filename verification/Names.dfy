/**
 Names as the library and the tools read and print them.
 */
module Names {
  import opened Bits
  import opened NameValues

  const W64: nat := 0x1_0000_0000_0000_0000
  const MASK: nat := 0xF800_0000_0000_0000

  lemma {:induction false} Widths()
    ensures Pow2(64) == W64 && Pow2(60) == 0x1000_0000_0000_0000 && Pow2(59) == 0x0800_0000_0000_0000
    ensures Pow2(4) == 16 && Pow2(5) == 32
  {
    hide Pow2;
    LargePowers();
    Sixteen();
    SmallPowers();
    Pow2Add(32, 32);
    Pow2Add(28, 32);
    Pow2Add(1, 59);
    Pow2Add(4, 1);
  }

  // ----- reading -----

  /** `char_to_symbol`: what is no symbol counts as none. */
  function Symbol(c: char): (d: nat)
    ensures d < 32
  {
    if 'a' <= c <= 'z' then c as int - 'a' as int + 6
    else if '1' <= c <= '5' then c as int - '1' as int + 1
    else 0
  }

  lemma {:induction false} SymbolsOfAlphabet(c: char)
    ensures HasValue(c, Symbol(c)) || (Symbol(c) == 0 && forall d :: 0 <= d < 32 ==> !HasValue(c, d))
  {
  }

  function Symbols(s: string): (d: seq<nat>)
    ensures IsDigits(d)
  {
    seq(13, i requires 0 <= i < 13 => if i >= |s| then 0 else if i == 12 then Symbol(s[i]) % 16 else Symbol(s[i]))
  }

  lemma {:induction false} SymbolsOfName(s: string)
    requires IsName(s)
    ensures Symbols(s) == Padded(s)
  {
  }

  /** One more digit under those read so far. */
  lemma {:induction false} ReadDigit(d: seq<nat>, i: nat, value: nat)
    requires IsDigits(d) && i < 12 && value * Pow2(64 - 5 * i) == Sum(d, i)
    ensures value * 32 < W64 && Or(value * 32, d[i]) == value * 32 + d[i]
    ensures (value * 32 + d[i]) * Pow2(64 - 5 * (i + 1)) == Sum(d, i + 1)
  {
    hide Pow2, Or;
    Widths();
    SumAndLow(d, i);
    DigitsOfValue(d);
    var p := Pow2(59 - 5 * i);
    FiveMore(59 - 5 * i);
    Pow2Monotone(4, 59 - 5 * i);
    Shifted(value, p);
    SumNext(d, i);
    Combine(value, d[i], p);
    ModZero(value);
    OrApart(d[i], value * 32, 5);
  }

  lemma {:induction false} Shifted(value: nat, p: nat)
    requires p >= 16 && value * (32 * p) < W64
    ensures value * 32 < W64
  {
    assert value * (32 * p) == value * 32 * p;
    AtLeast(p, value * 32);
    assert p * (value * 32) == value * 32 * p;
  }

  lemma {:induction false} ModZero(value: nat)
    ensures (value * 32) % 32 == 0
  {
  }

  lemma {:induction false} SumNext(d: seq<nat>, i: nat)
    requires IsDigits(d) && i < 12
    ensures Sum(d, i + 1) == Sum(d, i) + d[i] * Pow2(59 - 5 * i) && Sum(d, 0) == 0
  {
  }

  lemma {:induction false} SumZeros(d: seq<nat>, i: nat)
    requires IsDigits(d) && i <= 12 && forall j :: i <= j < 12 ==> d[j] == 0
    ensures Sum(d, 12) == Sum(d, i)
    decreases 12 - i
  {
    hide Sum, Pow2;
    if i < 12 {
      SumZeros(d, i + 1);
      SumNext(d, i);
    }
  }

  /** The constructor from a string; `ok` is whether every check passes. */
  method FromString(str: string) returns (ok: bool, value: nat)
    ensures ok <==> IsName(str)
    ensures ok ==> value == Parse(str)
  {
    hide Sum, Pow2, Or, Symbols;
    value := 0;
    ghost var d := Symbols(str);
    if |str| > 13 {
      return false, 0;
    }
    var n := if |str| < 12 then |str| else 12;
    SumNone(d);
    for i := 0 to n
      invariant forall j :: 0 <= j < i ==> CharToValue(str[j]) >= 0
      invariant value >= 0 && value * Pow2(64 - 5 * i) == Sum(d, i)
    {
      var c := CharToValue(str[i]);
      if c < 0 {
        return false, 0;
      }
      SymbolsAt(str, i);
      ReadDigit(d, i, value);
      value := (value * 32) % W64;
      value := Or(value, c);
    }
    FinishHigh(str, n, value);
    value := (value * Pow2(4 + 5 * (12 - n))) % W64;
    if |str| == 13 {
      var v := CharToValue(str[12]);
      if v < 0 || v > 0x0F {
        return false, 0;
      }
      SymbolsAt(str, 12);
      LastDigit(d);
      value := Or(value, v);
    } else {
      SymbolsShort(str);
    }
    ok := true;
    SymbolsOfName(str);
  }

  lemma {:induction false} SymbolsAt(s: string, i: nat)
    requires i < |s| && i < 13 && CharToValue(s[i]) >= 0
    ensures Symbols(s)[i] == if i == 12 then CharToValue(s[i]) % 16 else CharToValue(s[i])
  {
  }

  lemma {:induction false} SymbolsShort(s: string)
    ensures forall i :: |s| <= i < 13 ==> Symbols(s)[i] == 0
  {
  }

  lemma {:induction false} FinishHigh(s: string, n: nat, value: nat)
    requires n == (if |s| < 12 then |s| else 12) && value * Pow2(64 - 5 * n) == Sum(Symbols(s), n)
    ensures 0 <= value * Pow2(4 + 5 * (12 - n)) == Sum(Symbols(s), 12) < W64
            && (value * Pow2(4 + 5 * (12 - n))) % W64 == Sum(Symbols(s), 12)
  {
    hide Pow2, Sum, Symbols;
    var d := Symbols(s);
    SymbolsShort(s);
    SumZeros(d, n);
    Widths();
    SumAndLow(d, 12);
    DigitsOfValue(d);
    assert 64 - 5 * n == 4 + 5 * (12 - n);
    SplitUnique(Sum(d, 12), W64, 0, Sum(d, 12));
  }

  lemma {:induction false} LastDigit(d: seq<nat>)
    requires IsDigits(d)
    ensures Or(Sum(d, 12), d[12]) == Value(d)
  {
    hide Pow2, Sum, Or;
    var m := SumMultiple(d, 12);
    Widths();
    SplitUnique(Sum(d, 12), 16, m, 0);
    OrApart(d[12], Sum(d, 12), 4);
  }

  /** `string_to_name`, of the library and of the tools. */
  method StringToName(str: string) returns (name: nat)
    ensures name == Value(Symbols(str))
  {
    hide Sum, Pow2, Or, Symbols;
    ghost var d := Symbols(str);
    name := 0;
    var i := 0;
    SumNone(d);
    while i < |str| && i < 12
      invariant 0 <= i <= 12 && i <= |str| && name == Sum(d, i)
    {
      SymbolPut(d, i);
      SymbolsAre(str, i);
      name := Or(name, Symbol(str[i]) * Pow2(64 - 5 * (i + 1)));
      i := i + 1;
    }
    SymbolsShort(str);
    SumZeros(d, i);
    LastDigit(d);
    if i == 12 {
      if |str| > 12 {
        SymbolsAre(str, 12);
        name := Or(name, Symbol(str[12]) % 16);
      }
    }
  }

  lemma {:induction false} SymbolsAre(s: string, i: nat)
    requires i < |s| && i < 13
    ensures Symbols(s)[i] == if i == 12 then Symbol(s[i]) % 16 else Symbol(s[i])
  {
  }

  lemma {:induction false} SymbolPut(d: seq<nat>, i: nat)
    requires IsDigits(d) && i < 12
    ensures 0 <= d[i] * Pow2(59 - 5 * i) && Or(Sum(d, i), d[i] * Pow2(59 - 5 * i)) == Sum(d, i + 1)
  {
    hide Pow2, Sum, Or;
    var p := Pow2(59 - 5 * i);
    var m := SumMultiple(d, i);
    FiveMore(59 - 5 * i);
    Below32(d[i], p, 0);
    NonNegativeProduct(d[i], p);
    SplitUnique(Sum(d, i), 32 * p, m, 0);
    OrApart(d[i] * p, Sum(d, i), 64 - 5 * i);
    SumNext(d, i);
  }
}
