/**
 Printing names: character by character from the top, as the library does, and from the bottom, as the
 tools do; their length, and the part after the last underscore.
 */
module NamePrint {
  import opened Bits
  import opened NameValues
  import opened Names
  import opened Buffers

  // ----- from the top -----

  /** The name after `i` characters have been shifted out. */
  ghost function Left(v: nat, i: nat): nat
    requires i <= 12
  {
    NonNegativeProduct(v % Pow2(64 - 5 * i), Pow2(5 * i));
    v % Pow2(64 - 5 * i) * Pow2(5 * i)
  }

  lemma {:induction false} LeftStart(v: nat)
    requires v < W64
    ensures Left(v, 0) == v
  {
    hide Pow2;
    Widths();
    SplitUnique(v, W64, 0, v);
    One();
  }

  lemma {:induction false} One()
    ensures Pow2(0) == 1
  {
  }

  lemma {:induction false} Peel(v: nat, i: nat)
    requires i < 12
    ensures v % Pow2(64 - 5 * i) == Digit(v, i) * Pow2(59 - 5 * i) + v % Pow2(59 - 5 * i)
    ensures v % Pow2(59 - 5 * i) < Pow2(59 - 5 * i)
  {
    hide Pow2;
    FiveMore(59 - 5 * i);
    OneDigit(v, Pow2(59 - 5 * i));
  }

  /** The top five bits are the next character, and a shift by five bits takes it away. */
  lemma {:induction false} NextChar(v: nat, i: nat)
    requires i < 12
    ensures var cur := Left(v, i);
            && cur < W64 && And(cur, MASK) == Digit(v, i) * Pow2(59)
            && And(cur, MASK) / Pow2(59) == Digit(v, i)
            && (cur * 32) % W64 == Left(v, i + 1)
  {
    hide Pow2, And, Digit;
    Widths();
    Peel(v, i);
    var d, r, p, q := Digit(v, i), v % Pow2(59 - 5 * i), Pow2(59 - 5 * i), Pow2(5 * i);
    Pow2Add(59 - 5 * i, 5 * i);
    assert 59 - 5 * i + 5 * i == 59;
    FiveMore(5 * i);
    TopBits(d, r, p, q, Pow2(59));
    var cur := Left(v, i);
    SplitUnique(cur, Pow2(59), d, r * q);
    Below32(d, Pow2(59), r * q);
    AndHigh(cur, 59, 5);
    SplitUnique(d * Pow2(59), Pow2(59), d, 0);
    SplitUnique(cur * 32, W64, d, r * (32 * q));
  }

  lemma {:induction false} TopBits(d: nat, r: nat, p: nat, q: nat, w: nat)
    requires p * q == w && r < p && q > 0
    ensures (d * p + r) * q == d * w + r * q && 0 <= r * q < w && (d * w + r * q) * 32 == d * (32 * w) + r * (32 * q)
    ensures 0 <= r * (32 * q) < 32 * w
  {
    assert (d * p + r) * q == d * p * q + r * q && d * p * q == d * (p * q);
    LessProduct(r, p, q);
    assert r * (32 * q) == 32 * (r * q);
  }

  lemma {:induction false} LessProduct(r: nat, p: nat, q: nat)
    requires r < p && q > 0
    ensures 0 <= r * q < p * q
  {
    assert (p - r) * q == p * q - r * q;
    AtLeast(p - r, q);
    NonNegativeProduct(r, q);
  }

  /** The last character has the top four bits. */
  lemma {:induction false} LastChar(v: nat)
    ensures var cur := Left(v, 12);
            cur == v % 16 * Pow2(60) && cur < W64 && And(cur, MASK) == cur && cur / Pow2(60) == v % 16
  {
    hide Pow2, And;
    Widths();
    var d, cur := v % 16, Left(v, 12);
    assert cur == d * Pow2(60);
    SplitUnique(cur, Pow2(59), 2 * d, 0);
    AndHigh(cur, 59, 5);
    SplitUnique(cur, Pow2(60), d, 0);
  }

  lemma {:induction false} LeftZero(v: nat, i: nat)
    requires i <= 12
    ensures Left(v, i) == 0 <==> v % Pow2(64 - 5 * i) == 0
    ensures Left(v, i) == 0 ==> forall j :: i <= j <= 12 ==> Digit(v, j) == 0
    ensures i < 12 ==> (Left(v, i) == 0 <==> Digit(v, i) == 0 && Left(v, i + 1) == 0)
    ensures i == 12 ==> (Left(v, i) == 0 <==> Digit(v, 12) == 0)
    decreases 12 - i
  {
    hide Pow2, Digit;
    var r := v % Pow2(64 - 5 * i);
    if r > 0 {
      AtLeast(r, Pow2(5 * i));
    }
    if i < 12 {
      Peel(v, i);
      LeftZero(v, i + 1);
      if Digit(v, i) > 0 {
        AtLeast(Digit(v, i), Pow2(59 - 5 * i));
      }
      assert 64 - 5 * (i + 1) == 59 - 5 * i;
    } else {
      LastChar(v);
      LastDigitIs(v);
    }
  }

  lemma {:induction false} LastDigitIs(v: nat)
    ensures Digit(v, 12) == v % 16 && Pow2(4) == 16
  {
    Sixteen();
  }

  /** `write_as_string`: the buffer is left alone unless thirteen characters fit. */
  method WriteAsString(v: nat, buffer: array<char>) returns (n: nat)
    requires v < W64
    modifies buffer
    ensures buffer.Length < 13 ==> n == 0 && buffer[..] == old(buffer[..])
    ensures buffer.Length >= 13 ==> n <= 13 && buffer[..n] == Printed(v) && buffer[n..] == old(buffer[n..])
  {
    hide Pow2, And, Left, Digit;
    n := 0;
    if 13 > buffer.Length {
      return;
    }
    var cur := v;
    LeftStart(v);
    ghost var all := Chars(Digits(v));
    for i := 0 to 13
      invariant n == i && buffer[..i] == all[..i]
      invariant forall j :: i <= j < buffer.Length ==> buffer[j] == old(buffer[j])
      invariant i <= 12 ==> cur == Left(v, i)
      invariant i > 0 ==> Left(v, i - 1) != 0
    {
      LeftZero(v, i);
      if i > 0 {
        LeftZero(v, i - 1);
      }
      if cur == 0 {
        StopsHere(v, i);
        return;
      }
      if i < 12 {
        NextChar(v, i);
      } else {
        LastChar(v);
        LastDigitIs(v);
      }
      Widths();
      var index := And(cur, MASK) / (if i == 12 then 0x1000_0000_0000_0000 else 0x0800_0000_0000_0000);
      buffer[i] := CHARMAP[index];
      assert buffer[..i + 1] == buffer[..i] + [CHARMAP[index]];
      n := n + 1;
      cur := (cur * 32) % W64;
    }
    LeftZero(v, 12);
    StopsHere(v, 13);
  }

  /** All characters from `i` on are underscores and the one before is not. */
  lemma {:induction false} StopsHere(v: nat, i: nat)
    requires i <= 13 && (forall j :: i <= j <= 12 ==> Digit(v, j) == 0) && (i > 0 ==> Digit(v, i - 1) != 0)
    ensures Chars(Digits(v))[..i] == Printed(v)
  {
    hide Digit;
    var s := Chars(Digits(v));
    forall j | 0 <= j < 13 ensures s[j] == '_' <==> Digit(v, j) == 0 {
      ValueBack(Digit(v, j));
    }
    TrimUnique(s, s[..i]);
  }

  // ----- length -----

  method Length(v: nat) returns (n: nat)
    requires v < W64
    ensures n == |Printed(v)|
  {
    hide Pow2, And, Left, Digit, Printed, Chars;
    LeftStart(v);
    LeftZero(v, 0);
    if v == 0 {
      StopsHere(v, 0);
      return 0;
    }
    var l, cur := 0, v;
    for i := 0 to 13
      invariant i <= 12 ==> cur == Left(v, i)
      invariant 0 <= l <= 12 && (l > 0 ==> l < i) && forall j :: l < j < i ==> Digit(v, j) == 0
      invariant (i > 0 && Digit(v, l) != 0) || (l == 0 && forall j :: 0 <= j < i ==> Digit(v, j) == 0)
    {
      TopNonZero(v, i);
      if And(cur, MASK) > 0 {
        l := i;
      }
      if i < 12 {
        NextChar(v, i);
      }
      cur := (cur * 32) % W64;
    }
    AllZero(v);
    StopsHere(v, l + 1);
    n := l + 1;
  }

  lemma {:induction false} TopNonZero(v: nat, i: nat)
    requires i <= 12
    ensures And(Left(v, i), MASK) > 0 <==> Digit(v, i) != 0
  {
    hide Pow2, And, Left, Digit;
    Widths();
    if i < 12 {
      NextChar(v, i);
    } else {
      LastChar(v);
      LastDigitIs(v);
    }
  }

  /** A name without characters is zero. */
  lemma {:induction false} AllZero(v: nat)
    requires v < W64
    ensures (forall j :: 0 <= j < 13 ==> Digit(v, j) == 0) ==> v == 0
  {
    hide Pow2, Digit, Left;
    if forall j :: 0 <= j < 13 ==> Digit(v, j) == 0 {
      ZeroFrom(v, 0);
      LeftStart(v);
    }
  }

  lemma {:induction false} ZeroFrom(v: nat, i: nat)
    requires i <= 12 && forall j :: i <= j < 13 ==> Digit(v, j) == 0
    ensures Left(v, i) == 0
    decreases 12 - i
  {
    hide Digit, Left;
    LeftZero(v, i);
    if i < 12 {
      ZeroFrom(v, i + 1);
    }
  }

  // ----- from the bottom -----

  /** The thirteen characters, last one first, as the tools fill them in. */
  method Fill(v: nat) returns (str: string)
    requires v < W64
    ensures str == Chars(Digits(v))
  {
    hide Pow2, Digit;
    var text := new char[13];
    var tmp := v;
    One();
    for i := 0 to 13
      invariant tmp == v / Pow2(if i == 0 then 0 else 5 * i - 1) && tmp >= 0
      invariant forall j :: 13 - i <= j < 13 ==> text[j] == CHARMAP[Digit(v, j)]
    {
      BottomDigit(v, i);
      text[12 - i] := CHARMAP[if i == 0 then tmp % 16 else tmp % 32];
      tmp := if i == 0 then tmp / 16 else tmp / 32;
    }
    str := text[..];
    assert str == Chars(Digits(v));
  }

  lemma {:induction false} BottomDigit(v: nat, i: nat)
    requires i < 13
    ensures var tmp := v / Pow2(if i == 0 then 0 else 5 * i - 1);
            && tmp >= 0 && Digit(v, 12 - i) == (if i == 0 then tmp % 16 else tmp % 32)
            && (if i == 0 then tmp / 16 else tmp / 32) == v / Pow2(5 * (i + 1) - 1)
  {
    hide Pow2;
    One();
    Sixteen();
    if i > 0 {
      var k := 5 * i - 1;
      NonNegative(v, Pow2(k));
      FiveMore(k);
      DivTwice(v, Pow2(k), 32);
      assert 59 - 5 * (12 - i) == k;
    }
  }

  /** `name_to_string` of the tools: zero is printed in full. */
  method NameToString(v: nat) returns (str: string)
    requires v < W64
    ensures str == if v == 0 then "_____________" else Printed(v)
  {
    hide Digit, Pow2, Digits;
    str := Fill(v);
    var last := FindLastNotUnderscore(str);
    ZeroText(v);
    if last != -1 {
      TrimUnique(str, str[..last + 1]);
      str := str[..last + 1];
    } else {
      TrimUnique(str, "");
    }
  }

  method FindLastNotUnderscore(s: string) returns (last: int)
    ensures -1 <= last < |s| && (last >= 0 ==> s[last] != '_') && forall j :: last < j < |s| ==> s[j] == '_'
  {
    last := |s| - 1;
    while last >= 0
      invariant -1 <= last < |s| && forall j :: last < j < |s| ==> s[j] == '_'
    {
      if s[last] != '_' {
        break;
      }
      last := last - 1;
    }
  }

  lemma {:induction false} ZeroText(v: nat)
    requires v < W64
    ensures (forall j :: 0 <= j < 13 ==> Chars(Digits(v))[j] == '_') <==> v == 0
    ensures v == 0 ==> Chars(Digits(v)) == "_____________"
  {
    hide Digit, Pow2;
    forall j | 0 <= j < 13 ensures Chars(Digits(v))[j] == '_' <==> Digit(v, j) == 0 {
      ValueBack(Digit(v, j));
    }
    AllZero(v);
    if v == 0 {
      LeftStart(0);
      LeftZero(0, 0);
    }
  }

  /** `validate_name`: whether the error handler is not called. */
  method ValidateName(str: string) returns (ok: bool)
    ensures ok <==> IsName(str) && Trim(str) == str
  {
    hide Digit, Pow2, Digits, Symbols;
    if |str| > 13 {
      return false;
    }
    var cs := CString(str);
    var value := StringToName(cs);
    Widths();
    DigitsOfValue(Symbols(cs));
    var str2 := Fill(value);
    var last := FindLastNotUnderscore(str2);
    TrimUnique(str2, str2[..last + 1]);
    str2 := str2[..last + 1];
    ok := str2 == str;
    Normalized(str);
  }

  /** A text is what its symbols are printed as exactly when it is a name without underscores at its end. */
  lemma {:induction false} Normalized(str: string)
    requires |str| <= 13
    ensures Trim(Chars(Symbols(CString(str)))) == str <==> IsName(str) && Trim(str) == str
  {
    hide Symbols;
    var d := Symbols(CString(str));
    if IsName(str) {
      NameHasNoNul(str);
      SymbolsOfName(str);
      CharsOfPadded(str);
      TrimUnique(Chars(d), Trim(str));
    }
    if Trim(Chars(d)) == str {
      forall i | 0 <= i < |str| ensures CharToValue(str[i]) == d[i] {
        ValueBack(d[i]);
      }
      TrimUnique(str, str);
    }
  }

  lemma {:induction false} NameHasNoNul(s: string)
    requires forall i :: 0 <= i < |s| ==> CharToValue(s[i]) >= 0
    ensures CString(s) == s
    decreases |s|
  {
    if s != "" {
      NameHasNoNul(s[1..]);
    }
  }

  /** Every text the tools accept is the same name to the library and to the tools. */
  method BothRead(str: string) returns (ok: bool, library: nat, tools: nat)
    ensures ok <==> IsName(str) && Trim(str) == str
    ensures ok ==> library == tools == Parse(str) && Printed(library) == str
  {
    library, tools := 0, 0;
    ok := ValidateName(str);
    if ok {
      var fine;
      fine, library := FromString(str);
      NameHasNoNul(str);
      tools := StringToName(CString(str));
      SymbolsOfName(str);
      PrintedParse(str);
    }
  }
}
