/**
 Names: up to thirteen characters packed into 64 bits, twelve of five bits from the top and one of four.
 */
module NameValues {
  import opened Bits

  const CHARMAP: string := "_12345abcdefghijklmnopqrstuvwxyz"

  /** `char_to_value`; -1 where the check fails. */
  function CharToValue(c: char): (d: int)
    ensures -1 <= d < 32
  {
    if c == '_' then 0
    else if '1' <= c <= '5' then c as int - '1' as int + 1
    else if 'a' <= c <= 'z' then c as int - 'a' as int + 6
    else -1
  }

  lemma {:induction false} CharBack(c: char)
    ensures CharToValue(c) >= 0 ==> |CHARMAP| == 32 && CHARMAP[CharToValue(c)] == c
  {
  }

  lemma {:induction false} ValueBack(d: nat)
    requires d < 32
    ensures |CHARMAP| == 32 && CharToValue(CHARMAP[d]) == d && (CHARMAP[d] == '_' <==> d == 0) && CHARMAP[d] != '\0'
  {
  }

  // ----- digits -----

  /** The place of the low bit of character `i`. */
  function Place(i: nat): nat
    requires i <= 12
  {
    if i == 12 then 0 else 59 - 5 * i
  }

  function Digit(v: nat, i: nat): (d: nat)
    requires i <= 12
    ensures d < if i == 12 then 16 else 32
  {
    if i == 12 then v % 16
    else
      NonNegative(v, Pow2(59 - 5 * i));
      v / Pow2(59 - 5 * i) % 32
  }

  predicate IsDigits(d: seq<nat>) {
    |d| == 13 && (forall i :: 0 <= i < 12 ==> d[i] < 32) && d[12] < 16
  }

  function Digits(v: nat): (d: seq<nat>)
    ensures IsDigits(d) && forall i :: 0 <= i <= 12 ==> d[i] == Digit(v, i)
  {
    seq(13, i requires 0 <= i < 13 => Digit(v, i))
  }

  /** The first `n` digits, each in its place. */
  function Sum(d: seq<nat>, n: nat): nat
    requires IsDigits(d) && n <= 12
  {
    if n == 0 then 0 else Sum(d, n - 1) + Term(d[n - 1], Place(n - 1))
  }

  function Term(d: nat, place: nat): (t: nat)
    ensures t == d * Pow2(place)
  {
    NonNegativeProduct(d, Pow2(place));
    d * Pow2(place)
  }

  function Value(d: seq<nat>): nat
    requires IsDigits(d)
  {
    Sum(d, 12) + d[12]
  }

  lemma {:induction false} FiveMore(k: nat)
    ensures Pow2(k + 5) == 32 * Pow2(k)
  {
    assert Pow2(2) == 4 && Pow2(4) == 16 && Pow2(5) == 32;
    Pow2Add(5, k);
  }

  /** The digits of a number, up to `n`, leave what is below them. */
  lemma {:induction false} SumOfDigits(v: nat, n: nat)
    requires v < Pow2(64) && n <= 12
    ensures Sum(Digits(v), n) + v % Pow2(64 - 5 * n) == v
    decreases n
  {
    hide Pow2, Digits;
    if n == 0 {
      SplitUnique(v, Pow2(64), 0, v);
    } else {
      SumOfDigits(v, n - 1);
      var k := 64 - 5 * n;
      FiveMore(k);
      OneDigit(v, Pow2(k));
    }
  }

  lemma {:induction false} OneDigit(v: nat, p: nat)
    requires p > 0
    ensures v % (32 * p) == v / p % 32 * p + v % p
  {
    var q, r := v / p, v % p;
    NonNegative(v, p);
    assert v == q * p + r;
    assert q == q / 32 * 32 + q % 32;
    SplitDigit(v, q / 32, q % 32, r, p);
  }

  lemma {:induction false} SplitDigit(v: nat, h: nat, d: nat, r: nat, p: nat)
    requires v == (h * 32 + d) * p + r && d < 32 && r < p
    ensures v % (32 * p) == d * p + r
  {
    Combine(h, d, p);
    Below32(d, p, r);
    NonNegativeProduct(d, p);
    SplitUnique(v, 32 * p, h, d * p + r);
  }

  /** A number is the value of its digits. */
  lemma {:induction false} ValueOfDigits(v: nat)
    requires v < Pow2(64)
    ensures Value(Digits(v)) == v
  {
    hide Sum, Pow2;
    SumOfDigits(v, 12);
    Sixteen();
  }

  lemma {:induction false} Sixteen()
    ensures Pow2(4) == 16
  {
    assert Pow2(2) == 4;
  }

  /** What the digits from `n` on come to. */
  function Low(d: seq<nat>, n: nat): nat
    requires IsDigits(d) && n <= 12
    decreases 12 - n
  {
    if n == 12 then d[12] else Term(d[n], Place(n)) + Low(d, n + 1)
  }

  lemma {:induction false} LowBound(d: seq<nat>, n: nat)
    requires IsDigits(d) && n <= 12
    ensures Low(d, n) < Pow2(64 - 5 * n)
    decreases 12 - n
  {
    hide Pow2;
    if n == 12 {
      Sixteen();
    } else {
      LowBound(d, n + 1);
      FiveMore(59 - 5 * n);
      Below32(d[n], Pow2(59 - 5 * n), Low(d, n + 1));
    }
  }

  lemma {:induction false} Below32(d: nat, p: nat, r: nat)
    requires d < 32 && r < p
    ensures d * p + r < 32 * p
  {
    assert (31 - d) * p == 31 * p - d * p && (31 - d) * p >= 0;
  }

  lemma {:induction false} SumAndLow(d: seq<nat>, n: nat)
    requires IsDigits(d) && n <= 12
    ensures Sum(d, n) + Low(d, n) == Value(d)
    decreases 12 - n
  {
    if n < 12 {
      SumAndLow(d, n + 1);
    }
  }

  lemma {:induction false} SumMultiple(d: seq<nat>, n: nat) returns (m: nat)
    requires IsDigits(d) && n <= 12
    ensures Sum(d, n) == m * Pow2(64 - 5 * n)
    decreases n
  {
    hide Pow2;
    m := 0;
    if n > 0 {
      var m' := SumMultiple(d, n - 1);
      var p := Pow2(64 - 5 * n);
      FiveMore(64 - 5 * n);
      m := m' * 32 + d[n - 1];
      Combine(m', d[n - 1], p);
    }
  }

  lemma {:induction false} Combine(m: nat, d: nat, p: nat)
    ensures m * (32 * p) + d * p == (m * 32 + d) * p
  {
    assert m * 32 * p == m * (32 * p);
  }

  /** The digits of a value are the digits it was made of. */
  lemma {:induction false} DigitsOfValue(d: seq<nat>)
    requires IsDigits(d)
    ensures Value(d) < Pow2(64) && Digits(Value(d)) == d
  {
    hide Sum, Low, Pow2;
    SumAndLow(d, 0);
    LowBound(d, 0);
    SumNone(d);
    forall i | 0 <= i <= 12 ensures Digit(Value(d), i) == d[i] {
      DigitOfValue(d, i);
    }
    assert Digits(Value(d)) == d;
  }

  lemma {:induction false} SumNone(d: seq<nat>)
    requires IsDigits(d)
    ensures Sum(d, 0) == 0
  {
  }

  lemma {:induction false} DigitOfValue(d: seq<nat>, i: nat)
    requires IsDigits(d) && i <= 12
    ensures Digit(Value(d), i) == d[i]
  {
    hide Low, Pow2, Sum;
    var m := SumMultiple(d, i);
    SumAndLow(d, i);
    if i == 12 {
      LowLast(d);
      Sixteen();
      SplitUnique(Value(d), 16, m, d[12]);
    } else {
      var p := Pow2(59 - 5 * i);
      FiveMore(59 - 5 * i);
      LowNext(d, i);
      LowBound(d, i + 1);
      Combine(m, d[i], p);
      TopDigit(Value(d), p, m, d[i], Low(d, i + 1));
    }
  }

  lemma {:induction false} TopDigit(v: nat, p: nat, m: nat, d: nat, r: nat)
    requires v == (m * 32 + d) * p + r && r < p && d < 32
    ensures v / p % 32 == d
  {
    SplitUnique(v, p, m * 32 + d, r);
  }

  lemma {:induction false} LowLast(d: seq<nat>)
    requires IsDigits(d)
    ensures Low(d, 12) == d[12]
  {
  }

  lemma {:induction false} LowNext(d: seq<nat>, i: nat)
    requires IsDigits(d) && i < 12
    ensures Low(d, i) == d[i] * Pow2(59 - 5 * i) + Low(d, i + 1)
  {
  }

  // ----- texts -----

  function Chars(d: seq<nat>): (s: string)
    requires IsDigits(d)
    ensures |s| == 13 && forall i :: 0 <= i < 13 ==> s[i] == CHARMAP[d[i]]
  {
    seq(13, i requires 0 <= i < 13 => CHARMAP[d[i]])
  }

  /** A text without the underscores it ends in. */
  function Trim(s: string): (r: string)
    ensures r <= s && (r == [] || r[|r| - 1] != '_') && forall i :: |r| <= i < |s| ==> s[i] == '_'
  {
    if s == "" || s[|s| - 1] != '_' then s else Trim(s[..|s| - 1])
  }

  /** There is one way only to cut off underscores. */
  lemma {:induction false} TrimUnique(s: string, r: string)
    requires r <= s && (r == [] || r[|r| - 1] != '_') && forall i :: |r| <= i < |s| ==> s[i] == '_'
    ensures Trim(s) == r
  {
    var t := Trim(s);
    assert t == s[..|t|] && r == s[..|r|];
  }

  /** The text of a name. */
  function Printed(v: nat): string {
    Trim(Chars(Digits(v)))
  }

  /** The thirteen digits a text stands for; underscores stand for nothing at its end. */
  function Padded(s: string): (d: seq<nat>)
    requires |s| <= 13 && forall i :: 0 <= i < |s| ==> CharToValue(s[i]) >= 0
    ensures |d| == 13 && forall i :: 0 <= i < 13 ==> d[i] == if i < |s| then CharToValue(s[i]) else 0
  {
    seq(13, i requires 0 <= i < 13 => if i < |s| then CharToValue(s[i]) else 0)
  }

  /** What the constructor from a string accepts. */
  predicate IsName(s: string) {
    && |s| <= 13 && (forall i :: 0 <= i < |s| ==> CharToValue(s[i]) >= 0)
    && (|s| == 13 ==> CharToValue(s[12]) <= 15)
  }

  function Parse(s: string): (v: nat)
    requires IsName(s)
  {
    Value(Padded(s))
  }

  /** The place of a character in the alphabet of names: `_`, `1` to `5`, `a` to `z`. */
  ghost predicate HasValue(c: char, d: int) {
    || (d == 0 && c == '_')
    || (1 <= d <= 5 && c as int == '0' as int + d)
    || (6 <= d <= 31 && c as int == 'a' as int + (d - 6))
  }

  lemma {:induction false} Alphabet()
    ensures forall c: char :: CharToValue(c) >= 0 ==> HasValue(c, CharToValue(c))
    ensures forall c: char, d: int :: HasValue(c, d) ==> CharToValue(c) == d
    ensures |CHARMAP| == 32 && forall d :: 0 <= d < 32 ==> HasValue(CHARMAP[d], d)
  {
    forall d | 0 <= d < 32 ensures HasValue(CHARMAP[d], d) {
      ValueBack(d);
    }
  }

  /** Character `i` of a name is the value of five bits from the top, the thirteenth that of the low four. */
  lemma {:induction false} CharacterBits(s: string, i: nat)
    requires IsName(s) && i < |s|
    ensures Parse(s) < Pow2(64)
    ensures HasValue(s[i], if i == 12 then Parse(s) % 16 else Parse(s) / Pow2(59 - 5 * i) % 32)
  {
    hide Value, Pow2;
    DigitsOfValue(Padded(s));
    Alphabet();
    assert Digits(Parse(s))[i] == Padded(s)[i];
  }

  /** Parsing the text of a name gives the name back. */
  lemma {:induction false} ParsePrinted(v: nat)
    requires v < Pow2(64)
    ensures IsName(Printed(v)) && Parse(Printed(v)) == v
  {
    hide Digits, Pow2, Value;
    var d := Digits(v);
    var s := Printed(v);
    forall i | 0 <= i < 13 ensures CharToValue(Chars(d)[i]) == d[i] {
      ValueBack(d[i]);
    }
    assert forall i :: 0 <= i < |s| ==> s[i] == Chars(d)[i];
    assert Padded(s) == d;
    ValueOfDigits(v);
  }

  /** The text of a parsed name is what was parsed, without underscores at its end. */
  lemma {:induction false} PrintedParse(s: string)
    requires IsName(s)
    ensures Parse(s) < Pow2(64) && Printed(Parse(s)) == Trim(s)
  {
    hide Digits, Pow2, Value;
    var d := Padded(s);
    DigitsOfValue(d);
    CharsOfPadded(s);
    TrimUnique(Chars(d), Trim(s));
  }

  lemma {:induction false} CharsOfPadded(s: string)
    requires IsName(s)
    ensures IsDigits(Padded(s)) && s <= Chars(Padded(s)) && forall i :: |s| <= i < 13 ==> Chars(Padded(s))[i] == '_'
  {
    var d := Padded(s);
    assert CHARMAP[0] == '_';
    forall i | 0 <= i < |s| ensures Chars(d)[i] == s[i] {
      CharBack(s[i]);
    }
  }

  /** The last underscore of a text, -1 if it has none. */
  function LastUnderscore(s: string): (k: int)
    ensures -1 <= k < |s| && (k >= 0 ==> s[k] == '_') && forall j :: k < j < |s| ==> s[j] != '_'
  {
    if s == "" then -1 else if s[|s| - 1] == '_' then |s| - 1 else LastUnderscore(s[..|s| - 1])
  }

  function AfterLast(s: string): string {
    s[LastUnderscore(s) + 1..]
  }
}
