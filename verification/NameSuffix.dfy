/**
 The suffix of a name: the part after its last underscore.
 */
module NameSuffix {
  import opened Bits
  import opened NameValues
  import opened Names
  import opened NamePrint

  // ----- where the last underscore is -----

  /** The place of the last underscore among the first `i` characters, 0 if there is none. */
  ghost function LastDot(v: nat, i: nat): nat
    requires i <= 12
  {
    if i == 0 then 0 else if Digit(v, i - 1) == 0 then 59 - 5 * (i - 1) else LastDot(v, i - 1)
  }

  /** The same, but with another character after it. */
  ghost function ActualDot(v: nat, i: nat): nat
    requires i <= 12
  {
    if i == 0 then 0 else if Digit(v, i - 1) == 0 then ActualDot(v, i - 1) else LastDot(v, i - 1)
  }

  /** There is no underscore below `i`, or `k` is the last one. */
  ghost predicate IsLastDot(v: nat, i: nat, dot: nat, k: int)
    requires i <= 12
  {
    if dot == 0 then k == -1 && forall j :: 0 <= j < i ==> Digit(v, j) != 0
    else 0 <= k < i && dot == 59 - 5 * k && Digit(v, k) == 0 && forall j :: k < j < i ==> Digit(v, j) != 0
  }

  lemma {:induction false} LastDotIs(v: nat, i: nat) returns (k: int)
    requires i <= 12
    ensures IsLastDot(v, i, LastDot(v, i), k)
    decreases i
  {
    hide Digit;
    k := -1;
    if i > 0 {
      if Digit(v, i - 1) == 0 {
        k := i - 1;
      } else {
        k := LastDotIs(v, i - 1);
      }
    }
  }

  /** With `m` the last character that is no underscore, what counts is what is in front of it. */
  lemma {:induction false} ActualDotIs(v: nat, i: nat, m: nat)
    requires m < i <= 12 && Digit(v, m) != 0 && forall j :: m < j < i ==> Digit(v, j) == 0
    ensures ActualDot(v, i) == LastDot(v, m)
    decreases i
  {
    hide Digit;
    if m < i - 1 {
      ActualDotIs(v, i - 1, m);
    }
  }

  lemma {:induction false} NoActualDot(v: nat, i: nat)
    requires i <= 12 && forall j :: 0 <= j < i ==> Digit(v, j) == 0
    ensures ActualDot(v, i) == 0
    decreases i
  {
    hide Digit;
    if i > 0 {
      NoActualDot(v, i - 1);
    }
  }

  // ----- moving the characters up -----

  function Moved(d: seq<nat>, k: nat): (e: seq<nat>)
    requires IsDigits(d) && k < 12
    ensures IsDigits(e) && forall j :: 0 <= j < 13 ==> e[j] == if k + 1 + j <= 12 then d[k + 1 + j] else 0
  {
    seq(13, j requires 0 <= j < 13 => if k + 1 + j <= 12 then d[k + 1 + j] else 0)
  }

  lemma {:induction false} SumMoved(d: seq<nat>, k: nat, m: nat)
    requires IsDigits(d) && k < 12 && m <= 11 - k
    ensures Sum(Moved(d, k), m) == (Sum(d, k + 1 + m) - Sum(d, k + 1)) * Pow2(5 * (k + 1))
    decreases m
  {
    hide Pow2, Sum;
    var e := Moved(d, k);
    if m == 0 {
      SumNone(e);
    } else {
      SumMoved(d, k, m - 1);
      SumNext(e, m - 1);
      SumNext(d, k + m);
      var p, q := Pow2(59 - 5 * (k + m)), Pow2(5 * (k + 1));
      Pow2Add(59 - 5 * (k + m), 5 * (k + 1));
      assert 59 - 5 * (k + m) + 5 * (k + 1) == 59 - 5 * (m - 1);
      AddTerm(Sum(d, k + m) - Sum(d, k + 1), d[k + m], p, q);
    }
  }

  lemma {:induction false} AddTerm(a: int, d: nat, p: nat, q: nat)
    ensures a * q + d * (p * q) == (a + d * p) * q
  {
    assert d * p * q == d * (p * q);
  }

  /** The value of the characters after the underscore at `k`, moved to the top. */
  lemma {:induction false} MovedValue(v: nat, k: nat)
    requires v < W64 && k < 12
    ensures var rb := 59 - 5 * k;
            && 0 <= v % Pow2(rb) - v % 16
            && Value(Moved(Digits(v), k)) == (v % Pow2(rb) - v % 16) * Pow2(5 * k + 5) + v % 16 * Pow2(5 * k + 4)
  {
    hide Pow2, Sum, Digits;
    Widths();
    var d := Digits(v);
    var e := Moved(d, k);
    SumMoved(d, k, 11 - k);
    SumOfDigits(v, 12);
    SumOfDigits(v, k + 1);
    assert 64 - 5 * (k + 1) == 59 - 5 * k && k + 1 + (11 - k) == 12;
    SumNext(e, 11 - k);
    SumZeros(e, 12 - k);
    LastDigitIs(v);
    assert e[12] == 0 && e[11 - k] == v % 16 && 59 - 5 * (11 - k) == 5 * k + 4;
    SumGrows(d, k + 1);
  }

  lemma {:induction false} SumGrows(d: seq<nat>, n: nat)
    requires IsDigits(d) && n <= 12
    ensures Sum(d, n) <= Sum(d, 12)
    decreases 12 - n
  {
    hide Pow2, Sum;
    if n < 12 {
      SumNext(d, n);
      NonNegativeProduct(d[n], Pow2(59 - 5 * n));
      SumGrows(d, n + 1);
    }
  }

  /** The mask takes out what is above the underscore and the four low bits. */
  lemma {:induction false} MaskedBits(v: nat, rb: nat)
    requires 4 <= rb
    ensures 16 <= Pow2(rb) && And(v, Pow2(rb) - 16) == v % Pow2(rb) - v % 16
  {
    hide Pow2, And;
    Widths();
    var a := v % Pow2(rb);
    Pow2Monotone(4, rb);
    AndBelow(v, Pow2(rb) - 16, rb);
    AndHigh(a, 4, rb - 4);
    assert 4 + (rb - 4) == rb;
    LowNibble(v, rb);
  }

  lemma {:induction false} LowNibble(v: nat, rb: nat)
    requires 4 <= rb
    ensures v % Pow2(rb) % 16 == v % 16
  {
    hide Pow2;
    Widths();
    Pow2Add(rb - 4, 4);
    var p := Pow2(rb - 4);
    var q, a := v / Pow2(rb), v % Pow2(rb);
    NonNegative(v, Pow2(rb));
    assert v == q * Pow2(rb) + a;
    assert q * (p * 16) == q * p * 16;
    NonNegative(a, 16);
    assert a == a / 16 * 16 + a % 16;
    NonNegativeProduct(q, p);
    SplitUnique(v, 16, q * p + a / 16, a % 16);
  }

  // ----- the texts -----

  lemma {:induction false} LastNotBelow(s: string, l: int, k: int)
    requires -1 <= l < |s| && -1 <= k < |s| && (k >= 0 ==> s[k] == '_') && forall j :: l < j < |s| ==> s[j] != '_'
    ensures k <= l
  {
  }

  lemma {:induction false} AfterLastUnique(s: string, k: int)
    requires -1 <= k < |s| && (k >= 0 ==> s[k] == '_') && forall j :: k < j < |s| ==> s[j] != '_'
    ensures AfterLast(s) == s[k + 1..]
  {
    hide LastUnderscore;
    var l := LastUnderscore(s);
    LastNotBelow(s, l, k);
    LastNotBelow(s, k, l);
  }

  lemma {:induction false} MovedText(v: nat, k: nat, len: nat)
    requires k < 12 && k + 1 < len <= 13 && len == |Printed(v)|
    ensures Trim(Chars(Moved(Digits(v), k))) == Printed(v)[k + 1..]
  {
    hide Digits, Digit;
    var s, t, r := Chars(Digits(v)), Chars(Moved(Digits(v), k)), Printed(v)[k + 1..];
    assert CHARMAP[0] == '_';
    forall j | 0 <= j < |r| ensures r[j] == t[j] {
      assert r[j] == s[k + 1 + j];
    }
    forall j | |r| <= j < 13 ensures t[j] == '_' {
      if k + 1 + j <= 12 {
        assert t[j] == s[k + 1 + j];
      }
    }
    assert r[|r| - 1] == Printed(v)[len - 1];
    TrimUnique(t, r);
  }

  /** The last character of the text. */
  lemma {:induction false} PrintedDigits(v: nat)
    requires v < W64
    ensures |Printed(v)| <= 13 && (v == 0 <==> Printed(v) == "")
    ensures forall j :: 0 <= j < |Printed(v)| ==> (Printed(v)[j] == '_' <==> Digit(v, j) == 0)
    ensures v != 0 ==> Digit(v, |Printed(v)| - 1) != 0
    ensures forall j :: |Printed(v)| <= j < 13 ==> Digit(v, j) == 0
  {
    hide Digit;
    var s := Chars(Digits(v));
    forall j | 0 <= j < 13 ensures s[j] == '_' <==> Digit(v, j) == 0 {
      ValueBack(Digit(v, j));
    }
    ZeroText(v);
    if v == 0 {
      TrimUnique(s, "");
    }
  }

  /** What the loop has found, told by the text. */
  lemma {:induction false} DotInText(v: nat) returns (k: int)
    requires v < W64
    ensures var dot := if v % 16 != 0 then LastDot(v, 12) else ActualDot(v, 12);
            var s := Printed(v);
            && |s| <= 13 && -1 <= k < |s| && k < 12 && (k >= 0 ==> s[k] == '_' && k + 1 < |s|)
            && (forall j :: k < j < |s| ==> s[j] != '_')
            && dot == (if k < 0 then 0 else 59 - 5 * k)
  {
    hide Digit, Printed;
    PrintedDigits(v);
    LastDigitIs(v);
    var s := Printed(v);
    k := -1;
    if v == 0 {
      NoActualDot(0, 12);
    } else {
      var m := |s| - 1;
      k := LastDotIs(v, m);
      if m < 12 {
        ActualDotIs(v, 12, m);
      }
    }
  }

  /** The name `_a` has no underscore but a leading one, and still its suffix is `a`. */
  method LeadingUnderscore() returns (v: nat, r: nat)
    ensures v < W64 && Printed(v) == "_a" && r < W64 && Printed(r) == "a"
  {
    hide Printed, Parse;
    var ok;
    ok, v := FromString("_a");
    PrintedParse("_a");
    Widths();
    r := Suffix(v);
    AfterLastUnique("_a", 0);
  }

  /** `suffix`. Leading underscores count like any others. */
  method Suffix(v: nat) returns (r: nat)
    requires v < W64
    ensures r < W64 && Printed(r) == AfterLast(Printed(v))
  {
    hide Digit, Pow2, And, Printed, Digits, Sum, LastDot, ActualDot, Combined, AfterLast;
    var after, tmp, rem, i := 0, 0, 59, 0;
    DotsStart(v);
    while rem >= 4
      invariant 0 <= i <= 12 && rem == 59 - 5 * i && tmp == LastDot(v, i) && after == ActualDot(v, i)
      decreases rem
    {
      DotsStep(v, i);
      var c := v / Pow2(rem) % 32;
      if c == 0 {
        tmp := rem;
      } else {
        after := tmp;
      }
      rem := rem - 5;
      i := i + 1;
    }
    var thirteenth := v % 16;
    if thirteenth != 0 {
      after := tmp;
    }
    ghost var k := DotInText(v);
    ghost var text := Printed(v);
    AfterLastUnique(text, k);
    if after == 0 {
      assert text[0..] == text;
      return v;
    }
    SuffixValue(v, k);
    r := Combined(v, after);
  }

  /** The characters between the underscore and the last one, moved up, and the last one behind them. */
  function Combined(v: nat, after: nat): nat
    requires 4 <= after <= 59
  {
    MaskedBits(v, after);
    var mask := Pow2(after) - 16;
    var shift := 64 - after;
    ((And(v, mask) * Pow2(shift)) % W64 + (v % 16 * Pow2(shift - 1)) % W64) % W64
  }

  lemma {:induction false} DotsStart(v: nat)
    ensures LastDot(v, 0) == 0 && ActualDot(v, 0) == 0
  {
  }

  lemma {:induction false} DotsStep(v: nat, i: nat)
    requires i < 12
    ensures Digit(v, i) == v / Pow2(59 - 5 * i) % 32
    ensures LastDot(v, i + 1) == (if Digit(v, i) == 0 then 59 - 5 * i else LastDot(v, i))
    ensures ActualDot(v, i + 1) == (if Digit(v, i) == 0 then ActualDot(v, i) else LastDot(v, i))
  {
  }

  lemma {:induction false} SuffixValue(v: nat, k: nat)
    requires v < W64 && k < 12 && k + 1 < |Printed(v)| <= 13
    ensures var r := Combined(v, 59 - 5 * k);
            r < W64 && Printed(r) == Printed(v)[k + 1..]
  {
    hide Digit, Pow2, And, Digits, Sum, Chars, Trim, Value;
    Widths();
    var after, e := 59 - 5 * k, Moved(Digits(v), k);
    MaskedBits(v, after);
    MovedValue(v, k);
    DigitsOfValue(e);
    assert 64 - after == 5 * k + 5 && 63 - after == 5 * k + 4;
    NonNegativeProduct(And(v, Pow2(after) - 16), Pow2(64 - after));
    NonNegativeProduct(v % 16, Pow2(63 - after));
    NoCarry(And(v, Pow2(after) - 16) * Pow2(64 - after), v % 16 * Pow2(63 - after));
    MovedText(v, k, |Printed(v)|);
  }

  lemma {:induction false} NoCarry(x: nat, y: nat)
    requires x + y < W64
    ensures (x % W64 + y % W64) % W64 == x + y
  {
  }
}
