/**
 The text of 128-bit numbers: what is printed, and what a text is read as.
 */
module Decimal {
  import opened Bits
  import opened Arith128

  const DIGITS: string := "0123456789abcdefghijklmnopqrstuvwxyz"

  function DigitChar(n: nat): (c: char)
    requires n < 10
    ensures '0' <= c <= '9' && (n > 0 ==> c != '0')
  {
    DIGITS[n]
  }

  /** The decimal digits of a number, without leading zeros. */
  function Digits(n: nat): (s: string)
    ensures |s| > 0 && forall i :: 0 <= i < |s| ==> '0' <= s[i] <= '9'
    ensures n > 0 ==> s[0] != '0'
  {
    if n < 10 then [DigitChar(n)] else Digits(n / 10) + [DigitChar(n % 10)]
  }

  /** The digit a character stands for, -1 if it stands for none. */
  function DigitValue(c: char, radix: nat): (d: int)
    ensures -1 <= d < radix
  {
    var n := if 'A' <= c <= 'Z' then c as int - 'A' as int + 10
             else if 'a' <= c <= 'z' then c as int - 'a' as int + 10
             else if '0' <= c <= '9' then c as int - '0' as int
             else radix;
    if n < radix then n else -1
  }

  /** Reads digits up to the first character that is none. */
  function ReadDigits(v: nat, s: string, radix: nat): (r: nat)
    requires v < M
    ensures r < M
    decreases |s|
  {
    if s == "" || DigitValue(s[0], radix) < 0 then v
    else ReadDigits((v * radix + DigitValue(s[0], radix)) % M, s[1..], radix)
  }

  /** The radix, by the prefix `0` or `0x`, and the digits after it. */
  function Unprefixed(s: string): (nat, string) {
    if s != "" && s[0] == '0' then
      if |s| > 1 && s[1] == 'x' then (16, s[2..]) else (8, s[1..])
    else (10, s)
  }

  function ReadNumber(s: string): (v: nat)
    ensures v < M
  {
    var (radix, digits) := Unprefixed(s);
    ReadDigits(0, digits, radix)
  }

  function Parse(s: string): (v: nat)
    ensures v < M
  {
    if s != "" && s[0] == '-' then (M - ReadNumber(s[1..])) % M else ReadNumber(s)
  }

  lemma {:induction false} ReadDigit(n: nat)
    requires n < 10
    ensures DigitValue(DIGITS[n], 10) == n && '0' <= DIGITS[n] <= '9'
  {
  }

  /** Reading a number digit by digit. */
  lemma {:induction false} ReadMore(v: nat, s: string, c: char, radix: nat)
    requires v < M && (forall i :: 0 <= i < |s| ==> DigitValue(s[i], radix) >= 0) && DigitValue(c, radix) >= 0
    ensures ReadDigits(v, s + [c], radix) == (ReadDigits(v, s, radix) * radix + DigitValue(c, radix)) % M
    decreases |s|
  {
    if s == "" {
      assert ([c])[1..] == "" && s + [c] == [c];
    } else {
      assert (s + [c])[1..] == s[1..] + [c] && (s + [c])[0] == s[0];
      ReadMore((v * radix + DigitValue(s[0], radix)) % M, s[1..], c, radix);
    }
  }

  lemma {:induction false} DigitsAreDigits(n: nat)
    ensures forall i :: 0 <= i < |Digits(n)| ==> DigitValue(Digits(n)[i], 10) >= 0
  {
  }

  lemma {:induction false} ReadsBack(n: nat)
    requires n < M
    ensures ReadDigits(0, Digits(n), 10) == n
  {
    hide DigitValue, ReadDigits;
    if n < 10 {
      ReadOne(n);
    } else {
      ReadsBack(n / 10);
      ReadDigit(n % 10);
      DigitsAreDigits(n / 10);
      ReadMore(0, Digits(n / 10), DIGITS[n % 10], 10);
      ModUnique(n / 10 * 10 + n % 10, M, 0, n);
    }
  }

  lemma {:induction false} ReadOne(n: nat)
    requires n < 10
    ensures ReadDigits(0, Digits(n), 10) == n
  {
    ReadDigit(n);
    assert Digits(n)[1..] == "";
    ModUnique(n, M, 0, n);
  }

  /** Parsing what is printed gives the number back: zero, too, although `0` is the octal prefix. */
  lemma {:induction false} ParseDigits(n: nat)
    requires n < M
    ensures Parse(Digits(n)) == n
  {
    if n == 0 {
      assert Digits(0) == "0" && Digits(0)[1..] == "";
    } else {
      ReadsBack(n);
    }
  }

  /** A minus sign gives the two's complement. */
  lemma {:induction false} ParseNegative(n: nat)
    requires n < M
    ensures Parse("-" + Digits(n)) == (0 - n) % M
  {
    assert ("-" + Digits(n))[1..] == Digits(n);
    ParseDigits(n);
    ModAdd(M, 0 - n, M);
  }

  // ----- other radixes -----

  const LOWER: string := "0123456789abcdef"
  const UPPER: string := "0123456789ABCDEF"

  /** The text of a number in any radix, written with the characters given for its digits. */
  function BaseText(n: nat, radix: nat, digits: string): (s: string)
    requires 2 <= radix <= |digits|
    ensures |s| > 0
  {
    if n < radix then [digits[n]]
    else
      Quotient(n, radix);
      BaseText(n / radix, radix, digits) + [digits[n % radix]]
  }

  lemma {:induction false} Quotient(n: nat, radix: nat)
    requires 2 <= radix <= n
    ensures 0 <= n / radix < n && 0 <= n % radix < radix && n == n / radix * radix + n % radix
  {
    assert n == n / radix * radix + n % radix;
    NonNegative(n, radix);
    Smaller(n / radix, n, radix);
  }

  lemma {:induction false} WrittenInDigits(n: nat, radix: nat, digits: string)
    requires 2 <= radix <= |digits|
    ensures forall i :: 0 <= i < |BaseText(n, radix, digits)| ==> BaseText(n, radix, digits)[i] in digits[..radix]
    decreases n
  {
    if n < radix {
      assert digits[..radix][n] == digits[n];
    } else {
      Quotient(n, radix);
      WrittenInDigits(n / radix, radix, digits);
      assert digits[..radix][n % radix] == digits[n % radix];
    }
  }

  /** Which characters are digits of a radix, and of what value. */
  lemma {:induction false} DigitsOfRadix(radix: nat)
    requires 2 <= radix <= 16
    ensures forall d :: 0 <= d < radix ==> DigitValue(LOWER[d], radix) == d && DigitValue(UPPER[d], radix) == d
    ensures forall c :: DigitValue(c, radix) < 0 <==> c !in LOWER[..radix] && c !in UPPER[..radix]
  {
    hide DigitValue;
    forall d | 0 <= d < radix ensures DigitValue(LOWER[d], radix) == d && DigitValue(UPPER[d], radix) == d {
      DigitWritten(d, radix);
    }
    forall c ensures DigitValue(c, radix) < 0 <==> c !in LOWER[..radix] && c !in UPPER[..radix] {
      DigitRead(c, radix);
    }
  }

  lemma {:induction false} DigitWritten(d: nat, radix: nat)
    requires d < radix <= 16
    ensures DigitValue(LOWER[d], radix) == d && DigitValue(UPPER[d], radix) == d
  {
    assert LOWER[d] == if d < 10 then '0' + d as char else 'a' + (d - 10) as char;
    assert UPPER[d] == if d < 10 then '0' + d as char else 'A' + (d - 10) as char;
  }

  lemma {:induction false} DigitRead(c: char, radix: nat)
    requires 2 <= radix <= 16
    ensures DigitValue(c, radix) < 0 <==> c !in LOWER[..radix] && c !in UPPER[..radix]
  {
    var d := DigitValue(c, radix);
    if d >= 0 {
      assert c == if d < 10 then '0' + d as char
                  else if c >= 'a' then 'a' + (d - 10) as char else 'A' + (d - 10) as char;
      assert LOWER[..radix][d] == LOWER[d] && UPPER[..radix][d] == UPPER[d];
    } else {
      forall k | 0 <= k < radix ensures LOWER[..radix][k] != c && UPPER[..radix][k] != c {
        DigitWritten(k, radix);
      }
    }
  }

  lemma {:induction false} BaseReadsBack(n: nat, radix: nat, digits: string)
    requires 2 <= radix <= |digits| && n < M && (digits == LOWER || digits == UPPER)
    ensures ReadDigits(0, BaseText(n, radix, digits), radix) == n
    decreases n
  {
    hide DigitValue, ReadDigits, BaseText;
    DigitsOfRadix(radix);
    TextOfBase(n, radix, digits);
    if n < radix {
      ReadsNone(0, radix);
      assert "" + [digits[n]] == [digits[n]];
      OneMoreDigit("", digits[n], radix, 0, n, n);
    } else {
      var q, d := n / radix, n % radix;
      var high := BaseText(q, radix, digits);
      BaseReadsBack(q, radix, digits);
      WrittenInDigits(q, radix, digits);
      forall i | 0 <= i < |high| ensures DigitValue(high[i], radix) >= 0 {
        assert high[i] in digits[..radix];
      }
      OneMoreDigit(high, digits[d], radix, q, d, n);
    }
  }

  lemma {:induction false} OneMoreDigit(high: string, c: char, radix: nat, q: nat, d: nat, n: nat)
    requires forall i :: 0 <= i < |high| ==> DigitValue(high[i], radix) >= 0
    requires ReadDigits(0, high, radix) == q && DigitValue(c, radix) == d && q * radix + d == n < M
    ensures ReadDigits(0, high + [c], radix) == n
  {
    hide DigitValue, ReadDigits;
    ReadMore(0, high, c, radix);
    Reduced(n);
  }

  lemma {:induction false} Reduced(n: nat)
    requires n < M
    ensures n % M == n
  {
    ModUnique(n, M, 0, n);
  }

  lemma {:induction false} TextOfBase(n: nat, radix: nat, digits: string)
    requires 2 <= radix <= |digits|
    ensures n < radix ==> BaseText(n, radix, digits) == [digits[n]]
    ensures n >= radix ==>
              var q, d := n / radix, n % radix;
              && 0 <= q < n && 0 <= d < radix && n == q * radix + d
              && BaseText(n, radix, digits) == BaseText(q, radix, digits) + [digits[d]]
  {
    if n >= radix {
      Quotient(n, radix);
    }
  }

  lemma {:induction false} Smaller(q: nat, n: nat, radix: nat)
    requires radix >= 2 && n >= radix && q * radix <= n < q * radix + radix
    ensures q < n
  {
    FactorMonotone(2, radix, q);
  }

  lemma {:induction false} ReadsNone(v: nat, radix: nat)
    requires v < M
    ensures ReadDigits(v, "", radix) == v
  {
  }

  lemma {:induction false} ReadsFirst(v: nat, c: char, rest: string, radix: nat)
    requires v < M
    ensures ReadDigits(v, [c] + rest, radix) ==
            if DigitValue(c, radix) < 0 then v else ReadDigits((v * radix + DigitValue(c, radix)) % M, rest, radix)
  {
    assert ([c] + rest)[1..] == rest;
  }

  /** `0x` and the hexadecimal text of a number, in lower or upper case, is read as that number. */
  lemma {:induction false} ParseHexadecimal(n: nat)
    requires n < M
    ensures Parse("0x" + BaseText(n, 16, LOWER)) == n && Parse("0x" + BaseText(n, 16, UPPER)) == n
  {
    BaseReadsBack(n, 16, LOWER);
    BaseReadsBack(n, 16, UPPER);
    assert ("0x" + BaseText(n, 16, LOWER))[2..] == BaseText(n, 16, LOWER);
    assert ("0x" + BaseText(n, 16, UPPER))[2..] == BaseText(n, 16, UPPER);
  }

  /** `0` and the octal text of a number is read as that number. */
  lemma {:induction false} ParseOctal(n: nat)
    requires n < M
    ensures Parse("0" + BaseText(n, 8, LOWER)) == n
  {
    var s := BaseText(n, 8, LOWER);
    BaseReadsBack(n, 8, LOWER);
    assert ("0" + s)[1..] == s;
    WrittenInDigits(n, 8, LOWER);
    assert s[0] in LOWER[..8];
  }

  /** Reading stops at the first character that is no digit of the radix. */
  lemma {:induction false} StopsAtOther(v: nat, s: string, c: char, rest: string, radix: nat)
    requires v < M && 2 <= radix <= 16 && c !in LOWER[..radix] && c !in UPPER[..radix]
    ensures ReadDigits(v, s + [c] + rest, radix) == ReadDigits(v, s, radix)
    decreases |s|
  {
    hide DigitValue, ReadDigits;
    DigitsOfRadix(radix);
    if s == "" {
      assert "" + [c] + rest == [c] + rest;
      ReadsFirst(v, c, rest, radix);
      ReadsNone(v, radix);
    } else {
      assert s == [s[0]] + s[1..] && s + [c] + rest == [s[0]] + (s[1..] + [c] + rest);
      ReadsFirst(v, s[0], s[1..], radix);
      ReadsFirst(v, s[0], s[1..] + [c] + rest, radix);
      if DigitValue(s[0], radix) >= 0 {
        StopsAtOther((v * radix + DigitValue(s[0], radix)) % M, s[1..], c, rest, radix);
      }
    }
  }

  /** 39 digits are enough. */
  lemma {:induction false} DigitsLength(n: nat, k: nat)
    requires k > 0 && n < Pow10(k)
    ensures |Digits(n)| <= k
    decreases k
  {
    if n >= 10 {
      assert k > 1;
      DigitsLength(n / 10, k - 1);
    }
  }

  function Pow10(k: nat): nat {
    if k == 0 then 1 else 10 * Pow10(k - 1)
  }

  lemma {:induction false} Below39Digits(n: nat)
    requires n < M
    ensures |Digits(n)| <= 39
  {
    assert Pow10(13) == 10_000_000_000_000;
    Pow10Add(13, 13);
    Pow10Add(26, 13);
    DigitsLength(n, 39);
  }

  lemma {:induction false} Pow10Add(j: nat, k: nat)
    ensures Pow10(j + k) == Pow10(j) * Pow10(k)
    decreases j
  {
    if j > 0 {
      Pow10Add(j - 1, k);
    }
  }
}
