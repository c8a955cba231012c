/**
 Byte strings of a fixed size, kept big-endian in 128-bit words; the last word is aligned to the left.
 */
module FixedBytes {
  import opened Buffers
  import opened Bits
  import opened Arith128

  type Word = x: int | 0 <= x < 0x1_0000_0000_0000_0000_0000_0000_0000_0000

  function Pow256(k: nat): (p: nat)
    ensures p > 0
  {
    if k == 0 then 1 else 256 * Pow256(k - 1)
  }

  lemma {:induction false} Pow256Is(k: nat)
    ensures Pow256(k) == Pow2(8 * k)
  {
    if k > 0 {
      Pow256Is(k - 1);
      SmallPowers();
      Pow2Add(8, 8 * (k - 1));
    }
  }

  lemma {:induction false} Pow256Add(j: nat, k: nat)
    ensures Pow256(j + k) == Pow256(j) * Pow256(k)
    decreases j
  {
    if j > 0 {
      Pow256Add(j - 1, k);
    }
  }

  lemma {:induction false} Sixteen()
    ensures Pow256(16) == M
  {
    hide Pow2;
    Pow256Is(16);
    Widths();
  }

  // ----- big-endian numbers -----

  function Big(s: seq<Byte>): nat {
    if s == [] then 0 else Big(s[..|s| - 1]) * 256 + s[|s| - 1]
  }

  lemma {:induction false} BigBound(s: seq<Byte>)
    ensures Big(s) < Pow256(|s|)
    decreases |s|
  {
    if s != [] {
      BigBound(s[..|s| - 1]);
    }
  }

  lemma {:induction false} BigCons(b: Byte, s: seq<Byte>)
    ensures Big([b] + s) == b * Pow256(|s|) + Big(s)
    decreases |s|
  {
    if s == [] {
      assert [b] + s == [b] && [b][..0] == [];
      assert Big([b]) == Big([]) * 256 + b;
    } else {
      var front, last := s[..|s| - 1], s[|s| - 1];
      assert ([b] + s)[..|s|] == [b] + front && ([b] + s)[|s|] == last;
      BigCons(b, front);
      Spread(b, Pow256(|front|), Big(front), last);
    }
  }

  lemma {:induction false} Spread(b: nat, p: nat, f: nat, l: nat)
    ensures (b * p + f) * 256 + l == b * (256 * p) + (f * 256 + l)
  {
  }

  // ----- lexicographic order -----

  predicate Lex(a: seq<nat>, b: seq<nat>)
    decreases |a|
  {
    b != [] && (a == [] || a[0] < b[0] || (a[0] == b[0] && Lex(a[1..], b[1..])))
  }

  lemma {:induction false} LexConcat(a: seq<nat>, b: seq<nat>, c: seq<nat>, d: seq<nat>)
    requires |a| == |c|
    ensures Lex(a + b, c + d) <==> Lex(a, c) || (a == c && Lex(b, d))
    decreases |a|
  {
    if a == [] {
      assert a + b == b && c + d == d;
    } else {
      assert (a + b)[1..] == a[1..] + b && (c + d)[1..] == c[1..] + d;
      LexConcat(a[1..], b, c[1..], d);
      assert a == c <==> a[0] == c[0] && a[1..] == c[1..];
    }
  }

  /** Big-endian numbers of the same length are ordered as their bytes are. */
  lemma {:induction false} BigOrder(a: seq<Byte>, b: seq<Byte>)
    requires |a| == |b|
    ensures Big(a) < Big(b) <==> Lex(a, b)
    ensures Big(a) == Big(b) <==> a == b
    decreases |a|
  {
    if a != [] {
      hide Big;
      var p := Pow256(|a| - 1);
      assert a == [a[0]] + a[1..] && b == [b[0]] + b[1..];
      BigCons(a[0], a[1..]);
      BigCons(b[0], b[1..]);
      BigBound(a[1..]);
      BigBound(b[1..]);
      BigOrder(a[1..], b[1..]);
      DigitOrder(a[0], Big(a[1..]), b[0], Big(b[1..]), p);
    }
  }

  lemma {:induction false} DigitOrder(x: nat, r: nat, y: nat, s: nat, p: nat)
    requires r < p && s < p
    ensures x * p + r < y * p + s <==> x < y || (x == y && r < s)
    ensures x * p + r == y * p + s <==> x == y && r == s
  {
    if x < y {
      FactorMonotone(x + 1, y, p);
      assert (x + 1) * p == x * p + p;
    } else if y < x {
      FactorMonotone(y + 1, x, p);
      assert (y + 1) * p == y * p + p;
    }
  }

  // ----- words -----

  function Min(a: nat, b: nat): nat {
    if a < b then a else b
  }

  /** The word for up to sixteen bytes. */
  function LeftAligned(s: seq<Byte>): (w: nat)
    requires |s| <= 16
  {
    Big(s) * Pow256(16 - |s|)
  }

  lemma {:induction false} LeftAlignedFits(s: seq<Byte>)
    requires |s| <= 16
    ensures 0 <= LeftAligned(s) < M && LeftAligned(s) / Pow256(16 - |s|) == Big(s)
  {
    hide Pow256, Big;
    BigBound(s);
    Sixteen();
    Pow256Add(|s|, 16 - |s|);
    Below(Big(s), Pow256(|s|), Pow256(16 - |s|));
    SplitUnique(Big(s) * Pow256(16 - |s|), Pow256(16 - |s|), Big(s), 0);
  }

  lemma {:induction false} Below(n: nat, p: nat, q: nat)
    requires n < p && q > 0
    ensures 0 <= n * q < p * q
  {
    FactorMonotone(n + 1, p, q);
    assert (n + 1) * q == n * q + q && n * q >= 0;
  }

  function Words(s: seq<Byte>): seq<nat> {
    if s == [] then [] else [LeftAligned(s[..Min(16, |s|)])] + Words(s[Min(16, |s|)..])
  }

  function NumWords(size: nat): nat {
    (size + 15) / 16
  }

  function Chunk(s: seq<Byte>, j: nat): seq<Byte>
    requires 16 * j <= |s|
  {
    s[16 * j..Min(16 * j + 16, |s|)]
  }

  lemma {:induction false} WordsAt(s: seq<Byte>)
    ensures |Words(s)| == NumWords(|s|)
    ensures forall j: nat :: j < |Words(s)| ==>
              16 * j < |s| && |Chunk(s, j)| <= 16 && Words(s)[j] == LeftAligned(Chunk(s, j))
    decreases |s|
  {
    hide LeftAligned, Chunk, NumWords;
    if s == [] {
      MoreWords(0);
    } else {
      var m := Min(16, |s|);
      var rest := s[m..];
      WordsAt(rest);
      MoreWords(|s|);
      ChunkFirst(s);
      forall j: nat | j < |Words(s)|
        ensures 16 * j < |s| && |Chunk(s, j)| <= 16 && Words(s)[j] == LeftAligned(Chunk(s, j))
      {
        if j > 0 {
          ChunkNext(s, j);
          assert Words(s)[j] == Words(rest)[j - 1];
        }
      }
    }
  }

  lemma {:induction false} MoreWords(size: nat)
    ensures NumWords(size) == if size == 0 then 0 else 1 + NumWords(size - Min(16, size))
  {
  }

  lemma {:induction false} ChunkFirst(s: seq<Byte>)
    ensures Chunk(s, 0) == s[..Min(16, |s|)]
  {
  }

  lemma {:induction false} ChunkNext(s: seq<Byte>, j: nat)
    requires 0 < j && 16 * (j - 1) < |s[Min(16, |s|)..]|
    ensures 16 * j < |s| && Chunk(s, j) == Chunk(s[Min(16, |s|)..], j - 1)
  {
  }

  /** Comparing the word arrays is comparing the bytes, also in the word that is not full. */
  lemma {:induction false} WordOrder(a: seq<Byte>, b: seq<Byte>)
    requires |a| == |b|
    ensures Lex(Words(a), Words(b)) <==> Lex(a, b)
    ensures Words(a) == Words(b) <==> a == b
    decreases |a|
  {
    if a != [] {
      hide LeftAligned;
      var m := Min(16, |a|);
      var x, y, r, s := a[..m], b[..m], a[m..], b[m..];
      assert a == x + r && b == y + s;
      LexConcat(x, r, y, s);
      WordOrder(r, s);
      AlignedOrder(x, y);
      var u, w := LeftAligned(x), LeftAligned(y);
      assert Words(a) == [u] + Words(r) && Words(b) == [w] + Words(s);
      assert Words(a)[1..] == Words(r) && Words(b)[1..] == Words(s);
      assert Words(a) == Words(b) <==> u == w && Words(r) == Words(s);
      assert a == b <==> x == y && r == s;
    }
  }

  lemma {:induction false} AlignedOrder(a: seq<Byte>, b: seq<Byte>)
    requires |a| == |b| <= 16
    ensures LeftAligned(a) < LeftAligned(b) <==> Lex(a, b)
    ensures LeftAligned(a) == LeftAligned(b) <==> a == b
  {
    BigOrder(a, b);
    var q := Pow256(16 - |a|);
    DigitOrder(Big(a), 0, Big(b), 0, q);
  }

  // ----- building -----

  lemma {:induction false} PushByte(s: seq<Byte>, b: Byte)
    requires |s| <= 15
    ensures Or(Big(s) * 256, b) == Big(s + [b]) < M && Big(s) * 256 < M
  {
    assert (s + [b])[..|s|] == s;
    SmallPowers();
    OrApart(b, Big(s) * 256, 8);
    LeftAlignedFits(s);
    BigBound(s + [b]);
    Pow256Grows(|s| + 1);
  }

  lemma {:induction false} Pow256Grows(k: nat)
    requires k <= 16
    ensures Pow256(k) <= M
  {
    Sixteen();
    Pow256Add(16 - k, k);
    AtLeast(Pow256(16 - k), Pow256(k));
  }

  /** Moving the bytes of the last word up. */
  lemma {:induction false} AlignLast(s: seq<Byte>)
    requires 0 < |s| < 16
    ensures var left := 16 - |s|;
            Big(s) * 256 < M && (Big(s) * 256 * Pow2(8 * (left - 1))) % M == LeftAligned(s) < M
                && Pow2(8 * (left - 1)) > 0
  {
    hide Pow2, Pow256, Big;
    var left := 16 - |s|;
    LeftAlignedFits(s);
    PushByte(s, 0);
    Pow256Is(left - 1);
    Pow256Step(left);
    Regroup256(Big(s), Pow256(left - 1));
    ModUnique(LeftAligned(s), M, 0, LeftAligned(s));
  }

  lemma {:induction false} Pow256Step(k: nat)
    requires k > 0
    ensures Pow256(k) == 256 * Pow256(k - 1)
  {
  }

  lemma {:induction false} Regroup256(n: nat, q: nat)
    ensures n * 256 * q == n * (256 * q)
  {
  }

  /** `set_from_word_sequence` for bytes. */
  method SetFromBytes(bytes: seq<Byte>, data: array<Word>)
    requires data.Length == NumWords(|bytes|)
    modifies data
    ensures data[..] == Words(bytes)
  {
    hide Big, LeftAligned, Or, Words;
    WordsAt(bytes);
    var itr, temp, left := 0, 0, 16;
    BigEmpty();
    assert bytes[0..0] == [];
    for i := 0 to |bytes|
      invariant 1 <= left <= 16 && 0 <= itr && i == 16 * itr + (16 - left) && itr <= data.Length
      invariant 0 <= temp < M && temp == Big(bytes[16 * itr..i]) * 256
      invariant forall j: nat :: j < itr ==> 16 * j < |bytes| && data[j] == LeftAligned(Chunk(bytes, j))
    {
      var s := bytes[16 * itr..i];
      PushByte(s, bytes[i]);
      assert s + [bytes[i]] == bytes[16 * itr..i + 1];
      temp := Or(temp, bytes[i]);
      if left > 1 {
        PushByte(bytes[16 * itr..i + 1], 0);
        ModUnique(temp * 256, M, 0, temp * 256);
        temp := (temp * 256) % M;
        left := left - 1;
      } else {
        left := 16;
        FullWord(bytes[16 * itr..i + 1]);
        assert Chunk(bytes, itr) == bytes[16 * itr..i + 1];
        data[itr] := temp;
        temp := 0;
        itr := itr + 1;
        assert bytes[16 * itr..i + 1] == [];
      }
    }
    if left != 16 {
      var s := bytes[16 * itr..|bytes|];
      assert s == Chunk(bytes, itr);
      AlignLast(s);
      if left > 1 {
        temp := (temp * Pow2(8 * (left - 1))) % M;
      } else {
        OneLeft(s);
      }
      data[itr] := temp;
    }
  }

  lemma {:induction false} BigEmpty()
    ensures Big([]) == 0
  {
  }

  lemma {:induction false} FullWord(s: seq<Byte>)
    requires |s| == 16
    ensures LeftAligned(s) == Big(s)
  {
  }

  lemma {:induction false} OneLeft(s: seq<Byte>)
    requires |s| == 15
    ensures LeftAligned(s) == Big(s) * 256
  {
    assert Pow256(1) == 256;
  }

  // ----- extracting -----

  /** The bytes of one word: those that are not padding. */
  method ExtractWord(arr: array<Byte>, at: nat, len: nat, w: Word, pad: nat)
    requires at + len <= arr.Length && len + pad == 16
    modifies arr
    ensures Big(arr[at..at + len]) == w / Pow256(pad)
    ensures arr[..at] == old(arr[..at]) && arr[at + len..] == old(arr[at + len..])
  {
    hide Pow256, Pow2, Big;
    Pow256Is(pad);
    WithoutPadding(w, len, pad);
    var temp := w / Pow2(8 * pad);
    ghost var all := temp;
    ghost var done: seq<Byte> := [];
    var left := len;
    BigEmpty();
    Pow256Zero();
    assert arr[at + len..at + len] == [];
    while left > 0
      invariant 0 <= left <= len && done == arr[at + left..at + len]
      invariant 0 <= temp < Pow256(left) && all == temp * Pow256(len - left) + Big(done)
      invariant arr[..at] == old(arr[..at]) && arr[at + len..] == old(arr[at + len..])
    {
      var b := temp % 256;
      ExtractStep(all, temp, left, len, done);
      ghost var was := arr[..];
      arr[at + left - 1] := b;
      assert arr[at + left..at + len] == was[at + left..at + len];
      assert arr[..at] == was[..at] && arr[at + len..] == was[at + len..];
      temp := temp / 256;
      left := left - 1;
      done := [b] + done;
      assert done == arr[at + left..at + len];
    }
  }

  lemma {:induction false} Pow256Zero()
    ensures Pow256(0) == 1
  {
  }

  lemma {:induction false} ExtractStep(all: nat, temp: nat, left: nat, len: nat, done: seq<Byte>)
    requires 0 < left <= len && |done| == len - left && temp < Pow256(left)
             && all == temp * Pow256(len - left) + Big(done)
    ensures 0 <= temp / 256 < Pow256(left - 1)
    ensures all == temp / 256 * Pow256(len - left + 1) + Big([(temp % 256) as Byte] + done)
  {
    hide Big;
    var q, b: Byte := temp / 256, temp % 256;
    BigCons(b, done);
    assert temp == q * 256 + b;
    Spread(q, Pow256(len - left), b, 0);
    var p := Pow256(len - left);
    assert (q * 256 + b) * p == q * (256 * p) + b * p;
  }

  lemma {:induction false} WithoutPadding(w: Word, len: nat, pad: nat)
    requires len + pad == 16
    ensures 0 <= w / Pow256(pad) < Pow256(len)
  {
    hide Pow256;
    Sixteen();
    Pow256Add(len, pad);
    Quotient(w, Pow256(len), Pow256(pad));
  }

  lemma {:induction false} Quotient(w: nat, p: nat, q: nat)
    requires q > 0 && w < p * q
    ensures 0 <= w / q < p
  {
    assert w == w / q * q + w % q;
    NonNegative(w, q);
    LessFactor(w / q, p, q);
  }

  /** `extract_as_byte_array`: a full word gives sixteen bytes, the last one only those in front of the padding. */
  method Extract(data: array<Word>, size: nat) returns (arr: array<Byte>)
    requires data.Length == NumWords(size)
    ensures fresh(arr) && arr.Length == size
    ensures forall j: nat :: j < data.Length ==>
              16 * j < size && Big(Chunk(arr[..], j)) == data[j] / Pow256(16 - |Chunk(arr[..], j)|)
  {
    hide Pow256, Big;
    arr := new Byte[size];
    var padded := NumWords(size) * 16 - size;
    for j := 0 to data.Length
      invariant fresh(arr) && arr.Length == size
      invariant forall k: nat :: k < j ==>
                  16 * k < size && Big(Chunk(arr[..], k)) == data[k] / Pow256(16 - |Chunk(arr[..], k)|)
    {
      var pad := if j + 1 == data.Length then padded else 0;
      ghost var was := arr[..];
      ExtractWord(arr, 16 * j, 16 - pad, data[j], pad);
      assert Chunk(arr[..], j) == arr[16 * j..16 * j + 16 - pad];
      assert arr[..16 * j] == was[..16 * j];
      forall k: nat | k < j ensures Chunk(arr[..], k) == Chunk(was, k) {
        SameChunk(arr[..], was, j, k);
      }
    }
  }

  lemma {:induction false} SameChunk(s: seq<Byte>, t: seq<Byte>, j: nat, k: nat)
    requires k < j && 16 * j <= |s| == |t| && s[..16 * j] == t[..16 * j]
    ensures Chunk(s, k) == Chunk(t, k)
  {
    assert 16 * k + 16 <= 16 * j && Min(16 * k + 16, |s|) == 16 * k + 16;
    assert s[16 * k..16 * k + 16] == s[..16 * j][16 * k..16 * k + 16];
    assert t[16 * k..16 * k + 16] == t[..16 * j][16 * k..16 * k + 16];
  }

  /** What a byte string of any size is built to is extracted as that byte string. */
  method BuildExtract(bytes: seq<Byte>) returns (arr: array<Byte>)
    ensures arr[..] == bytes
  {
    var data := new Word[NumWords(|bytes|)];
    SetFromBytes(bytes, data);
    arr := Extract(data, |bytes|);
    SameChunks(arr[..], bytes, data[..]);
  }

  lemma {:induction false} SameChunks(a: seq<Byte>, b: seq<Byte>, words: seq<nat>)
    requires |a| == |b| && words == Words(b)
    requires forall j: nat :: j < |words| ==> 16 * j < |a| && Big(Chunk(a, j)) == words[j] / Pow256(16 - |Chunk(a, j)|)
    ensures a == b
  {
    hide Pow256, Big, LeftAligned, Words;
    WordsAt(b);
    forall i | 0 <= i < |a| ensures a[i] == b[i] {
      var j := i / 16;
      LeftAlignedFits(Chunk(b, j));
      BigOrder(Chunk(a, j), Chunk(b, j));
      assert a[i] == Chunk(a, j)[i - 16 * j] && b[i] == Chunk(b, j)[i - 16 * j];
    }
  }
}
