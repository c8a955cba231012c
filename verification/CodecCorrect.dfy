/**
 Unpacking undoes packing, for every type and every value of it.
 */
module CodecCorrect {
  import opened Buffers
  import opened Bits
  import opened VarInts
  import opened Codec

  // ----- numbers -----

  lemma {:induction false} Pow256(size: nat)
    requires size > 0
    ensures Pow2(8 * size) == 256 * Pow2(8 * (size - 1)) == 2 * Pow2(8 * size - 1)
  {
    SmallPowers();
    Pow2Add(8, 8 * (size - 1));
  }

  lemma {:induction false} BytesBack(n: nat, size: nat)
    requires n < Pow2(8 * size)
    ensures FromBytes(Bytes(n, size)) == n
    decreases size
  {
    if size > 0 {
      Pow256(size);
      BytesBack(n / 256, size - 1);
      assert Bytes(n, size)[1..] == Bytes(n / 256, size - 1);
    }
  }

  lemma {:induction false} FromBytesBound(s: seq<Byte>)
    ensures FromBytes(s) < Pow2(8 * |s|)
    decreases |s|
  {
    if s != [] {
      Pow256(|s|);
      FromBytesBound(s[1..]);
    }
  }

  lemma {:induction false} SignedBack(n: int, size: nat)
    requires HasType(Num(n), SInt(size))
    ensures 0 <= n % Pow2(8 * size) < Pow2(8 * size) && Signed(n % Pow2(8 * size), size) == n
  {
    hide Pow2;
    if size == 0 {
      NoBytes();
    } else {
      Pow256(size);
      var p := Pow2(8 * size);
      if n >= 0 {
        SplitUnique(n, p, 0, n);
      } else {
        Wrapped(n, p);
      }
    }
  }

  lemma {:induction false} NoBytes()
    ensures Pow2(0) == 1
  {
  }

  lemma {:induction false} Wrapped(n: int, p: nat)
    requires 0 - p <= n < 0
    ensures n % p == n + p
  {
    var q, r := n / p, n % p;
    assert n == q * p + r && (q + 1) * p == q * p + p;
    SmallFactor(q + 1, p);
  }

  lemma {:induction false} VarBack(n: nat, rest: seq<Byte>)
    requires n < TWO32
    ensures Decode(Encode(n) + rest, 0, 0) == Value(n, rest) && DecVar(Encode(n) + rest) == Ok(Num(n), rest)
  {
    DecodeEncode(n, 0, 0, rest);
  }

  lemma {:induction false} Cat(a: seq<Byte>, b: seq<Byte>, c: seq<Byte>)
    ensures (a + b) + c == a + (b + c) && (a + c)[..|a|] == a && (a + c)[|a|..] == c
  {
  }

  // ----- the round trip -----

  /** Unpacking what was packed gives the value back and leaves exactly what came after it. */
  lemma {:induction false} RoundTrip(v: Val, t: Ty, rest: seq<Byte>)
    requires HasType(v, t)
    ensures Dec(t, Enc(v, t) + rest) == Ok(v, rest)
    decreases t, 0
  {
    hide Decode, Encode, InsertAll, Sorted, FromBytes, Bytes, Signed, UnZigZag, ZigZag, Pow2;
    hide EncAll, DecAll, EncFields, DecFields, EncEntries, DecEntries, HaveTypes;
    var s := Enc(v, t) + rest;
    match t
    case UInt(size) =>
      Cat(Enc(v, t), [], rest);
      BytesBack(v.n, size);
    case SInt(size) =>
      Cat(Enc(v, t), [], rest);
      SignedBack(v.n, size);
      BytesBack(v.n % Pow2(8 * size), size);
    case Bool =>
    case VarUInt =>
      VarBack(v.n, rest);
    case VarSInt =>
      UnZigZagZigZag(v.n);
      VarBack(ZigZag(v.n), rest);
    case Text =>
      TextBack(v, rest);
    case Vector(elem) =>
      Cat(Encode(|v.items|), EncAll(v.items, elem), rest);
      VarBack(|v.items|, EncAll(v.items, elem) + rest);
      AllBack(v.items, elem, rest);
    case Optional(elem) =>
      OptionalBack(v, elem, rest);
    case Tuple(fields) =>
      FieldsBack(v.items, fields, rest);
    case Variant(alts) =>
      VariantBack(v, alts, rest);
    case SetOf(elem) =>
      Cat(Encode(|v.items|), EncAll(v.items, elem), rest);
      VarBack(|v.items|, EncAll(v.items, elem) + rest);
      AllBack(v.items, elem, rest);
      SortedBack(v.items, false);
    case MapOf(entry) =>
      Cat(Encode(|v.items|), EncEntries(v.items, entry), rest);
      VarBack(|v.items|, EncEntries(v.items, entry) + rest);
      EntriesBack(v.items, entry, rest);
      SortedBack(v.items, true);
  }

  lemma {:induction false} SortedBack(items: seq<Val>, isMap: bool)
    requires Sorted(items, isMap)
    ensures InsertAll([], items, isMap) == items
  {
    assert [] + items == items;
    InsertSorted([], items, isMap);
  }

  lemma {:induction false} TextBack(v: Val, rest: seq<Byte>)
    requires HasType(v, Text)
    ensures Dec(Text, Enc(v, Text) + rest) == Ok(v, rest)
  {
    hide Decode, Encode;
    var n := |v.items|;
    var chars: seq<Byte> := seq(n, i requires 0 <= i < n => v.items[i].n);
    assert Enc(v, Text) == Encode(n) + chars;
    Cat(Encode(n), chars, rest);
    VarBack(n, chars + rest);
    Cat(chars, [], rest);
    assert Chars(chars) == v.items;
  }

  lemma {:induction false} OptionalBack(v: Val, elem: Ty, rest: seq<Byte>)
    requires HasType(v, Optional(elem))
    ensures Dec(Optional(elem), Enc(v, Optional(elem)) + rest) == Ok(v, rest)
    decreases elem, 2
  {
    var s := Enc(v, Optional(elem)) + rest;
    if v.items != [] {
      Cat([1], Enc(v.items[0], elem), rest);
      RoundTrip(v.items[0], elem, rest);
      assert s[1..] == Enc(v.items[0], elem) + rest && v == List([v.items[0]]);
    }
  }

  lemma {:induction false} VariantBack(v: Val, alts: seq<Ty>, rest: seq<Byte>)
    requires HasType(v, Variant(alts))
    ensures Dec(Variant(alts), Enc(v, Variant(alts)) + rest) == Ok(v, rest)
    decreases alts, 2
  {
    hide Decode, Encode;
    var i := v.items[0].n;
    Cat(Encode(i), Enc(v.items[1], alts[i]), rest);
    VarBack(i, Enc(v.items[1], alts[i]) + rest);
    RoundTrip(v.items[1], alts[i], rest);
    assert v == List([v.items[0], v.items[1]]);
  }

  lemma {:induction false} AllBack(vs: seq<Val>, t: Ty, rest: seq<Byte>)
    requires forall i :: 0 <= i < |vs| ==> HasType(vs[i], t)
    ensures DecAll(t, |vs|, EncAll(vs, t) + rest) == Ok(List(vs), rest)
    decreases t, 1, |vs|
  {
    hide Enc, Dec, HasType;
    if vs == [] {
      assert EncAll(vs, t) + rest == rest;
    } else {
      var more := EncAll(vs[1..], t) + rest;
      Cat(Enc(vs[0], t), EncAll(vs[1..], t), rest);
      RoundTrip(vs[0], t, more);
      AllBack(vs[1..], t, rest);
      assert EncAll(vs, t) + rest == Enc(vs[0], t) + more;
      assert vs == [vs[0]] + vs[1..];
    }
  }

  lemma {:induction false} FieldsBack(vs: seq<Val>, ts: seq<Ty>, rest: seq<Byte>)
    requires HaveTypes(vs, ts)
    ensures DecFields(ts, EncFields(vs, ts) + rest) == Ok(List(vs), rest)
    decreases ts, 0
  {
    hide Enc, Dec, HasType;
    if ts != [] {
      Cat(Enc(vs[0], ts[0]), EncFields(vs[1..], ts[1..]), rest);
      RoundTrip(vs[0], ts[0], EncFields(vs[1..], ts[1..]) + rest);
      FieldsBack(vs[1..], ts[1..], rest);
      assert vs == [vs[0]] + vs[1..];
    }
  }

  lemma {:induction false} EntriesBack(vs: seq<Val>, ts: seq<Ty>, rest: seq<Byte>)
    requires forall i :: 0 <= i < |vs| ==> vs[i].List? && HaveTypes(vs[i].items, ts)
    ensures DecEntries(ts, |vs|, EncEntries(vs, ts) + rest) == Ok(List(vs), rest)
    decreases ts, 1, |vs|
  {
    hide EncFields, DecFields, HaveTypes;
    if vs != [] {
      Cat(EncFields(vs[0].items, ts), EncEntries(vs[1..], ts), rest);
      FieldsBack(vs[0].items, ts, EncEntries(vs[1..], ts) + rest);
      EntriesBack(vs[1..], ts, rest);
      assert vs == [vs[0]] + vs[1..] && vs[0] == List(vs[0].items);
    }
  }

  // ----- what follows from it -----

  /** No encoding is the beginning of another one: values can be told apart wherever they stand. */
  lemma {:induction false} PrefixFree(v: Val, w: Val, t: Ty, a: seq<Byte>, b: seq<Byte>)
    requires HasType(v, t) && HasType(w, t) && Enc(v, t) + a == Enc(w, t) + b
    ensures v == w && a == b
  {
    RoundTrip(v, t, a);
    RoundTrip(w, t, b);
  }

  lemma {:induction false} Injective(v: Val, w: Val, t: Ty)
    requires HasType(v, t) && HasType(w, t)
    ensures Enc(v, t) == Enc(w, t) <==> v == w
  {
    if Enc(v, t) == Enc(w, t) {
      PrefixFree(v, w, t, [], []);
    }
  }

  // ----- unpacking arbitrary bytes -----

  ghost predicate Suffix(rest: seq<Byte>, s: seq<Byte>) {
    |rest| <= |s| && rest == s[|s| - |rest|..]
  }

  lemma {:induction false} SuffixTransitive(a: seq<Byte>, b: seq<Byte>, c: seq<Byte>)
    requires Suffix(a, b) && Suffix(b, c)
    ensures Suffix(a, c)
  {
  }

  lemma {:induction false} DecodeSuffix(s: seq<Byte>, bit: nat, v: nat)
    requires Decode(s, bit, v).Value?
    ensures Suffix(Decode(s, bit, v).rest, s)
    decreases |s|
  {
    hide Or, Shifted;
    if s[0] >= 128 {
      DecodeSuffix(s[1..], bit + 7, Or(v, Shifted(s[0], bit) % 0x1_0000_0000));
    }
  }

  /** Whatever the bytes are, a result has the type asked for, and what is left is the end of the bytes. */
  lemma {:induction false} DecTyped(t: Ty, s: seq<Byte>)
    requires Dec(t, s).Ok?
    ensures HasType(Dec(t, s).v, t) && Suffix(Dec(t, s).rest, s)
    decreases t, 0
  {
    hide Decode, InsertAll, Sorted, FromBytes, Signed, UnZigZag, Pow2, Suffix, HaveTypes, Insert, DecAll, DecFields,
         DecEntries;
    if t.Tuple? {
      FieldsTyped(t.fields, s);
    } else if t.Optional? {
      OptionalTyped(t.elem, s);
    } else if t.Bool? || t.UInt? || t.SInt? {
      NumberTyped(t, s);
    } else {
      DecodeSuffix(s, 0, 0);
      var n, rest := Decode(s, 0, 0).n, Decode(s, 0, 0).rest;
      match t
      case VarUInt =>
      case VarSInt =>
      case Text =>
        SuffixDrop(rest, n);
        SuffixTransitive(rest[n..], rest, s);
      case Vector(elem) =>
        AllTyped(elem, n, rest);
        SuffixTransitive(Dec(t, s).rest, rest, s);
      case Variant(alts) =>
        DecTyped(alts[n], rest);
        SuffixTransitive(Dec(t, s).rest, rest, s);
      case SetOf(elem) =>
        AllTyped(elem, n, rest);
        CollectTyped(DecAll(elem, n, rest).v.items, false);
        SuffixTransitive(Dec(t, s).rest, rest, s);
      case MapOf(entry) =>
        EntriesTyped(entry, n, rest);
        CollectTyped(DecEntries(entry, n, rest).v.items, true);
        SuffixTransitive(Dec(t, s).rest, rest, s);
    }
  }

  lemma {:induction false} SuffixDrop(s: seq<Byte>, n: nat)
    requires n <= |s|
    ensures Suffix(s[n..], s)
  {
  }

  lemma {:induction false} CollectTyped(vs: seq<Val>, isMap: bool)
    ensures var items := InsertAll([], vs, isMap);
            Sorted(items, isMap) && |items| <= |vs| && forall i :: 0 <= i < |items| ==> items[i] in vs
  {
    InsertAllKeeps([], vs, isMap);
    var items := InsertAll([], vs, isMap);
    assert forall i :: 0 <= i < |items| ==> items[i] in items;
  }

  lemma {:induction false} NumberTyped(t: Ty, s: seq<Byte>)
    requires (t.Bool? || t.UInt? || t.SInt?) && Dec(t, s).Ok?
    ensures HasType(Dec(t, s).v, t) && Suffix(Dec(t, s).rest, s)
  {
    hide Pow2;
    if t.Bool? {
      SuffixDrop(s, 1);
    } else {
      SuffixDrop(s, t.size);
      FromBytesBound(s[..t.size]);
      if t.size == 0 {
        NoBytes();
      } else {
        Pow256(t.size);
      }
    }
  }

  lemma {:induction false} OptionalTyped(elem: Ty, s: seq<Byte>)
    requires Dec(Optional(elem), s).Ok?
    ensures HasType(Dec(Optional(elem), s).v, Optional(elem)) && Suffix(Dec(Optional(elem), s).rest, s)
    decreases elem, 2
  {
    hide Suffix;
    SuffixDrop(s, 1);
    if s[0] != 0 {
      DecTyped(elem, s[1..]);
      SuffixTransitive(Dec(elem, s[1..]).rest, s[1..], s);
    }
  }

  lemma {:induction false} AllTyped(t: Ty, n: nat, s: seq<Byte>)
    requires DecAll(t, n, s).Ok?
    ensures var r := DecAll(t, n, s);
            r.v.List? && |r.v.items| == n && (forall i :: 0 <= i < n ==> HasType(r.v.items[i], t)) && Suffix(r.rest, s)
    decreases t, 1, n
  {
    hide Suffix, HasType, Dec;
    SuffixDrop(s, 0);
    if n > 0 {
      DecTyped(t, s);
      var rest := Dec(t, s).rest;
      AllTyped(t, n - 1, rest);
      SuffixTransitive(DecAll(t, n, s).rest, rest, s);
    }
  }

  lemma {:induction false} FieldsTyped(ts: seq<Ty>, s: seq<Byte>)
    requires DecFields(ts, s).Ok?
    ensures var r := DecFields(ts, s);
            r.v.List? && HaveTypes(r.v.items, ts) && Suffix(r.rest, s)
    decreases ts, 0
  {
    hide Suffix, HasType, Dec;
    SuffixDrop(s, 0);
    if ts != [] {
      DecTyped(ts[0], s);
      var rest := Dec(ts[0], s).rest;
      FieldsTyped(ts[1..], rest);
      SuffixTransitive(DecFields(ts, s).rest, rest, s);
      assert DecFields(ts, s).v.items[1..] == DecFields(ts[1..], rest).v.items;
    }
  }

  lemma {:induction false} EntriesTyped(ts: seq<Ty>, n: nat, s: seq<Byte>)
    requires DecEntries(ts, n, s).Ok?
    ensures var r := DecEntries(ts, n, s);
            && r.v.List? && |r.v.items| == n && Suffix(r.rest, s)
            && (forall i :: 0 <= i < n ==> r.v.items[i].List? && HaveTypes(r.v.items[i].items, ts))
    decreases ts, 1, n
  {
    hide Suffix, HaveTypes, DecFields;
    SuffixDrop(s, 0);
    if n > 0 {
      FieldsTyped(ts, s);
      var rest := DecFields(ts, s).rest;
      EntriesTyped(ts, n - 1, rest);
      SuffixTransitive(DecEntries(ts, n, s).rest, rest, s);
    }
  }
}
