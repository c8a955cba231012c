/**
 Data streams over a buffer: a position that advances while values are written or read in place.
 */
module Streams {
  import opened Buffers
  import opened Bits
  import opened VarInts
  import opened Codec
  import opened CodecCorrect

  // ----- writing -----

  lemma {:induction false} WroteNothing(before: seq<Byte>, at: nat)
    requires at <= |before|
    ensures Wrote(before, before, at, [])
  {
  }

  lemma {:induction false} WroteMore(a: seq<Byte>, b: seq<Byte>, c: seq<Byte>, at: nat, d: seq<Byte>, e: seq<Byte>)
    requires Wrote(a, b, at, d) && Wrote(b, c, at + |d|, e)
    ensures Wrote(a, c, at, d + e)
  {
    assert |b| == |a|;
    var n := at + |d|;
    assert b[..n] == a[..at] + d;
    assert b[n + |e|..] == a[n + |e|..];
  }

  /** A length as the 32-bit signed number that `write` compares with. */
  function AsInt32(n: nat): int {
    var r := n % 0x1_0000_0000;
    if r < 0x8000_0000 then r else r - 0x1_0000_0000
  }

  /**
   The test of `write` is exact if and only if the length is below 2^31 or there is room; otherwise it passes without
   room.
   */
  lemma {:induction false} WriteTestExact(room: nat, n: nat)
    requires n < 0x1_0000_0000
    ensures (room >= AsInt32(n) <==> room >= n) <==> n < 0x8000_0000 || n <= room
  {
  }

  /** 2^31 bytes pass for a buffer of one byte. */
  lemma {:induction false} WriteTestFails()
    ensures 1 >= AsInt32(0x8000_0000) && !(1 >= 0x8000_0000)
  {
  }

  class Writer {
    const buf: array<Byte>
    var pos: nat

    ghost predicate Valid()
      reads this
    {
      pos <= buf.Length
    }

    constructor (buf: array<Byte>)
      ensures Valid() && this.buf == buf && pos == 0
    {
      this.buf := buf;
      pos := 0;
    }

    /** Whether the rest of the buffer is enough, for lengths the signed comparison gets right. */
    ghost predicate Comparable(n: nat)
      reads this
    {
      n < 0x8000_0000 || pos + n <= buf.Length
    }

    method Write(d: seq<Byte>) returns (ok: bool)
      requires Valid() && Comparable(|d|)
      modifies this, buf
      ensures Valid() && (ok <==> old(pos) + |d| <= buf.Length)
      ensures ok ==> pos == old(pos) + |d| && Wrote(old(buf[..]), buf[..], old(pos), d)
    {
      if !(buf.Length - pos >= AsInt32(|d|)) {
        return false;
      }
      CopyIn(buf, pos, d);
      pos := pos + |d|;
      ok := true;
    }

    /** A variable-length number, byte by byte. */
    method WriteVar(n: nat) returns (ok: bool)
      requires Valid() && n < TWO32
      modifies this, buf
      ensures Valid() && (ok <==> old(pos) + |Encode(n)| <= buf.Length)
      ensures ok ==> pos == old(pos) + |Encode(n)| && Wrote(old(buf[..]), buf[..], old(pos), Encode(n))
    {
      hide Wrote, Encode;
      var val, more := n, true;
      ghost var before, at := buf[..], pos;
      ghost var done: seq<Byte>, left: seq<Byte> := [], Encode(n);
      WroteNothing(before, at);
      while more
        invariant Valid() && 0 <= val < TWO32 && Wrote(before, buf[..], at, done) && pos == at + |done|
        invariant Encode(n) == done + left && left == if more then Encode(val) else []
        decreases more, val
      {
        EncodeByte(val);
        MoveByte(done, left);
        var b: Byte := val % 128 + if val / 128 > 0 then 128 else 0;
        ok := WriteByte(b, before, at, done);
        if !ok {
          return;
        }
        done, left := done + [b], left[1..];
        val := val / 128;
        more := val != 0;
      }
      assert done + [] == done;
      ok := true;
    }

    method WriteByte(b: Byte, ghost before: seq<Byte>, ghost at: nat, ghost done: seq<Byte>) returns (ok: bool)
      requires Valid() && Wrote(before, buf[..], at, done) && pos == at + |done|
      modifies this, buf
      ensures Valid() && (ok <==> old(pos) < buf.Length)
      ensures ok ==> pos == old(pos) + 1 && Wrote(before, buf[..], at, done + [b])
    {
      hide Wrote;
      ghost var was := buf[..];
      ok := Write([b]);
      Both(before, was, buf[..], at, done, [b], ok);
    }

    /** `<<` for every type. */
    method Put(v: Val, t: Ty) returns (ok: bool)
      requires Valid() && HasType(v, t) && Comparable(|Enc(v, t)|)
      modifies this, buf
      ensures Valid() && (ok <==> old(pos) + |Enc(v, t)| <= buf.Length)
      ensures ok ==> pos == old(pos) + |Enc(v, t)| && Wrote(old(buf[..]), buf[..], old(pos), Enc(v, t))
      decreases t, 0
    {
      hide Wrote, Encode, Sorted, Pow2, Bytes, ZigZag, EncAll, EncFields, EncEntries;
      match t
      case UInt(size) =>
        ok := Write(Bytes(v.n, size));
      case SInt(size) =>
        SignedBack(v.n, size);
        ok := Write(Bytes(v.n % Pow2(8 * size), size));
      case Bool =>
        ok := Write([v.n]);
      case VarUInt =>
        ok := WriteVar(v.n);
      case VarSInt =>
        UnZigZagZigZag(v.n);
        ok := WriteVar(ZigZag(v.n));
      case Text =>
        ok := PutText(v);
      case Vector(elem) =>
        ok := PutSequence(v.items, elem);
      case Optional(elem) =>
        ok := PutOptional(v, elem);
      case Tuple(fields) =>
        ok := PutFields(v.items, fields);
      case Variant(alts) =>
        ok := PutVariant(v, alts);
      case SetOf(elem) =>
        ok := PutSequence(v.items, elem);
      case MapOf(entry) =>
        ok := PutMap(v.items, entry);
    }

    method PutOptional(v: Val, elem: Ty) returns (ok: bool)
      requires Valid() && HasType(v, Optional(elem)) && Comparable(|Enc(v, Optional(elem))|)
      modifies this, buf
      ensures Valid() && (ok <==> old(pos) + |Enc(v, Optional(elem))| <= buf.Length)
      ensures ok ==>
                pos == old(pos) + |Enc(v, Optional(elem))|
                && Wrote(old(buf[..]), buf[..], old(pos), Enc(v, Optional(elem)))
      decreases elem, 2
    {
      hide Wrote;
      ghost var before, at := buf[..], pos;
      ok := Write([if v.items == [] then 0 else 1]);
      if ok && v.items != [] {
        ghost var mid := buf[..];
        ok := Put(v.items[0], elem);
        Both(before, mid, buf[..], at, [1], Enc(v.items[0], elem), ok);
      }
    }

    method PutVariant(v: Val, alts: seq<Ty>) returns (ok: bool)
      requires Valid() && HasType(v, Variant(alts)) && Comparable(|Enc(v, Variant(alts))|)
      modifies this, buf
      ensures Valid() && (ok <==> old(pos) + |Enc(v, Variant(alts))| <= buf.Length)
      ensures ok ==>
                pos == old(pos) + |Enc(v, Variant(alts))|
                && Wrote(old(buf[..]), buf[..], old(pos), Enc(v, Variant(alts)))
      decreases alts, 2
    {
      hide Wrote, Encode;
      ghost var before, at := buf[..], pos;
      var i := v.items[0].n;
      ok := PutLength(i, |Enc(v.items[1], alts[i])|);
      if ok {
        ghost var mid := buf[..];
        ok := Put(v.items[1], alts[i]);
        Both(before, mid, buf[..], at, Encode(i), Enc(v.items[1], alts[i]), ok);
      }
    }

    method PutSequence(vs: seq<Val>, elem: Ty) returns (ok: bool)
      requires Valid() && |vs| < TWO32 && (forall i :: 0 <= i < |vs| ==> HasType(vs[i], elem))
      requires Comparable(|Encode(|vs|) + EncAll(vs, elem)|)
      modifies this, buf
      ensures Valid() && (ok <==> old(pos) + |Encode(|vs|) + EncAll(vs, elem)| <= buf.Length)
      ensures var e := Encode(|vs|) + EncAll(vs, elem); ok ==>
              pos == old(pos) + |e| && Wrote(old(buf[..]), buf[..], old(pos), e)
      decreases elem, 2
    {
      hide Wrote, Encode, EncAll, HasType;
      ghost var before, at := buf[..], pos;
      ok := PutLength(|vs|, |EncAll(vs, elem)|);
      if ok {
        ghost var mid := buf[..];
        ok := PutAll(vs, elem);
        Both(before, mid, buf[..], at, Encode(|vs|), EncAll(vs, elem), ok);
      }
    }

    method PutMap(vs: seq<Val>, entry: seq<Ty>) returns (ok: bool)
      requires Valid() && |vs| < TWO32 && (forall i :: 0 <= i < |vs| ==> vs[i].List? && HaveTypes(vs[i].items, entry))
      requires Comparable(|Encode(|vs|) + EncEntries(vs, entry)|)
      modifies this, buf
      ensures Valid() && (ok <==> old(pos) + |Encode(|vs|) + EncEntries(vs, entry)| <= buf.Length)
      ensures var e := Encode(|vs|) + EncEntries(vs, entry); ok ==>
              pos == old(pos) + |e| && Wrote(old(buf[..]), buf[..], old(pos), e)
      decreases entry, 2
    {
      hide Wrote, Encode, EncEntries, HaveTypes;
      ghost var before, at := buf[..], pos;
      ok := PutLength(|vs|, |EncEntries(vs, entry)|);
      if ok {
        ghost var mid := buf[..];
        ok := PutEntries(vs, entry);
        Both(before, mid, buf[..], at, Encode(|vs|), EncEntries(vs, entry), ok);
      }
    }

    /** A length, with room for what it is the length of still to be looked at. */
    method PutLength(n: nat, ghost more: nat) returns (ok: bool)
      requires Valid() && n < TWO32 && Comparable(|Encode(n)| + more)
      modifies this, buf
      ensures Valid() && (ok <==> old(pos) + |Encode(n)| <= buf.Length)
      ensures ok ==>
                pos == old(pos) + |Encode(n)| && Wrote(old(buf[..]), buf[..], old(pos), Encode(n)) && Comparable(more)
    {
      hide Encode, Wrote;
      ok := WriteVar(n);
    }

    method PutText(v: Val) returns (ok: bool)
      requires Valid() && HasType(v, Text) && Comparable(|Enc(v, Text)|)
      modifies this, buf
      ensures Valid() && (ok <==> old(pos) + |Enc(v, Text)| <= buf.Length)
      ensures ok ==> pos == old(pos) + |Enc(v, Text)| && Wrote(old(buf[..]), buf[..], old(pos), Enc(v, Text))
    {
      hide Wrote, Encode;
      var n := |v.items|;
      var chars: seq<Byte> := seq(n, i requires 0 <= i < n => v.items[i].n);
      assert Enc(v, Text) == Encode(n) + chars;
      ghost var before, at := buf[..], pos;
      ok := PutLength(n, n);
      if ok {
        ghost var mid := buf[..];
        ok := Write(chars);
        Both(before, mid, buf[..], at, Encode(n), chars, ok);
      }
    }

    method PutAll(vs: seq<Val>, t: Ty) returns (ok: bool)
      requires Valid() && (forall i :: 0 <= i < |vs| ==> HasType(vs[i], t)) && Comparable(|EncAll(vs, t)|)
      modifies this, buf
      ensures Valid() && (ok <==> old(pos) + |EncAll(vs, t)| <= buf.Length)
      ensures ok ==> pos == old(pos) + |EncAll(vs, t)| && Wrote(old(buf[..]), buf[..], old(pos), EncAll(vs, t))
      decreases t, 1
    {
      hide Wrote, Enc, HasType;
      ghost var before, at := buf[..], pos;
      ghost var done: seq<Byte> := [];
      WroteNothing(before, at);
      assert vs[0..] == vs;
      for i := 0 to |vs|
        invariant Valid() && Wrote(before, buf[..], at, done) && pos == at + |done|
        invariant EncAll(vs, t) == done + EncAll(vs[i..], t)
      {
        ghost var was, e := buf[..], Enc(vs[i], t);
        assert vs[i..][0] == vs[i] && vs[i..][1..] == vs[i + 1..];
        ok := Put(vs[i], t);
        if !ok {
          return;
        }
        WroteMore(before, was, buf[..], at, done, e);
        Cat(done, e, EncAll(vs[i + 1..], t));
        done := done + e;
      }
      assert done + [] == done;
      ok := true;
    }

    method PutFields(vs: seq<Val>, ts: seq<Ty>) returns (ok: bool)
      requires Valid() && HaveTypes(vs, ts) && Comparable(|EncFields(vs, ts)|)
      modifies this, buf
      ensures Valid() && (ok <==> old(pos) + |EncFields(vs, ts)| <= buf.Length)
      ensures ok ==> pos == old(pos) + |EncFields(vs, ts)| && Wrote(old(buf[..]), buf[..], old(pos), EncFields(vs, ts))
      decreases ts, 0
    {
      hide Wrote, Enc, HasType;
      ghost var before, at := buf[..], pos;
      ghost var done: seq<Byte> := [];
      WroteNothing(before, at);
      assert vs[0..] == vs && ts[0..] == ts;
      for i := 0 to |ts|
        invariant Valid() && Wrote(before, buf[..], at, done) && pos == at + |done|
        invariant HaveTypes(vs[i..], ts[i..]) && EncFields(vs, ts) == done + EncFields(vs[i..], ts[i..])
      {
        assert vs[i..][0] == vs[i] && vs[i..][1..] == vs[i + 1..] && ts[i..][0] == ts[i] && ts[i..][1..] == ts[i + 1..];
        ghost var was, e := buf[..], Enc(vs[i], ts[i]);
        ok := Put(vs[i], ts[i]);
        if !ok {
          return;
        }
        WroteMore(before, was, buf[..], at, done, e);
        Cat(done, e, EncFields(vs[i + 1..], ts[i + 1..]));
        done := done + e;
      }
      assert done + [] == done;
      ok := true;
    }

    method PutEntries(vs: seq<Val>, ts: seq<Ty>) returns (ok: bool)
      requires Valid() && (forall i :: 0 <= i < |vs| ==> vs[i].List? && HaveTypes(vs[i].items, ts))
               && Comparable(|EncEntries(vs, ts)|)
      modifies this, buf
      ensures Valid() && (ok <==> old(pos) + |EncEntries(vs, ts)| <= buf.Length)
      ensures ok ==>
                pos == old(pos) + |EncEntries(vs, ts)| && Wrote(old(buf[..]), buf[..], old(pos), EncEntries(vs, ts))
      decreases ts, 1
    {
      hide Wrote, EncFields, HaveTypes;
      ghost var before, at := buf[..], pos;
      ghost var done: seq<Byte> := [];
      WroteNothing(before, at);
      assert vs[0..] == vs;
      for i := 0 to |vs|
        invariant Valid() && Wrote(before, buf[..], at, done) && pos == at + |done|
        invariant EncEntries(vs, ts) == done + EncEntries(vs[i..], ts)
      {
        ghost var was, e := buf[..], EncFields(vs[i].items, ts);
        assert vs[i..][0] == vs[i] && vs[i..][1..] == vs[i + 1..];
        ok := PutFields(vs[i].items, ts);
        if !ok {
          return;
        }
        WroteMore(before, was, buf[..], at, done, e);
        Cat(done, e, EncEntries(vs[i + 1..], ts));
        done := done + e;
      }
      assert done + [] == done;
      ok := true;
    }
  }

  lemma {:induction false} Both(a: seq<Byte>, b: seq<Byte>, c: seq<Byte>, at: nat, d: seq<Byte>, e: seq<Byte>, ok: bool)
    requires Wrote(a, b, at, d) && (ok ==> Wrote(b, c, at + |d|, e))
    ensures ok ==> Wrote(a, c, at, d + e)
  {
    if ok {
      WroteMore(a, b, c, at, d, e);
    }
  }

  lemma {:induction false} MoveByte(done: seq<Byte>, left: seq<Byte>)
    requires left != []
    ensures done + left == (done + [left[0]]) + left[1..]
  {
  }

  lemma {:induction false} EncodeByte(n: nat)
    ensures 0 <= n / 128 <= n && (n / 128 > 0 ==> n / 128 < n)
    ensures var s := Encode(n);
            |s| > 0 && s[0] == n % 128 + (if n / 128 > 0 then 128 else 0)
                && s[1..] == if n / 128 > 0 then Encode(n / 128) else []
  {
  }
}
