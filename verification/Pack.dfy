/**
 `pack_size`, `pack` and `unpack`.
 */
module Packing {
  import opened Buffers
  import opened Bits
  import opened VarInts
  import opened Codec
  import opened CodecOrder
  import opened CodecCorrect
  import opened Streams
  import opened StreamReads

  /** The stream that only counts. */
  class Sizer {
    var size: nat

    constructor ()
      ensures size == 0
    {
      size := 0;
    }

    method SizeVar(n: nat)
      modifies this
      ensures size == old(size) + |Encode(n)|
    {
      var val, more := n, true;
      while more
        invariant val >= 0 && size + (if more then |Encode(val)| else 0) == old(size) + |Encode(n)|
        decreases more, val
      {
        val := val / 128;
        size := size + 1;
        more := val != 0;
      }
    }

    method Size(v: Val, t: Ty)
      requires HasType(v, t)
      modifies this
      ensures size == old(size) + |Enc(v, t)|
      decreases t, 0
    {
      hide Encode, Sorted, Pow2, Bytes, ZigZag, EncAll, EncFields, EncEntries;
      match t
      case UInt(n) => size := size + n;
      case SInt(n) => size := size + n;
      case Bool => size := size + 1;
      case VarUInt => SizeVar(v.n);
      case VarSInt =>
        SizeVar(ZigZag(v.n));
      case Text =>
        SizeVar(|v.items|);
        size := size + |v.items|;
      case Vector(elem) =>
        SizeVar(|v.items|);
        SizeAll(v.items, elem);
      case Optional(elem) =>
        size := size + 1;
        if v.items != [] {
          Size(v.items[0], elem);
        }
      case Tuple(fields) => SizeFields(v.items, fields);
      case Variant(alts) =>
        SizeVar(v.items[0].n);
        Size(v.items[1], alts[v.items[0].n]);
      case SetOf(elem) =>
        SizeVar(|v.items|);
        SizeAll(v.items, elem);
      case MapOf(entry) =>
        SizeVar(|v.items|);
        SizeEntries(v.items, entry);
    }

    method SizeAll(vs: seq<Val>, t: Ty)
      requires forall i :: 0 <= i < |vs| ==> HasType(vs[i], t)
      modifies this
      ensures size == old(size) + |EncAll(vs, t)|
      decreases t, 1
    {
      hide Enc, HasType;
      assert vs[0..] == vs;
      for i := 0 to |vs|
        invariant size + |EncAll(vs[i..], t)| == old(size) + |EncAll(vs, t)|
      {
        assert vs[i..][0] == vs[i] && vs[i..][1..] == vs[i + 1..];
        Size(vs[i], t);
      }
    }

    method SizeFields(vs: seq<Val>, ts: seq<Ty>)
      requires HaveTypes(vs, ts)
      modifies this
      ensures size == old(size) + |EncFields(vs, ts)|
      decreases ts, 0
    {
      hide Enc, HasType;
      assert vs[0..] == vs && ts[0..] == ts;
      for i := 0 to |ts|
        invariant HaveTypes(vs[i..], ts[i..]) && size + |EncFields(vs[i..], ts[i..])| == old(size) + |EncFields(vs, ts)|
      {
        assert vs[i..][0] == vs[i] && vs[i..][1..] == vs[i + 1..] && ts[i..][0] == ts[i] && ts[i..][1..] == ts[i + 1..];
        Size(vs[i], ts[i]);
      }
    }

    method SizeEntries(vs: seq<Val>, ts: seq<Ty>)
      requires forall i :: 0 <= i < |vs| ==> vs[i].List? && HaveTypes(vs[i].items, ts)
      modifies this
      ensures size == old(size) + |EncEntries(vs, ts)|
      decreases ts, 1
    {
      hide EncFields, HaveTypes;
      assert vs[0..] == vs;
      for i := 0 to |vs|
        invariant size + |EncEntries(vs[i..], ts)| == old(size) + |EncEntries(vs, ts)|
      {
        assert vs[i..][0] == vs[i] && vs[i..][1..] == vs[i + 1..];
        SizeFields(vs[i].items, ts);
      }
    }
  }

  method PackSize(v: Val, t: Ty) returns (n: nat)
    requires HasType(v, t)
    ensures n == |Enc(v, t)|
  {
    var s := new Sizer();
    s.Size(v, t);
    n := s.size;
  }

  /** The buffer is made as large as was counted, and the value fills it. */
  method Pack(v: Val, t: Ty) returns (out: seq<Byte>)
    requires HasType(v, t)
    ensures out == Enc(v, t)
  {
    hide Enc, HasType;
    var n := PackSize(v, t);
    var buf := new Byte[n];
    var w := new Writer(buf);
    var ok := w.Put(v, t);
    out := buf[..];
  }

  method Unpack(t: Ty, bytes: seq<Byte>) returns (st: Status, v: Val)
    ensures match Dec(t, bytes)
            case Ok(w, _) => st == Good && v == w && HasType(v, t) && InOrder(v, t)
            case Failed => st == Stopped
            case Unclear => st == Open
  {
    hide Dec, HasType, InOrder;
    var buf := new Byte[|bytes|](i requires 0 <= i < |bytes| => bytes[i]);
    assert buf[..] == bytes;
    var r := new Reader(buf);
    assert r.Ahead() == bytes;
    st, v := r.Get(t);
    if st == Good {
      DecTyped(t, bytes);
      TypedInOrder(v, t);
    }
  }

  /** A value survives being packed, stored with anything after it, and unpacked. */
  method PackUnpack(v: Val, t: Ty, rest: seq<Byte>) returns (st: Status, w: Val)
    requires HasType(v, t)
    ensures st == Good && w == v
  {
    hide Dec, HasType, Enc;
    var bytes := Pack(v, t);
    RoundTrip(v, t, rest);
    st, w := Unpack(t, bytes + rest);
  }
}
