/**
 Reading from a data stream, measuring what a value takes, and packing and unpacking whole values.
 */
module StreamReads {
  import opened Buffers
  import opened Bits
  import opened VarInts
  import opened Codec

  datatype Status = Good | Stopped | Open

  /** What a read has done is what unpacking the bytes ahead says. */
  ghost predicate Gave(r: Result, st: Status, v: Val, rest: seq<Byte>) {
    match r
    case Ok(w, rest') => st == Good && v == w && rest == rest'
    case Failed => st == Stopped
    case Unclear => st == Open
  }

  class Reader {
    const buf: array<Byte>
    var pos: nat

    ghost predicate Valid()
      reads this
    {
      pos <= buf.Length
    }

    ghost function Ahead(): seq<Byte>
      requires Valid()
      reads this, buf
    {
      buf[pos..]
    }

    constructor (buf: array<Byte>)
      ensures Valid() && this.buf == buf && pos == 0
    {
      this.buf := buf;
      pos := 0;
    }

    method Read(n: nat) returns (ok: bool, d: seq<Byte>)
      requires Valid()
      modifies this
      ensures Valid() && (ok <==> n <= |old(Ahead())|)
      ensures ok ==> d == old(Ahead())[..n] && Ahead() == old(Ahead())[n..]
    {
      if !(buf.Length - pos >= n) {
        return false, [];
      }
      d := buf[pos..pos + n];
      pos := pos + n;
      ok := true;
    }

    method GetByte() returns (ok: bool, b: Byte)
      requires Valid()
      modifies this
      ensures Valid() && (ok <==> old(Ahead()) != [])
      ensures ok ==> b == old(Ahead())[0] && Ahead() == old(Ahead())[1..]
    {
      if !(pos < buf.Length) {
        return false, 0;
      }
      b := buf[pos];
      pos := pos + 1;
      ok := true;
    }

    /** A variable-length number; a sixth byte would be shifted by more than the width. */
    method ReadVar() returns (st: Status, n: nat)
      requires Valid()
      modifies this
      ensures Valid() && Gave(DecVar(old(Ahead())), st, Num(n), Ahead())
      ensures st == Good ==> n < TWO32
    {
      hide Or, Shifted;
      var v, bit, more := 0, 0, true;
      ghost var s := Ahead();
      while more
        invariant Valid() && v >= 0 && bit >= 0
        invariant Decode(s, 0, 0) == if more then Decode(Ahead(), bit, v) else Value(v % TWO32, Ahead())
        decreases more, buf.Length - pos
      {
        var ok, b := GetByte();
        if !ok {
          return Stopped, 0;
        }
        if bit >= 32 {
          return Open, 0;
        }
        v := Or(v, Shifted(b, bit) % TWO32);
        bit := bit + 7;
        more := b >= 128;
      }
      n := v % TWO32;
      st := Good;
    }

    /** `>>` for every type. */
    method Get(t: Ty) returns (st: Status, v: Val)
      requires Valid()
      modifies this
      ensures Valid() && Gave(Dec(t, old(Ahead())), st, v, Ahead())
      decreases t, 0
    {
      hide Decode, Pow2, FromBytes, Signed, UnZigZag, DecAll, DecFields, DecEntries, InsertAll;
      v := Num(0);
      match t
      case UInt(size) =>
        var ok, d := Read(size);
        return if ok then Good else Stopped, Num(FromBytes(d));
      case SInt(size) =>
        var ok, d := Read(size);
        return if ok then Good else Stopped, Num(Signed(FromBytes(d), size));
      case Bool =>
        var ok, b := GetByte();
        return if ok then Good else Stopped, Num(if b == 0 then 0 else 1);
      case VarUInt =>
        var n;
        st, n := ReadVar();
        v := Num(n);
      case VarSInt =>
        var n;
        st, n := ReadVar();
        v := Num(if st == Good then UnZigZag(n) else 0);
      case Text =>
        st, v := GetText();
      case Vector(elem) =>
        var n;
        st, n := ReadVar();
        if st == Good {
          st, v := GetAll(elem, n);
        }
      case Optional(elem) =>
        st, v := GetOptional(elem);
      case Tuple(fields) =>
        st, v := GetFields(fields);
      case Variant(alts) =>
        st, v := GetVariant(alts);
      case SetOf(elem) =>
        var n;
        st, n := ReadVar();
        if st == Good {
          st, v := GetSet(elem, n);
        }
      case MapOf(entry) =>
        var n;
        st, n := ReadVar();
        if st == Good {
          st, v := GetMap(entry, n);
        }
    }

    method GetText() returns (st: Status, v: Val)
      requires Valid()
      modifies this
      ensures Valid() && Gave(Dec(Text, old(Ahead())), st, v, Ahead())
    {
      hide Decode, Chars;
      v := Num(0);
      var n;
      st, n := ReadVar();
      if st == Good {
        var ok, d := Read(n);
        if !ok {
          return Stopped, v;
        }
        v := List(Chars(d));
      }
    }

    method GetOptional(elem: Ty) returns (st: Status, v: Val)
      requires Valid()
      modifies this
      ensures Valid() && Gave(Dec(Optional(elem), old(Ahead())), st, v, Ahead())
      decreases elem, 2
    {
      var ok, b := GetByte();
      if !ok {
        return Stopped, Num(0);
      }
      st, v := Good, List([]);
      if b != 0 {
        st, v := Get(elem);
        v := List([v]);
      }
    }

    method GetVariant(alts: seq<Ty>) returns (st: Status, v: Val)
      requires Valid()
      modifies this
      ensures Valid() && Gave(Dec(Variant(alts), old(Ahead())), st, v, Ahead())
      decreases alts, 2
    {
      hide Decode;
      v := Num(0);
      var i;
      st, i := ReadVar();
      if st == Good {
        if i >= |alts| {
          return Stopped, v;
        }
        st, v := Get(alts[i]);
        v := List([Num(i), v]);
      }
    }

    method GetAll(t: Ty, n: nat) returns (st: Status, v: Val)
      requires Valid()
      modifies this
      ensures Valid() && Gave(DecAll(t, n, old(Ahead())), st, v, Ahead())
      decreases t, 1
    {
      hide Dec;
      ghost var s := Ahead();
      var vs: seq<Val> := [];
      PrependNothing(DecAll(t, n, s));
      for i := 0 to n
        invariant Valid() && DecAll(t, n, s) == Prepend(vs, DecAll(t, n - i, Ahead()))
      {
        st, v := Get(t);
        if st != Good {
          return;
        }
        PrependOne(vs, v, DecAll(t, n - i - 1, Ahead()));
        vs := vs + [v];
      }
      st, v := Good, List(vs);
    }

    method GetFields(ts: seq<Ty>) returns (st: Status, v: Val)
      requires Valid()
      modifies this
      ensures Valid() && Gave(DecFields(ts, old(Ahead())), st, v, Ahead())
      decreases ts, 0
    {
      hide Dec;
      ghost var s := Ahead();
      var vs: seq<Val> := [];
      PrependNothing(DecFields(ts, s));
      assert ts[0..] == ts;
      for i := 0 to |ts|
        invariant Valid() && DecFields(ts, s) == Prepend(vs, DecFields(ts[i..], Ahead()))
      {
        assert ts[i..][0] == ts[i] && ts[i..][1..] == ts[i + 1..];
        st, v := Get(ts[i]);
        if st != Good {
          return;
        }
        PrependOne(vs, v, DecFields(ts[i + 1..], Ahead()));
        vs := vs + [v];
      }
      st, v := Good, List(vs);
    }

    /** Elements go into the set as they are read. */
    method GetSet(t: Ty, n: nat) returns (st: Status, v: Val)
      requires Valid()
      modifies this
      ensures Valid() && Gave(Collect(DecAll(t, n, old(Ahead())), false), st, v, Ahead())
      decreases t, 1
    {
      hide Dec, Insert;
      ghost var s := Ahead();
      var items: seq<Val> := [];
      for i := 0 to n
        invariant Valid() && Collect(DecAll(t, n, s), false) == CollectInto(items, DecAll(t, n - i, Ahead()), false)
      {
        st, v := Get(t);
        if st != Good {
          return;
        }
        CollectOne(items, v, DecAll(t, n - i - 1, Ahead()), false);
        items := Insert(items, v, false);
      }
      st, v := Good, List(items);
    }

    method GetMap(ts: seq<Ty>, n: nat) returns (st: Status, v: Val)
      requires Valid()
      modifies this
      ensures Valid() && Gave(Collect(DecEntries(ts, n, old(Ahead())), true), st, v, Ahead())
      decreases ts, 1
    {
      hide DecFields, Insert;
      ghost var s := Ahead();
      var items: seq<Val> := [];
      for i := 0 to n
        invariant Valid() && Collect(DecEntries(ts, n, s), true)
                  == CollectInto(items, DecEntries(ts, n - i, Ahead()), true)
      {
        st, v := GetFields(ts);
        if st != Good {
          return;
        }
        CollectOne(items, v, DecEntries(ts, n - i - 1, Ahead()), true);
        items := Insert(items, v, true);
      }
      st, v := Good, List(items);
    }
  }

  /** A list of values with others in front of it. */
  ghost function Prepend(vs: seq<Val>, r: Result): Result {
    if r.Ok? && r.v.List? then Ok(List(vs + r.v.items), r.rest) else r
  }

  lemma {:induction false} PrependNothing(r: Result)
    ensures Prepend([], r) == r
  {
    if r.Ok? && r.v.List? {
      assert [] + r.v.items == r.v.items;
    }
  }

  lemma {:induction false} PrependOne(vs: seq<Val>, v: Val, r: Result)
    ensures Prepend(vs, Cons(v, r)) == Prepend(vs + [v], r)
  {
    if r.Ok? && r.v.List? {
      assert vs + ([v] + r.v.items) == vs + [v] + r.v.items;
    }
  }

  ghost function CollectInto(items: seq<Val>, r: Result, isMap: bool): Result {
    if r.Ok? && r.v.List? then Ok(List(InsertAll(items, r.v.items, isMap)), r.rest) else r
  }

  lemma {:induction false} CollectOne(items: seq<Val>, v: Val, r: Result, isMap: bool)
    ensures CollectInto(items, Cons(v, r), isMap) == CollectInto(Insert(items, v, isMap), r, isMap)
  {
    if r.Ok? && r.v.List? {
      assert ([v] + r.v.items)[1..] == r.v.items;
    }
  }
}
