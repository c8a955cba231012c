/**
 Serialization: what values of each type are packed to, and what bytes are unpacked as.
 */
module Codec {
  import opened Buffers
  import opened Bits
  import opened VarInts

  /** The types that have a serialized form. Structs and arrays are tuples; a map has a key and a value type. */
  datatype Ty =
    | UInt(size: nat)
    | SInt(size: nat)
    | Bool
    | VarUInt
    | VarSInt
    | Text                     // std::string and std::vector<char>
    | Vector(elem: Ty)         // also std::list and std::deque
    | Optional(elem: Ty)
    | Tuple(fields: seq<Ty>)
    | Variant(alts: seq<Ty>)
    | SetOf(elem: Ty)
    | MapOf(entry: seq<Ty>)

  /** Numbers, and everything made of parts; a variant is its index and its value. */
  datatype Val = Num(n: int) | List(items: seq<Val>)

  // ----- order -----

  /** The order of the C++ types: numbers by value, everything else lexicographically. */
  predicate Less(a: Val, b: Val)
    decreases a, 0
  {
    if a.Num? then b.List? || a.n < b.n
    else b.List? && LessItems(a.items, b.items)
  }

  predicate LessItems(a: seq<Val>, b: seq<Val>)
    decreases a, 1
  {
    b != [] && (a == [] || Less(a[0], b[0]) || (a[0] == b[0] && LessItems(a[1..], b[1..])))
  }

  lemma {:induction false} LessIrreflexive(a: Val)
    ensures !Less(a, a)
    decreases a, 0
  {
    if a.List? {
      LessItemsIrreflexive(a.items);
    }
  }

  lemma {:induction false} LessItemsIrreflexive(a: seq<Val>)
    ensures !LessItems(a, a)
    decreases a, 1
  {
    if a != [] {
      LessIrreflexive(a[0]);
      LessItemsIrreflexive(a[1..]);
    }
  }

  lemma {:induction false} LessTransitive(a: Val, b: Val, c: Val)
    requires Less(a, b) && Less(b, c)
    ensures Less(a, c)
    decreases a, 0
  {
    if a.List? && b.List? && c.List? {
      LessItemsTransitive(a.items, b.items, c.items);
    }
  }

  lemma {:induction false} LessItemsTransitive(a: seq<Val>, b: seq<Val>, c: seq<Val>)
    requires LessItems(a, b) && LessItems(b, c)
    ensures LessItems(a, c)
    decreases a, 1
  {
    if a != [] {
      if Less(a[0], b[0]) {
        if Less(b[0], c[0]) {
          LessTransitive(a[0], b[0], c[0]);
        }
      } else if !Less(b[0], c[0]) {
        LessItemsTransitive(a[1..], b[1..], c[1..]);
      }
    }
  }

  lemma {:induction false} LessTotal(a: Val, b: Val)
    ensures a == b || Less(a, b) || Less(b, a)
    decreases a, 0
  {
    if a.List? && b.List? {
      LessItemsTotal(a.items, b.items);
    }
  }

  lemma {:induction false} LessItemsTotal(a: seq<Val>, b: seq<Val>)
    ensures a == b || LessItems(a, b) || LessItems(b, a)
    decreases a, 1
  {
    if a != [] && b != [] {
      LessTotal(a[0], b[0]);
      LessItemsTotal(a[1..], b[1..]);
      assert a == [a[0]] + a[1..] && b == [b[0]] + b[1..];
    }
  }

  // ----- sorted containers -----

  /** A set is ordered by its elements, a map by its keys. */
  function Key(v: Val, isMap: bool): Val {
    if isMap && v.List? && v.items != [] then v.items[0] else v
  }

  ghost predicate Sorted(items: seq<Val>, isMap: bool) {
    forall i, j :: 0 <= i < j < |items| ==> Less(Key(items[i], isMap), Key(items[j], isMap))
  }

  /** `emplace`: nothing happens if the key is there already. */
  function Insert(items: seq<Val>, v: Val, isMap: bool): seq<Val> {
    if items == [] || Less(Key(v, isMap), Key(items[0], isMap)) then [v] + items
    else if Key(v, isMap) == Key(items[0], isMap) then items
    else [items[0]] + Insert(items[1..], v, isMap)
  }

  function InsertAll(items: seq<Val>, vs: seq<Val>, isMap: bool): seq<Val>
    decreases |vs|
  {
    if vs == [] then items else InsertAll(Insert(items, vs[0], isMap), vs[1..], isMap)
  }

  lemma {:induction false} InsertLast(items: seq<Val>, v: Val, isMap: bool)
    requires forall i :: 0 <= i < |items| ==> Less(Key(items[i], isMap), Key(v, isMap))
    ensures Insert(items, v, isMap) == items + [v]
  {
    if items != [] {
      var a, b := Key(v, isMap), Key(items[0], isMap);
      LessIrreflexive(b);
      if Less(a, b) {
        LessTransitive(b, a, b);
      }
      InsertLast(items[1..], v, isMap);
    }
  }

  lemma {:induction false} InsertSorted(items: seq<Val>, vs: seq<Val>, isMap: bool)
    requires Sorted(items + vs, isMap)
    ensures InsertAll(items, vs, isMap) == items + vs
    decreases |vs|
  {
    if vs == [] {
      assert items + vs == items;
    } else {
      var all := items + vs;
      assert forall i :: 0 <= i < |items| ==> all[i] == items[i] && all[|items|] == vs[0];
      InsertLast(items, vs[0], isMap);
      assert items + [vs[0]] + vs[1..] == all;
      InsertSorted(items + [vs[0]], vs[1..], isMap);
    }
  }

  ghost predicate HasKey(items: seq<Val>, k: Val, isMap: bool) {
    exists i :: 0 <= i < |items| && Key(items[i], isMap) == k
  }

  /** Inserting keeps a container sorted and all its elements, and adds the new one exactly if its key is new. */
  lemma {:induction false} InsertKeeps(items: seq<Val>, v: Val, isMap: bool)
    requires Sorted(items, isMap)
    ensures Sorted(Insert(items, v, isMap), isMap) && HasKey(Insert(items, v, isMap), Key(v, isMap), isMap)
    ensures |Insert(items, v, isMap)| == |items| + if HasKey(items, Key(v, isMap), isMap) then 0 else 1
    ensures forall x :: x in Insert(items, v, isMap) <==> x in items || (x == v && !HasKey(items, Key(v, isMap), isMap))
  {
    if items == [] {
      assert Insert(items, v, isMap) == [v] && Key([v][0], isMap) == Key(v, isMap);
      return;
    }
    var a, b, all := Key(v, isMap), Key(items[0], isMap), Insert(items, v, isMap);
    if Less(a, b) {
      forall i | 0 <= i < |items| ensures Less(a, Key(items[i], isMap)) {
        if i > 0 {
          LessTransitive(a, b, Key(items[i], isMap));
        }
      }
      LessIrreflexive(a);
      assert all[0] == v;
    } else if a != b {
      LessTotal(a, b);
      InsertKeeps(items[1..], v, isMap);
      InsertRest(items, v, isMap);
    }
  }

  /** Past the first element. */
  lemma {:induction false} InsertRest(items: seq<Val>, v: Val, isMap: bool)
    requires items != [] && Sorted(items, isMap) && Less(Key(items[0], isMap), Key(v, isMap))
    requires var rest := Insert(items[1..], v, isMap);
             && Sorted(rest, isMap) && HasKey(rest, Key(v, isMap), isMap)
             && forall x :: x in rest ==> x in items[1..] || x == v
    ensures Sorted([items[0]] + Insert(items[1..], v, isMap), isMap)
    ensures HasKey([items[0]] + Insert(items[1..], v, isMap), Key(v, isMap), isMap)
    ensures HasKey(items[1..], Key(v, isMap), isMap) <==> HasKey(items, Key(v, isMap), isMap)
  {
    var k, b, rest := Key(v, isMap), Key(items[0], isMap), Insert(items[1..], v, isMap);
    var all := [items[0]] + rest;
    forall i | 0 <= i < |rest| ensures Less(b, Key(rest[i], isMap)) {
      assert rest[i] in rest;
    }
    var i :| 0 <= i < |rest| && Key(rest[i], isMap) == k;
    assert all[i + 1] == rest[i];
    LessIrreflexive(k);
    if HasKey(items, k, isMap) {
      var j :| 0 <= j < |items| && Key(items[j], isMap) == k;
      assert items[1..][j - 1] == items[j];
    }
    if HasKey(items[1..], k, isMap) {
      var j :| 0 <= j < |items[1..]| && Key(items[1..][j], isMap) == k;
      assert items[j + 1] == items[1..][j];
    }
  }

  lemma {:induction false} InsertAllKeeps(items: seq<Val>, vs: seq<Val>, isMap: bool)
    requires Sorted(items, isMap)
    ensures Sorted(InsertAll(items, vs, isMap), isMap) && |InsertAll(items, vs, isMap)| <= |items| + |vs|
    ensures forall x :: x in InsertAll(items, vs, isMap) ==> x in vs || x in items
    ensures forall x :: x in items ==> x in InsertAll(items, vs, isMap)
    decreases |vs|
  {
    if vs != [] {
      InsertKeeps(items, vs[0], isMap);
      InsertAllKeeps(Insert(items, vs[0], isMap), vs[1..], isMap);
    }
  }

  // ----- values of a type -----

  ghost predicate HasType(v: Val, t: Ty)
    decreases t, 0
  {
    match t
    case UInt(size) => v.Num? && 0 <= v.n < Pow2(8 * size)
    case SInt(size) => v.Num? && if size == 0 then v.n == 0 else 0 - Pow2(8 * size - 1) <= v.n < Pow2(8 * size - 1)
    case Bool => v.Num? && 0 <= v.n <= 1
    case VarUInt => v.Num? && 0 <= v.n < TWO32
    case VarSInt => v.Num? && IsInt32(v.n)
    case Text => v.List? && |v.items| < TWO32 && forall i :: 0 <= i < |v.items| ==>
        v.items[i].Num? && 0 <= v.items[i].n < 256
    case Vector(elem) => v.List? && |v.items| < TWO32 && forall i :: 0 <= i < |v.items| ==> HasType(v.items[i], elem)
    case Optional(elem) => v.List? && |v.items| <= 1 && (|v.items| == 1 ==> HasType(v.items[0], elem))
    case Tuple(fields) => v.List? && HaveTypes(v.items, fields)
    case Variant(alts) =>
      && v.List? && |v.items| == 2 && v.items[0].Num? && 0 <= v.items[0].n < |alts| && v.items[0].n < TWO32
      && HasType(v.items[1], alts[v.items[0].n])
    case SetOf(elem) =>
      && v.List? && |v.items| < TWO32 && (forall i :: 0 <= i < |v.items| ==> HasType(v.items[i], elem))
      && Sorted(v.items, false)
    case MapOf(entry) =>
      && v.List? && |v.items| < TWO32
      && (forall i :: 0 <= i < |v.items| ==> v.items[i].List? && HaveTypes(v.items[i].items, entry))
      && Sorted(v.items, true)
  }

  ghost predicate HaveTypes(vs: seq<Val>, ts: seq<Ty>)
    decreases ts, 0
  {
    |vs| == |ts| && (ts == [] || (HasType(vs[0], ts[0]) && HaveTypes(vs[1..], ts[1..])))
  }

  // ----- packing -----

  /** The bytes of a number in memory, low byte first. */
  function Bytes(n: nat, size: nat): (s: seq<Byte>)
    ensures |s| == size
    decreases size
  {
    if size == 0 then [] else [n % 256] + Bytes(n / 256, size - 1)
  }

  /** The low byte comes first. */
  lemma {:induction false} LowByteFirst(n: nat, size: nat, i: nat)
    requires i < size
    ensures Bytes(n, size)[i] == n / Pow2(8 * i) % 256
    decreases i
  {
    hide Pow2;
    if i == 0 {
      Pow2Zero();
    } else {
      LowByteFirst(n / 256, size - 1, i - 1);
      SmallPowers();
      Pow2Add(8, 8 * (i - 1));
      QuotientTwice(n, 256, Pow2(8 * (i - 1)));
    }
  }

  ghost function Enc(v: Val, t: Ty): seq<Byte>
    requires HasType(v, t)
    decreases t, 0
  {
    match t
    case UInt(size) => Bytes(v.n, size)
    case SInt(size) => Bytes(v.n % Pow2(8 * size), size)
    case Bool => [v.n]
    case VarUInt => Encode(v.n)
    case VarSInt => Encode(ZigZag(v.n))
    case Text => Encode(|v.items|) + seq(|v.items|, i requires 0 <= i < |v.items| => v.items[i].n)
    case Vector(elem) => Encode(|v.items|) + EncAll(v.items, elem)
    case Optional(elem) => if v.items == [] then [0] else [1] + Enc(v.items[0], elem)
    case Tuple(fields) => EncFields(v.items, fields)
    case Variant(alts) => Encode(v.items[0].n) + Enc(v.items[1], alts[v.items[0].n])
    case SetOf(elem) => Encode(|v.items|) + EncAll(v.items, elem)
    case MapOf(entry) => Encode(|v.items|) + EncEntries(v.items, entry)
  }

  ghost function EncAll(vs: seq<Val>, t: Ty): seq<Byte>
    requires forall i :: 0 <= i < |vs| ==> HasType(vs[i], t)
    decreases t, 1, |vs|
  {
    if vs == [] then [] else Enc(vs[0], t) + EncAll(vs[1..], t)
  }

  ghost function EncFields(vs: seq<Val>, ts: seq<Ty>): seq<Byte>
    requires HaveTypes(vs, ts)
    decreases ts, 0
  {
    if ts == [] then [] else Enc(vs[0], ts[0]) + EncFields(vs[1..], ts[1..])
  }

  ghost function EncEntries(vs: seq<Val>, ts: seq<Ty>): seq<Byte>
    requires forall i :: 0 <= i < |vs| ==> vs[i].List? && HaveTypes(vs[i].items, ts)
    decreases ts, 1, |vs|
  {
    if vs == [] then [] else EncFields(vs[0].items, ts) + EncEntries(vs[1..], ts)
  }

  // ----- unpacking -----

  datatype Result =
    | Ok(v: Val, rest: seq<Byte>)
    | Failed  // a failed check ends the contract
    | Unclear // the source leaves open what happens

  function FromBytes(s: seq<Byte>): nat {
    if s == [] then 0 else s[0] + 256 * FromBytes(s[1..])
  }

  function Signed(n: nat, size: nat): int {
    if size > 0 && n >= Pow2(8 * size - 1) then n - Pow2(8 * size) else n
  }

  function DecVar(s: seq<Byte>): Result {
    match Decode(s, 0, 0)
    case Value(n, rest) => Ok(Num(n), rest)
    case Abort => Failed
    case Undefined => Unclear
  }

  function Chars(s: seq<Byte>): seq<Val> {
    seq(|s|, i requires 0 <= i < |s| => Num(s[i]))
  }

  /** A length, then what it is the length of. */
  function Dec(t: Ty, s: seq<Byte>): Result
    decreases t, 0
  {
    match t
    case UInt(size) => if |s| < size then Failed else Ok(Num(FromBytes(s[..size])), s[size..])
    case SInt(size) => if |s| < size then Failed else Ok(Num(Signed(FromBytes(s[..size]), size)), s[size..])
    case Bool => if s == [] then Failed else Ok(Num(if s[0] == 0 then 0 else 1), s[1..])
    case VarUInt => DecVar(s)
    case VarSInt =>
      (match Decode(s, 0, 0)
       case Value(n, rest) => Ok(Num(UnZigZag(n)), rest)
       case Abort => Failed
       case Undefined => Unclear)
    case Text =>
      var len := DecVar(s);
      if !len.Ok? then len
      else if |len.rest| < len.v.n then Failed
      else Ok(List(Chars(len.rest[..len.v.n])), len.rest[len.v.n..])
    case Vector(elem) =>
      var len := DecVar(s);
      if !len.Ok? then len else DecAll(elem, len.v.n, len.rest)
    case Optional(elem) =>
      if s == [] then Failed
      else if s[0] == 0 then Ok(List([]), s[1..])
      else
        (match Dec(elem, s[1..])
         case Ok(v, rest) => Ok(List([v]), rest)
         case r => r)
    case Tuple(fields) => DecFields(fields, s)
    case Variant(alts) =>
      var index := DecVar(s);
      if !index.Ok? then index
      else if index.v.n >= |alts| then Failed
      else
        (match Dec(alts[index.v.n], index.rest)
         case Ok(v, rest) => Ok(List([index.v, v]), rest)
         case r => r)
    case SetOf(elem) =>
      var len := DecVar(s);
      if !len.Ok? then len else Collect(DecAll(elem, len.v.n, len.rest), false)
    case MapOf(entry) =>
      var len := DecVar(s);
      if !len.Ok? then len else Collect(DecEntries(entry, len.v.n, len.rest), true)
  }

  function Collect(r: Result, isMap: bool): Result {
    if r.Ok? && r.v.List? then Ok(List(InsertAll([], r.v.items, isMap)), r.rest) else r
  }

  /** One more value in front of a list of them. */
  function Cons(v: Val, r: Result): Result {
    if r.Ok? && r.v.List? then Ok(List([v] + r.v.items), r.rest) else r
  }

  function DecAll(t: Ty, n: nat, s: seq<Byte>): Result
    decreases t, 1, n
  {
    if n == 0 then Ok(List([]), s)
    else
      match Dec(t, s)
      case Ok(v, rest) => Cons(v, DecAll(t, n - 1, rest))
      case r => r
  }

  function DecFields(ts: seq<Ty>, s: seq<Byte>): Result
    decreases ts, 0
  {
    if ts == [] then Ok(List([]), s)
    else
      match Dec(ts[0], s)
      case Ok(v, rest) => Cons(v, DecFields(ts[1..], rest))
      case r => r
  }

  function DecEntries(ts: seq<Ty>, n: nat, s: seq<Byte>): Result
    decreases ts, 1, n
  {
    if n == 0 then Ok(List([]), s)
    else
      match DecFields(ts, s)
      case Ok(v, rest) => Cons(v, DecEntries(ts, n - 1, rest))
      case r => r
  }
}
