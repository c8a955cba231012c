/**
 What the order of values comes to, told by integers, and what that makes of the elements of sets and maps.
 */
module CodecOrder {
  import opened VarInts
  import opened Codec

  predicate IsNumber(t: Ty) {
    t.UInt? || t.SInt? || t.Bool? || t.VarUInt? || t.VarSInt?
  }

  lemma {:induction false} NumbersByValue(a: Val, b: Val)
    requires a.Num? && b.Num?
    ensures Less(a, b) <==> a.n < b.n
  {
  }

  /** A list comes first if it is the beginning of the other one, or has the smaller value at the first difference. */
  lemma {:induction false} ListsAtFirstDifference(a: seq<Val>, b: seq<Val>)
    ensures Less(List(a), List(b)) <==> (a < b || exists k: nat :: DifferAt(a, b, k) && Less(a[k], b[k]))
    decreases |a|
  {
    if a != [] && b != [] {
      if a[0] == b[0] {
        LessIrreflexive(a[0]);
        ListsAtFirstDifference(a[1..], b[1..]);
        assert a < b <==> a[1..] < b[1..] by {
          assert a == [a[0]] + a[1..] && b == [b[0]] + b[1..];
        }
        DifferLater(a, b);
      } else {
        DifferAtOnce(a, b);
      }
    }
  }

  ghost predicate DifferAt(a: seq<Val>, b: seq<Val>, k: nat) {
    k < |a| && k < |b| && a[k] != b[k] && forall j :: 0 <= j < k ==> a[j] == b[j]
  }

  lemma {:induction false} DifferLater(a: seq<Val>, b: seq<Val>)
    requires a != [] && b != [] && a[0] == b[0]
    ensures (exists k: nat :: DifferAt(a, b, k) && Less(a[k], b[k]))
            <==> exists k: nat :: DifferAt(a[1..], b[1..], k) && Less(a[1..][k], b[1..][k])
  {
    if k: nat :| DifferAt(a, b, k) && Less(a[k], b[k]) {
      assert DifferAt(a[1..], b[1..], k - 1) && Less(a[1..][k - 1], b[1..][k - 1]);
    }
    if k: nat :| DifferAt(a[1..], b[1..], k) && Less(a[1..][k], b[1..][k]) {
      forall j | 0 <= j < k + 1 ensures a[j] == b[j] {
        assert j > 0 ==> a[1..][j - 1] == b[1..][j - 1];
      }
      assert DifferAt(a, b, k + 1) && Less(a[k + 1], b[k + 1]);
    }
  }

  lemma {:induction false} DifferAtOnce(a: seq<Val>, b: seq<Val>)
    requires a != [] && b != [] && a[0] != b[0]
    ensures Less(a[0], b[0]) <==> exists k: nat :: DifferAt(a, b, k) && Less(a[k], b[k])
    ensures !(a < b)
  {
    if Less(a[0], b[0]) {
      assert DifferAt(a, b, 0);
    }
  }

  // ----- texts -----

  ghost predicate IsBytes(s: seq<Val>) {
    forall i :: 0 <= i < |s| ==> s[i].Num? && 0 <= s[i].n < 256
  }

  /** The order of `std::string`. */
  ghost predicate TextBefore(a: seq<Val>, b: seq<Val>) {
    a < b || exists k: nat :: DifferAt(a, b, k) && a[k].Num? && b[k].Num? && a[k].n < b[k].n
  }

  lemma {:induction false} TextsByByte(a: seq<Val>, b: seq<Val>)
    requires IsBytes(a) && IsBytes(b)
    ensures Less(List(a), List(b)) <==> TextBefore(a, b)
  {
    ListsAtFirstDifference(a, b);
    forall k: nat | DifferAt(a, b, k) ensures Less(a[k], b[k]) <==> a[k].n < b[k].n {
      NumbersByValue(a[k], b[k]);
    }
  }

  // ----- the elements of sets and maps -----

  ghost predicate Ascending(s: seq<Val>) {
    forall i, j :: 0 <= i < j < |s| ==> s[i].Num? && s[j].Num? && s[i].n < s[j].n
  }

  ghost predicate TextsAscending(s: seq<Val>) {
    forall i, j :: 0 <= i < j < |s| ==> s[i].List? && s[j].List? && TextBefore(s[i].items, s[j].items)
  }

  /** The keys of a map are the first parts of its entries. */
  ghost predicate KeysOf(s: seq<Val>, keys: seq<Val>) {
    |keys| == |s| && forall i :: 0 <= i < |s| ==> s[i].List? && s[i].items != [] && keys[i] == s[i].items[0]
  }

  ghost predicate KeysAscending(keys: seq<Val>, t: Ty) {
    (IsNumber(t) ==> Ascending(keys)) && (t.Text? ==> TextsAscending(keys))
  }

  /** Sets and maps with numbers or texts for keys are in the order of these. */
  ghost predicate InOrder(v: Val, t: Ty) {
    match t
    case SetOf(elem) => v.List? && KeysAscending(v.items, elem)
    case MapOf(entry) =>
      v.List? && (entry != [] ==> exists keys :: KeysOf(v.items, keys) && KeysAscending(keys, entry[0]))
    case _ => true
  }

  lemma {:induction false} AscendingIsSorted(s: seq<Val>)
    requires forall i :: 0 <= i < |s| ==> s[i].Num?
    ensures Ascending(s) <==> Sorted(s, false)
  {
    forall i, j | 0 <= i < j < |s| ensures Less(Key(s[i], false), Key(s[j], false)) <==> s[i].n < s[j].n {
      NumbersByValue(s[i], s[j]);
    }
  }

  lemma {:induction false} TextsAscendingIsSorted(s: seq<Val>)
    requires forall i :: 0 <= i < |s| ==> s[i].List? && IsBytes(s[i].items)
    ensures TextsAscending(s) <==> Sorted(s, false)
  {
    forall i, j | 0 <= i < j < |s|
      ensures Less(Key(s[i], false), Key(s[j], false)) <==> TextBefore(s[i].items, s[j].items)
    {
      TextsByByte(s[i].items, s[j].items);
    }
  }

  lemma {:induction false} NumberTyped(v: Val, t: Ty)
    requires HasType(v, t)
    ensures IsNumber(t) ==> v.Num?
    ensures t.Text? ==> v.List? && IsBytes(v.items)
  {
  }

  /** The values of a set of numbers are exactly the ascending lists of them. */
  lemma {:induction false} NumberSets(s: seq<Val>, elem: Ty)
    requires IsNumber(elem) && |s| < TWO32 && forall i :: 0 <= i < |s| ==> HasType(s[i], elem)
    ensures HasType(List(s), SetOf(elem)) <==> Ascending(s)
  {
    forall i | 0 <= i < |s| ensures s[i].Num? {
      NumberTyped(s[i], elem);
    }
    AscendingIsSorted(s);
  }

  /** The values of a map with numbers for keys are exactly the lists of entries whose keys ascend. */
  lemma {:induction false} NumberMaps(s: seq<Val>, keys: seq<Val>, entry: seq<Ty>)
    requires entry != [] && IsNumber(entry[0]) && |s| < TWO32 && KeysOf(s, keys)
    requires forall i :: 0 <= i < |s| ==> s[i].List? && HaveTypes(s[i].items, entry)
    ensures HasType(List(s), MapOf(entry)) <==> Ascending(keys)
  {
    forall i | 0 <= i < |s| ensures keys[i].Num? && Key(s[i], true) == keys[i] {
      NumberTyped(s[i].items[0], entry[0]);
    }
    AscendingIsSorted(keys);
    SortedByKeys(s, keys);
  }

  lemma {:induction false} SortedByKeys(s: seq<Val>, keys: seq<Val>)
    requires KeysOf(s, keys)
    ensures Sorted(s, true) <==> Sorted(keys, false)
  {
    hide Less;
    forall i | 0 <= i < |s| ensures Key(s[i], true) == Key(keys[i], false) {
    }
  }

  /** Whatever has the type of a set or a map is in order. */
  lemma {:induction false} TypedInOrder(v: Val, t: Ty)
    requires HasType(v, t)
    ensures InOrder(v, t)
  {
    match t
    case SetOf(elem) =>
      forall i | 0 <= i < |v.items|
        ensures (IsNumber(elem) ==> v.items[i].Num?) && (elem.Text? ==> v.items[i].List? && IsBytes(v.items[i].items))
      {
        NumberTyped(v.items[i], elem);
      }
      if IsNumber(elem) {
        AscendingIsSorted(v.items);
      } else if elem.Text? {
        TextsAscendingIsSorted(v.items);
      }
    case MapOf(entry) =>
      if entry != [] {
        KeysInOrder(v.items, entry);
      }
    case _ =>
  }

  lemma {:induction false} KeysInOrder(s: seq<Val>, entry: seq<Ty>)
    requires entry != [] && Sorted(s, true)
    requires forall i :: 0 <= i < |s| ==> s[i].List? && HaveTypes(s[i].items, entry)
    ensures exists keys :: KeysOf(s, keys) && KeysAscending(keys, entry[0])
  {
    forall i | 0 <= i < |s| ensures s[i].items != [] && HasType(s[i].items[0], entry[0]) {
    }
    var keys := seq(|s|, i requires 0 <= i < |s| && s[i].List? && s[i].items != [] => s[i].items[0]);
    assert KeysOf(s, keys);
    forall i | 0 <= i < |keys|
      ensures (IsNumber(entry[0]) ==> keys[i].Num?) && (entry[0].Text? ==> keys[i].List? && IsBytes(keys[i].items))
    {
      NumberTyped(keys[i], entry[0]);
    }
    SortedByKeys(s, keys);
    if IsNumber(entry[0]) {
      AscendingIsSorted(keys);
    } else if entry[0].Text? {
      TextsAscendingIsSorted(keys);
    }
  }

  // ----- which elements are kept -----

  /** No entry before `i` has the key of entry `i`. */
  ghost predicate FirstWithKey(vs: seq<Val>, i: nat) {
    i < |vs| && forall j :: 0 <= j < i ==> Part(vs[j]) != Part(vs[i])
  }

  ghost function Part(v: Val): Val {
    if v.List? && v.items != [] then v.items[0] else v
  }

  /** A set holds what is put into it. */
  lemma {:induction false} SetHolds(vs: seq<Val>, x: Val)
    ensures x in InsertAll([], vs, false) <==> x in vs
  {
    InsertedInto([], vs, false, x);
    if x in vs {
      FirstOf(vs, x);
    }
  }

  /** A map holds the first entry for each key. */
  lemma {:induction false} MapHolds(vs: seq<Val>, x: Val)
    ensures x in InsertAll([], vs, true) <==> exists i: nat :: FirstWithKey(vs, i) && vs[i] == x
  {
    InsertedInto([], vs, true, x);
    forall i | 0 <= i < |vs| ensures FirstFor(vs, i, true) <==> FirstWithKey(vs, i) {
    }
  }

  ghost predicate FirstFor(vs: seq<Val>, i: nat, isMap: bool) {
    i < |vs| && forall j :: 0 <= j < i ==> Key(vs[j], isMap) != Key(vs[i], isMap)
  }

  /** `x` is the first of `vs` with its key, and no item has that key. */
  ghost predicate Enters(items: seq<Val>, vs: seq<Val>, isMap: bool, x: Val) {
    exists i: nat :: FirstFor(vs, i, isMap) && vs[i] == x && !HasKey(items, Key(x, isMap), isMap)
  }

  lemma {:induction false} FirstOf(vs: seq<Val>, x: Val)
    requires x in vs
    ensures exists i: nat :: FirstFor(vs, i, false) && vs[i] == x
    decreases |vs|
  {
    var last := |vs| - 1;
    if x in vs[..last] {
      FirstOf(vs[..last], x);
      var i: nat :| FirstFor(vs[..last], i, false) && vs[..last][i] == x;
      assert FirstFor(vs, i, false) && vs[i] == x;
    } else {
      forall j | 0 <= j < last ensures vs[j] != x {
        assert vs[..last][j] == vs[j];
      }
      assert FirstFor(vs, last, false) && vs[last] == x;
    }
  }

  lemma {:induction false} InsertedInto(items: seq<Val>, vs: seq<Val>, isMap: bool, x: Val)
    requires Sorted(items, isMap)
    ensures x in InsertAll(items, vs, isMap) <==>
              x in items || Enters(items, vs, isMap, x)
    decreases |vs|
  {
    if vs != [] {
      InsertKeeps(items, vs[0], isMap);
      InsertedInto(Insert(items, vs[0], isMap), vs[1..], isMap, x);
      InsertedStep(items, vs, isMap, x);
    }
  }

  lemma {:induction false} InsertedStep(items: seq<Val>, vs: seq<Val>, isMap: bool, x: Val)
    requires vs != [] && Sorted(items, isMap)
    ensures var more := Insert(items, vs[0], isMap);
            x in more || Enters(more, vs[1..], isMap, x) <==> x in items || Enters(items, vs, isMap, x)
  {
    hide Key, Sorted, Insert;
    var more, k := Insert(items, vs[0], isMap), Key(x, isMap);
    InsertKeeps(items, vs[0], isMap);
    KeysAfter(items, vs[0], isMap, k);
    if i: nat :| FirstFor(vs[1..], i, isMap) && vs[1..][i] == x && !HasKey(more, k, isMap) {
      forall j | 0 <= j < i + 1 ensures Key(vs[j], isMap) != k {
        assert j > 0 ==> vs[1..][j - 1] == vs[j];
      }
      assert FirstFor(vs, i + 1, isMap) && vs[i + 1] == x;
    }
    if x == vs[0] && !HasKey(items, k, isMap) {
      assert FirstFor(vs, 0, isMap);
    }
    if i: nat :| FirstFor(vs, i, isMap) && vs[i] == x && !HasKey(items, k, isMap) {
      if i > 0 {
        forall j | 0 <= j < i - 1 ensures Key(vs[1..][j], isMap) != k {
          assert vs[1..][j] == vs[j + 1];
        }
        assert FirstFor(vs[1..], i - 1, isMap) && vs[1..][i - 1] == x;
      }
    }
  }

  lemma {:induction false} KeysAfter(items: seq<Val>, v: Val, isMap: bool, k: Val)
    requires Sorted(items, isMap)
    ensures HasKey(Insert(items, v, isMap), k, isMap) <==> HasKey(items, k, isMap) || k == Key(v, isMap)
  {
    hide Key, Sorted, Insert;
    var more := Insert(items, v, isMap);
    InsertKeeps(items, v, isMap);
    if i: nat :| 0 <= i < |more| && Key(more[i], isMap) == k {
      assert more[i] in more;
      if more[i] in items {
        var j: nat :| 0 <= j < |items| && items[j] == more[i];
      }
    }
    if i: nat :| 0 <= i < |items| && Key(items[i], isMap) == k {
      assert items[i] in more;
      var j: nat :| 0 <= j < |more| && more[j] == items[i];
    }
  }
}
