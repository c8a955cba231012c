/**
 Secondary indices: when they agree with the primary table, and which updates keep them in agreement.
 */
module DbIndices {
  import opened Codec
  import opened CodecCorrect
  import opened DbKeys

  /** The objects of a table by primary key: what a scan of the primary table finds. */
  type Rows = map<Val, Val>

  ghost predicate RowsOk(t: Table, rows: Rows) {
    forall p :: p in rows ==> HasType(p, t.primaryTy) && HasType(rows[p], t.objTy) && t.primary(rows[p]) == p
  }

  ghost predicate PrimaryOk(t: Table, store: Store, rows: Rows)
    requires TableOk(t) && RowsOk(t, rows)
  {
    forall p :: HasType(p, t.primaryTy) ==>
      (PKey(t, p) in store <==> p in rows) && (p in rows ==> store[PKey(t, p)] == Enc(rows[p], t.objTy))
  }

  function SecondaryKey(t: Table, i: nat, v: Val): Val
    requires i < |t.indices|
  {
    t.indices[i].extract(v)
  }

  /** The object with primary key `p` has key `k` in index `i`. */
  ghost predicate Holds(t: Table, rows: Rows, i: nat, k: Val, p: Val)
    requires i < |t.indices|
  {
    p in rows && SecondaryKey(t, i, rows[p]) == k
  }

  /** Entry `k` of index `i` is there exactly when an object has that key, and leads to it. */
  ghost predicate EntryOk(t: Table, store: Store, rows: Rows, i: nat, k: Val)
    requires TableOk(t) && i < Active(t) && HasType(k, t.indices[i].ty) && RowsOk(t, rows)
  {
    && (SKey(t, i, k) in store <==> exists p :: Holds(t, rows, i, k, p))
    && (forall p :: Holds(t, rows, i, k, p) ==> SKey(t, i, k) in store && store[SKey(t, i, k)] == Enc(p, t.primaryTy))
  }

  ghost predicate IndexOk(t: Table, store: Store, rows: Rows, i: nat)
    requires TableOk(t) && i < Active(t) && RowsOk(t, rows)
  {
    forall k :: HasType(k, t.indices[i].ty) ==> EntryOk(t, store, rows, i, k)
  }

  /** Every index agrees with the primary table. */
  ghost predicate Agrees(t: Table, store: Store, rows: Rows) {
    && TableOk(t) && RowsOk(t, rows) && PrimaryOk(t, store, rows)
    && forall i :: 0 <= i < |t.indices| && i < 16 ==> IndexOk(t, store, rows, i)
  }

  // ----- one index -----

  lemma {:induction false} OneHolder(t: Table, store: Store, rows: Rows, i: nat, k: Val, p: Val, q: Val)
    requires TableOk(t) && i < Active(t) && HasType(k, t.indices[i].ty) && RowsOk(t, rows)
             && EntryOk(t, store, rows, i, k)
    requires Holds(t, rows, i, k, p) && Holds(t, rows, i, k, q)
    ensures p == q
  {
    hide Enc, HasType, SKey;
    Injective(p, q, t.primaryTy);
  }

  /** No object but the one with primary key `p` has key `k` in index `i`. */
  ghost predicate NotTaken(t: Table, rows: Rows, i: nat, k: Val, p: Val)
    requires i < |t.indices|
  {
    forall q :: q in rows && q != p ==> SecondaryKey(t, i, rows[q]) != k
  }

  /** `set` on one index: the entry of the old key goes, if the key has changed, and that of the new one is written. */
  ghost function SetIndex(t: Table, store: Store, rows: Rows, i: nat, obj: Val): Store
    requires TableOk(t) && i < Active(t) && RowsOk(t, rows) && HasType(obj, t.objTy)
  {
    var p, k := t.primary(obj), SecondaryKey(t, i, obj);
    var store' := if p in rows && SecondaryKey(t, i, rows[p]) != k
        then store - {SKey(t, i, SecondaryKey(t, i, rows[p]))} else store;
    store'[SKey(t, i, k) := Enc(p, t.primaryTy)]
  }

  /** The index agrees afterwards exactly when the key was not taken. */
  lemma {:induction false} SetIndexAgrees(t: Table, store: Store, rows: Rows, i: nat, obj: Val)
    requires TableOk(t) && i < Active(t) && RowsOk(t, rows) && HasType(obj, t.objTy) && IndexOk(t, store, rows, i)
    ensures RowsOk(t, rows[t.primary(obj) := obj])
    ensures IndexOk(t, SetIndex(t, store, rows, i, obj), rows[t.primary(obj) := obj], i)
            <==> NotTaken(t, rows, i, SecondaryKey(t, i, obj), t.primary(obj))
  {
    hide Enc, HasType, SKey, EntryOk, SetIndex;
    var p, k, rows' := t.primary(obj), SecondaryKey(t, i, obj), rows[t.primary(obj) := obj];
    var store' := SetIndex(t, store, rows, i, obj);
    assert RowsOk(t, rows');
    if NotTaken(t, rows, i, k, p) {
      forall l | HasType(l, t.indices[i].ty) ensures EntryOk(t, store', rows', i, l) {
        SetEntry(t, store, rows, i, obj, l);
      }
    } else {
      var q :| q in rows && q != p && SecondaryKey(t, i, rows[q]) == k;
      assert Holds(t, rows', i, k, q) && Holds(t, rows', i, k, p);
      if IndexOk(t, store', rows', i) {
        assert EntryOk(t, store', rows', i, k);
        OneHolder(t, store', rows', i, k, p, q);
      }
    }
  }

  lemma {:induction false} SetEntry(t: Table, store: Store, rows: Rows, i: nat, obj: Val, l: Val)
    requires TableOk(t) && i < Active(t) && RowsOk(t, rows) && HasType(obj, t.objTy) && HasType(l, t.indices[i].ty)
    requires IndexOk(t, store, rows, i) && NotTaken(t, rows, i, SecondaryKey(t, i, obj), t.primary(obj))
    requires RowsOk(t, rows[t.primary(obj) := obj])
    ensures EntryOk(t, SetIndex(t, store, rows, i, obj), rows[t.primary(obj) := obj], i, l)
  {
    hide Enc, HasType, SKey, IndexOk, RowsOk, TableOk, EntryOk, SecondaryKey;
    var p, k := t.primary(obj), SecondaryKey(t, i, obj);
    ObjectTyped(t, i, obj);
    EntryOf(t, store, rows, i, l);
    SKeyInjective(t, i, l, i, k);
    if p in rows {
      RowKeyTyped(t, rows, i, p);
      SKeyInjective(t, i, l, i, SecondaryKey(t, i, rows[p]));
    }
    if l == k {
      SetEntryNew(t, store, rows, i, obj);
    } else if p in rows && l == SecondaryKey(t, i, rows[p]) {
      SetEntryOld(t, store, rows, i, obj);
    } else {
      SetEntryOther(t, store, rows, i, obj, l);
    }
  }

  lemma {:induction false} SetEntryNew(t: Table, store: Store, rows: Rows, i: nat, obj: Val)
    requires TableOk(t) && i < Active(t) && RowsOk(t, rows) && HasType(obj, t.objTy)
             && RowsOk(t, rows[t.primary(obj) := obj])
    requires NotTaken(t, rows, i, SecondaryKey(t, i, obj), t.primary(obj))
             && HasType(SecondaryKey(t, i, obj), t.indices[i].ty)
    ensures EntryOk(t, SetIndex(t, store, rows, i, obj), rows[t.primary(obj) := obj], i, SecondaryKey(t, i, obj))
  {
    hide Enc, HasType, SKey, RowsOk;
    assert Holds(t, rows[t.primary(obj) := obj], i, SecondaryKey(t, i, obj), t.primary(obj));
  }

  lemma {:induction false} SetEntryOld(t: Table, store: Store, rows: Rows, i: nat, obj: Val)
    requires TableOk(t) && i < Active(t) && RowsOk(t, rows) && HasType(obj, t.objTy)
             && RowsOk(t, rows[t.primary(obj) := obj])
    requires t.primary(obj) in rows && SecondaryKey(t, i, rows[t.primary(obj)]) != SecondaryKey(t, i, obj)
    requires HasType(SecondaryKey(t, i, rows[t.primary(obj)]), t.indices[i].ty)
    requires EntryOk(t, store, rows, i, SecondaryKey(t, i, rows[t.primary(obj)]))
    ensures EntryOk(t, SetIndex(t, store, rows, i, obj), rows[t.primary(obj) := obj], i,
            SecondaryKey(t, i, rows[t.primary(obj)]))
  {
    hide Enc, HasType, SKey, RowsOk;
    var p, rows' := t.primary(obj), rows[t.primary(obj) := obj];
    var was := SecondaryKey(t, i, rows[p]);
    SKeyInjective(t, i, was, i, SecondaryKey(t, i, obj));
    assert Holds(t, rows, i, was, p);
    forall q ensures !Holds(t, rows', i, was, q) {
      if q != p && Holds(t, rows', i, was, q) {
        assert Holds(t, rows, i, was, q);
        OneHolder(t, store, rows, i, was, p, q);
      }
    }
  }

  lemma {:induction false} SetEntryOther(t: Table, store: Store, rows: Rows, i: nat, obj: Val, l: Val)
    requires TableOk(t) && i < Active(t) && RowsOk(t, rows) && HasType(obj, t.objTy)
             && RowsOk(t, rows[t.primary(obj) := obj])
    requires HasType(l, t.indices[i].ty) && EntryOk(t, store, rows, i, l) && l != SecondaryKey(t, i, obj)
    requires t.primary(obj) in rows ==> l != SecondaryKey(t, i, rows[t.primary(obj)])
    ensures EntryOk(t, SetIndex(t, store, rows, i, obj), rows[t.primary(obj) := obj], i, l)
  {
    hide Enc, HasType, SKey, RowsOk, TableOk, SecondaryKey, SetIndex, EntryOk;
    var p, rows', store' := t.primary(obj), rows[t.primary(obj) := obj], SetIndex(t, store, rows, i, obj);
    SetIndexElsewhere(t, store, rows, i, obj, l);
    forall q ensures Holds(t, rows', i, l, q) <==> Holds(t, rows, i, l, q) {
      if q != p && q in rows {
        assert rows'[q] == rows[q];
      }
    }
    SameEntry(t, store, store', rows, rows', i, l);
  }

  /** The entries of other keys stay. */
  lemma {:induction false} SetIndexElsewhere(t: Table, store: Store, rows: Rows, i: nat, obj: Val, l: Val)
    requires TableOk(t) && i < Active(t) && RowsOk(t, rows) && HasType(obj, t.objTy) && HasType(l, t.indices[i].ty)
    requires l != SecondaryKey(t, i, obj) && (t.primary(obj) in rows ==> l != SecondaryKey(t, i, rows[t.primary(obj)]))
    ensures var store' := SetIndex(t, store, rows, i, obj);
            && (SKey(t, i, l) in store' <==> SKey(t, i, l) in store)
            && (SKey(t, i, l) in store ==> store'[SKey(t, i, l)] == store[SKey(t, i, l)])
  {
    hide Enc, HasType, SKey, RowsOk, TableOk, SecondaryKey;
    var p := t.primary(obj);
    ObjectTyped(t, i, obj);
    SKeyInjective(t, i, l, i, SecondaryKey(t, i, obj));
    if p in rows {
      RowKeyTyped(t, rows, i, p);
      SKeyInjective(t, i, l, i, SecondaryKey(t, i, rows[p]));
    }
  }

  lemma {:induction false} ObjectTyped(t: Table, i: nat, v: Val)
    requires TableOk(t) && i < Active(t) && HasType(v, t.objTy)
    ensures HasType(SecondaryKey(t, i, v), t.indices[i].ty) && HasType(t.primary(v), t.primaryTy)
  {
    hide HasType, Enc;
  }

  lemma {:induction false} EntryOf(t: Table, store: Store, rows: Rows, i: nat, k: Val)
    requires TableOk(t) && i < Active(t) && RowsOk(t, rows) && IndexOk(t, store, rows, i) && HasType(k, t.indices[i].ty)
    ensures EntryOk(t, store, rows, i, k)
  {
    hide EntryOk, HasType;
  }

  lemma {:induction false} RowKeyTyped(t: Table, rows: Rows, i: nat, p: Val)
    requires TableOk(t) && i < Active(t) && RowsOk(t, rows) && p in rows
    ensures HasType(SecondaryKey(t, i, rows[p]), t.indices[i].ty)
  {
    hide HasType;
  }

  /** `del` on one index: the entry of the object's key goes. */
  ghost function DelIndex(t: Table, store: Store, i: nat, obj: Val): Store
    requires TableOk(t) && i < Active(t) && HasType(obj, t.objTy)
  {
    store - {SKey(t, i, SecondaryKey(t, i, obj))}
  }

  /** The object to delete has the key its stored form has, and nothing else has it. */
  ghost predicate Deletable(t: Table, rows: Rows, i: nat, obj: Val)
    requires i < |t.indices|
  {
    var p, k := t.primary(obj), SecondaryKey(t, i, obj);
    NotTaken(t, rows, i, k, p) && (p in rows ==> SecondaryKey(t, i, rows[p]) == k)
  }

  lemma {:induction false} DelIndexAgrees(t: Table, store: Store, rows: Rows, i: nat, obj: Val)
    requires TableOk(t) && i < Active(t) && RowsOk(t, rows) && HasType(obj, t.objTy) && IndexOk(t, store, rows, i)
    ensures RowsOk(t, rows - {t.primary(obj)})
    ensures IndexOk(t, DelIndex(t, store, i, obj), rows - {t.primary(obj)}, i) <==> Deletable(t, rows, i, obj)
  {
    hide Enc, HasType, SKey, EntryOk;
    var p, k, rows' := t.primary(obj), SecondaryKey(t, i, obj), rows - {t.primary(obj)};
    var store' := DelIndex(t, store, i, obj);
    if Deletable(t, rows, i, obj) {
      forall l | HasType(l, t.indices[i].ty) ensures EntryOk(t, store', rows', i, l) {
        DelEntry(t, store, rows, i, obj, l);
      }
    } else if !NotTaken(t, rows, i, k, p) {
      DelTakesEntry(t, store, rows, i, obj);
    } else {
      DelLeavesEntry(t, store, rows, i, obj);
    }
  }

  lemma {:induction false} DelEntry(t: Table, store: Store, rows: Rows, i: nat, obj: Val, l: Val)
    requires TableOk(t) && i < Active(t) && RowsOk(t, rows) && HasType(obj, t.objTy) && HasType(l, t.indices[i].ty)
    requires IndexOk(t, store, rows, i) && Deletable(t, rows, i, obj) && RowsOk(t, rows - {t.primary(obj)})
    ensures EntryOk(t, DelIndex(t, store, i, obj), rows - {t.primary(obj)}, i, l)
  {
    hide Enc, HasType, SKey, IndexOk, RowsOk, TableOk, SecondaryKey, EntryOk;
    ObjectTyped(t, i, obj);
    EntryOf(t, store, rows, i, l);
    if l == SecondaryKey(t, i, obj) {
      DelEntryOwn(t, store, rows, i, obj);
    } else {
      DelEntryOther(t, store, rows, i, obj, l);
    }
  }

  lemma {:induction false} DelEntryOwn(t: Table, store: Store, rows: Rows, i: nat, obj: Val)
    requires TableOk(t) && i < Active(t) && RowsOk(t, rows) && HasType(obj, t.objTy)
             && RowsOk(t, rows - {t.primary(obj)})
    requires HasType(SecondaryKey(t, i, obj), t.indices[i].ty) && Deletable(t, rows, i, obj)
    ensures EntryOk(t, DelIndex(t, store, i, obj), rows - {t.primary(obj)}, i, SecondaryKey(t, i, obj))
  {
    hide Enc, HasType, SKey, RowsOk, TableOk, SecondaryKey;
    var rows' := rows - {t.primary(obj)};
    forall q ensures !Holds(t, rows', i, SecondaryKey(t, i, obj), q) {
    }
  }

  lemma {:induction false} DelEntryOther(t: Table, store: Store, rows: Rows, i: nat, obj: Val, l: Val)
    requires TableOk(t) && i < Active(t) && RowsOk(t, rows) && HasType(obj, t.objTy)
             && RowsOk(t, rows - {t.primary(obj)})
    requires HasType(SecondaryKey(t, i, obj), t.indices[i].ty) && Deletable(t, rows, i, obj)
    requires HasType(l, t.indices[i].ty) && EntryOk(t, store, rows, i, l) && l != SecondaryKey(t, i, obj)
    ensures EntryOk(t, DelIndex(t, store, i, obj), rows - {t.primary(obj)}, i, l)
  {
    hide Enc, HasType, SKey, RowsOk, TableOk, SecondaryKey, Holds, Deletable, EntryOk;
    var rows' := rows - {t.primary(obj)};
    SKeyInjective(t, i, l, i, SecondaryKey(t, i, obj));
    forall q ensures Holds(t, rows', i, l, q) <==> Holds(t, rows, i, l, q) {
      OtherHolds(t, rows, i, obj, l, q);
    }
    SameEntry(t, store, DelIndex(t, store, i, obj), rows, rows', i, l);
  }

  /** An entry with the same value, for a key with the same holders. */
  lemma {:induction false} SameEntry(t: Table, s: Store, s': Store, rows: Rows, rows': Rows, i: nat, l: Val)
    requires TableOk(t) && i < Active(t) && HasType(l, t.indices[i].ty) && RowsOk(t, rows) && RowsOk(t, rows')
    requires SKey(t, i, l) in s' <==> SKey(t, i, l) in s
    requires SKey(t, i, l) in s ==> s'[SKey(t, i, l)] == s[SKey(t, i, l)]
    requires forall q :: Holds(t, rows', i, l, q) <==> Holds(t, rows, i, l, q)
    requires EntryOk(t, s, rows, i, l)
    ensures EntryOk(t, s', rows', i, l)
  {
    hide Enc, HasType, SKey, RowsOk, TableOk, Holds;
  }

  /** Who has a key is not changed by deleting an object with another one. */
  lemma {:induction false} OtherHolds(t: Table, rows: Rows, i: nat, obj: Val, l: Val, q: Val)
    requires i < |t.indices| && Deletable(t, rows, i, obj) && l != SecondaryKey(t, i, obj)
    ensures Holds(t, rows - {t.primary(obj)}, i, l, q) <==> Holds(t, rows, i, l, q)
  {
    hide SecondaryKey, NotTaken;
  }

  /** The entry of another object with the same key goes. */
  lemma {:induction false} DelTakesEntry(t: Table, store: Store, rows: Rows, i: nat, obj: Val)
    requires TableOk(t) && i < Active(t) && RowsOk(t, rows) && HasType(obj, t.objTy)
             && RowsOk(t, rows - {t.primary(obj)})
    requires !NotTaken(t, rows, i, SecondaryKey(t, i, obj), t.primary(obj))
    ensures !IndexOk(t, DelIndex(t, store, i, obj), rows - {t.primary(obj)}, i)
  {
    hide Enc, HasType, SKey;
    var k, rows' := SecondaryKey(t, i, obj), rows - {t.primary(obj)};
    var q :| q in rows && q != t.primary(obj) && SecondaryKey(t, i, rows[q]) == k;
    assert Holds(t, rows', i, k, q);
    assert !EntryOk(t, DelIndex(t, store, i, obj), rows', i, k);
  }

  /** An entry for a key that the object does not have any more stays behind. */
  lemma {:induction false} DelLeavesEntry(t: Table, store: Store, rows: Rows, i: nat, obj: Val)
    requires TableOk(t) && i < Active(t) && RowsOk(t, rows) && HasType(obj, t.objTy) && IndexOk(t, store, rows, i)
    requires t.primary(obj) in rows && SecondaryKey(t, i, rows[t.primary(obj)]) != SecondaryKey(t, i, obj)
    requires RowsOk(t, rows - {t.primary(obj)})
    ensures !IndexOk(t, DelIndex(t, store, i, obj), rows - {t.primary(obj)}, i)
  {
    hide Enc, HasType, SKey;
    var p := t.primary(obj);
    var was := SecondaryKey(t, i, rows[p]);
    var store', rows' := DelIndex(t, store, i, obj), rows - {p};
    assert HasType(was, t.indices[i].ty) && EntryOk(t, store, rows, i, was) && Holds(t, rows, i, was, p);
    SKeyInjective(t, i, was, i, SecondaryKey(t, i, obj));
    assert SKey(t, i, was) in store';
    forall q ensures !Holds(t, rows', i, was, q) {
      if Holds(t, rows', i, was, q) {
        assert Holds(t, rows, i, was, q);
        OneHolder(t, store, rows, i, was, p, q);
      }
    }
    assert !EntryOk(t, store', rows', i, was);
  }
}
