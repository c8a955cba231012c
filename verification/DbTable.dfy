/**
 `set`, `del` and the three forms of `get`, on the host's store.
 */
module DbTables {
  import opened Buffers
  import opened Codec
  import opened CodecCorrect
  import opened Packing
  import opened DbKeys
  import opened DbIndices
  import opened DbRuns

  /** Some object has the secondary key of `obj` in index `i`. */
  ghost predicate Found(t: Table, rows: Rows, i: nat, obj: Val)
    requires i < |t.indices|
  {
    exists p :: Holds(t, rows, i, SecondaryKey(t, i, obj), p)
  }

  class Db {
    const t: Table
    var store: Store
    ghost var rows: Rows

    /** The indices agree with the objects that a scan of the primary table would find. */
    ghost predicate Valid()
      reads this
    {
      Agrees(t, store, rows)
    }

    constructor (t: Table, store: Store, ghost rows: Rows)
      requires Agrees(t, store, rows)
      ensures Valid() && this.t == t && this.store == store && this.rows == rows
    {
      this.t, this.store, this.rows := t, store, rows;
    }

    /** `db_get`: nothing if there is no such key. */
    function DbGet(key: seq<Byte>): seq<Byte>
      reads this
    {
      if key in store then store[key] else []
    }

    method PackPrimary(p: Val) returns (key: seq<Byte>)
      requires TableOk(t) && HasType(p, t.primaryTy)
      ensures key == PKey(t, p)
    {
      hide Enc, HasType, TableOk;
      PrimaryKeyTyped(t, p);
      key := Pack(PrimaryKeyVal(t, p), PrimaryKeyTy(t));
    }

    method PackSecondary(i: nat, k: Val) returns (key: seq<Byte>)
      requires TableOk(t) && i < Active(t) && HasType(k, t.indices[i].ty)
      ensures key == SKey(t, i, k)
    {
      hide Enc, HasType, TableOk;
      SecondaryKeyTyped(t, i, k);
      key := Pack(SecondaryKeyVal(t, i, k), SecondaryKeyTy(t, i));
    }

    /** By primary key: found exactly if there is such an object. */
    method Get(p: Val) returns (found: bool, obj: Val)
      requires Valid() && HasType(p, t.primaryTy)
      ensures found <==> p in rows
      ensures found ==> obj == rows[p] && HasType(obj, t.objTy)
    {
      hide Enc, HasType, PKey, IndexOk, Dec;
      var key := PackPrimary(p);
      var value := DbGet(key);
      Stored(t, store, rows, p);
      if |value| == 0 {
        return false, Num(0);
      }
      var st;
      st, obj := Unpack(t.objTy, value);
      found := true;
    }

    /** By the primary key of an object. */
    method GetObject(obj: Val) returns (found: bool, obj': Val)
      requires Valid() && HasType(obj, t.objTy)
      ensures found <==> t.primary(obj) in rows
      ensures obj' == if found then rows[t.primary(obj)] else obj
    {
      hide Enc, HasType;
      obj' := obj;
      var stored;
      found, stored := Get(t.primary(obj));
      if found {
        obj' := stored;
      }
    }

    /**
     By the secondary key that `obj` has in the index called `byIndex`: found exactly when a scan of the
     primary table would find an object with that key, and then it is that object. Should several indices
     have the same name, the last of those with an entry counts.
     */
    method GetBy(byIndex: nat, obj: Val) returns (found: bool, obj': Val)
      requires Valid() && HasType(obj, t.objTy)
      ensures found <==>
                exists i :: 0 <= i < |t.indices| && i < 16 && t.indices[i].name == byIndex && Found(t, rows, i, obj)
      ensures found ==>
                exists i :: 0 <= i < |t.indices| && i < 16 && t.indices[i].name == byIndex && t.primary(obj') in rows
                    && rows[t.primary(obj')] == obj'
                    && SecondaryKey(t, i, obj') == SecondaryKey(t, i, obj)
                    && forall j :: i < j < |t.indices| && j < 16 && t.indices[j].name == byIndex ==>
                                     !Found(t, rows, j, obj)
      ensures !found ==> obj' == obj
    {
      hide Enc, HasType, SKey, PrimaryOk, IndexOk, TableOk, RowsOk, Found;
      obj' := obj;
      var primary := Num(0);
      var hasPrimary := false;
      ghost var at := 0;
      for i := 0 to Active(t)
        invariant !hasPrimary ==> forall j :: 0 <= j < i && t.indices[j].name == byIndex ==> !Found(t, rows, j, obj)
        invariant hasPrimary ==> 0 <= at < i && t.indices[at].name == byIndex && Found(t, rows, at, obj)
                                 && Holds(t, rows, at, SecondaryKey(t, at, obj), primary)
                                 && forall j :: at < j < i && t.indices[j].name == byIndex ==> !Found(t, rows, j, obj)
      {
        if t.indices[i].name == byIndex {
          var ok, p := FindEntry(i, obj);
          if ok {
            hasPrimary, primary, at := true, p, i;
          }
        }
      }
      if !hasPrimary {
        return false, obj;
      }
      RowTyped(t, rows, primary);
      var o;
      found, o := Get(primary);
      if found {
        obj' := o;
      }
    }

    /** Looks up one index. */
    method FindEntry(i: nat, obj: Val) returns (found: bool, p: Val)
      requires Valid() && HasType(obj, t.objTy) && i < Active(t)
      ensures found <==> Found(t, rows, i, obj)
      ensures found ==> Holds(t, rows, i, SecondaryKey(t, i, obj), p)
    {
      hide Enc, HasType, SKey, PrimaryOk, TableOk, RowsOk, IndexOk, Dec;
      ObjectTyped(t, i, obj);
      var k := SecondaryKey(t, i, obj);
      var key := PackSecondary(i, k);
      var value := DbGet(key);
      EntryOf(t, store, rows, i, k);
      Entry(t, store, rows, i, k);
      if |value| == 0 {
        return false, Num(0);
      }
      var st;
      st, p := Unpack(t.primaryTy, value);
      found := true;
    }

    /** The entry of the old key goes, if the key has changed, and that of the new one is written. */
    method WriteEntry(i: nat, obj: Val, hasOld: bool, oldObject: Val)
      requires TableOk(t) && RowsOk(t, rows) && HasType(obj, t.objTy) && i < Active(t)
      requires hasOld <==> t.primary(obj) in rows
      requires hasOld ==> oldObject == rows[t.primary(obj)] && HasType(oldObject, t.objTy)
      modifies this`store
      ensures store == SetIndex(t, old(store), rows, i, obj)
    {
      hide Enc, HasType, SKey, TableOk, RowsOk;
      ObjectTyped(t, i, obj);
      if hasOld && SecondaryKey(t, i, oldObject) != SecondaryKey(t, i, obj) {
        ObjectTyped(t, i, oldObject);
        var oldSecondary := PackSecondary(i, SecondaryKey(t, i, oldObject));
        store := store - {oldSecondary};
      }
      var secondary := PackSecondary(i, SecondaryKey(t, i, obj));
      var primary := Pack(t.primary(obj), t.primaryTy);
      store := store[secondary := primary];
    }

    method WriteEntries(obj: Val, hasOld: bool, oldObject: Val)
      requires TableOk(t) && RowsOk(t, rows) && HasType(obj, t.objTy)
      requires hasOld <==> t.primary(obj) in rows
      requires hasOld ==> oldObject == rows[t.primary(obj)] && HasType(oldObject, t.objTy)
      modifies this`store
      ensures store == StepIndices(t, old(store), rows, Op.Set(obj), Active(t))
    {
      hide Enc, HasType, SKey, TableOk, RowsOk, StepIndices, StepIndex, SetIndex;
      ghost var before := store;
      NoIndices(t, store, rows, Op.Set(obj));
      for i := 0 to Active(t)
        invariant store == StepIndices(t, before, rows, Op.Set(obj), i)
      {
        WriteEntry(i, obj, hasOld, oldObject);
        SetStep(t, before, rows, obj, i);
      }
    }

    /** Stores an object, and its primary key under its key in every index. */
    method Set(obj: Val)
      requires Valid() && HasType(obj, t.objTy)
      modifies this
      ensures store == After(t, old(store), old(rows), Op.Set(obj)) && rows == NewRows(t, old(rows), Op.Set(obj))
      ensures Valid() <==> Safe(t, old(rows), Op.Set(obj))
    {
      hide Enc, HasType, SKey, PKey, Agrees, Safe, TableOk, RowsOk, After, StepIndices, StepIndex;
      AgreesParts(t, store, rows);
      ghost var before, op := store, Op.Set(obj);
      ObjectKeyTyped(t, op);
      var p := t.primary(obj);
      var key := PackPrimary(p);
      var value := Pack(obj, t.objTy);
      var hasOld, oldObject := Get(p);
      WriteEntries(obj, hasOld, oldObject);
      store := store[key := value];
      rows := NewRows(t, rows, op);
      AfterOp(t, before, old(rows), op);
      UpdateAgrees(t, before, old(rows), op);
    }

    /** The entries of an object's keys go. */
    method DropEntries(obj: Val)
      requires TableOk(t) && RowsOk(t, rows) && HasType(obj, t.objTy)
      modifies this`store
      ensures store == StepIndices(t, old(store), rows, Op.Del(obj), Active(t))
    {
      hide Enc, HasType, SKey, TableOk, RowsOk, StepIndices, StepIndex;
      ghost var before := store;
      NoIndices(t, store, rows, Op.Del(obj));
      for i := 0 to Active(t)
        invariant store == StepIndices(t, before, rows, Op.Del(obj), i)
      {
        ObjectTyped(t, i, obj);
        var secondary := PackSecondary(i, SecondaryKey(t, i, obj));
        store := store - {secondary};
        DelStep(t, before, rows, obj, i);
      }
    }

    /** Removes an object, and the entries of its keys. */
    method Del(obj: Val)
      requires Valid() && HasType(obj, t.objTy)
      modifies this
      ensures store == After(t, old(store), old(rows), Op.Del(obj)) && rows == NewRows(t, old(rows), Op.Del(obj))
      ensures Valid() <==> Safe(t, old(rows), Op.Del(obj))
    {
      hide Enc, HasType, SKey, PKey, Agrees, Safe, TableOk, RowsOk, After, StepIndices, StepIndex;
      AgreesParts(t, store, rows);
      ghost var before, op := store, Op.Del(obj);
      ObjectKeyTyped(t, op);
      var key := PackPrimary(t.primary(obj));
      DropEntries(obj);
      store := store - {key};
      rows := NewRows(t, rows, op);
      AfterOp(t, before, old(rows), op);
      UpdateAgrees(t, before, old(rows), op);
    }
  }

  lemma {:induction false} SetStep(t: Table, store: Store, rows: Rows, obj: Val, i: nat)
    requires TableOk(t) && RowsOk(t, rows) && HasType(obj, t.objTy) && i < Active(t)
    ensures HasType(t.primary(obj), t.primaryTy)
    ensures StepIndices(t, store, rows, Op.Set(obj), i + 1)
            == SetIndex(t, StepIndices(t, store, rows, Op.Set(obj), i), rows, i, obj)
  {
    hide Enc, HasType, SKey;
    StepIndicesNext(t, store, rows, Op.Set(obj), i);
  }

  lemma {:induction false} DelStep(t: Table, store: Store, rows: Rows, obj: Val, i: nat)
    requires TableOk(t) && RowsOk(t, rows) && HasType(obj, t.objTy) && i < Active(t)
    ensures StepIndices(t, store, rows, Op.Del(obj), i + 1)
            == DelIndex(t, StepIndices(t, store, rows, Op.Del(obj), i), i, obj)
  {
    hide Enc, HasType, SKey;
    StepIndicesNext(t, store, rows, Op.Del(obj), i);
  }

  /** The object itself comes last. */
  lemma {:induction false} AfterOp(t: Table, store: Store, rows: Rows, op: Op)
    requires TableOk(t) && RowsOk(t, rows) && OpOk(t, op) && HasType(t.primary(op.obj), t.primaryTy)
    ensures After(t, store, rows, op) ==
            var store' := StepIndices(t, store, rows, op, Active(t));
            if op.Set? then store'[PKey(t, t.primary(op.obj)) := Enc(op.obj, t.objTy)]
                else store' - {PKey(t, t.primary(op.obj))}
  {
    hide Enc, HasType, PKey;
  }

  lemma {:induction false} AgreesParts(t: Table, store: Store, rows: Rows)
    requires Agrees(t, store, rows)
    ensures TableOk(t) && RowsOk(t, rows)
  {
  }

  lemma {:induction false} RowTyped(t: Table, rows: Rows, p: Val)
    requires RowsOk(t, rows) && p in rows
    ensures HasType(p, t.primaryTy) && HasType(rows[p], t.objTy) && t.primary(rows[p]) == p
  {
    hide HasType;
  }

  /** What is stored under a primary key, and what it unpacks to. */
  lemma {:induction false} Stored(t: Table, store: Store, rows: Rows, p: Val)
    requires Agrees(t, store, rows) && HasType(p, t.primaryTy)
    ensures p in rows <==> PKey(t, p) in store
    ensures p in rows ==>
              store[PKey(t, p)] != [] && Dec(t.objTy, store[PKey(t, p)]) == Ok(rows[p], []) && HasType(rows[p], t.objTy)
  {
    hide Enc, HasType, PKey, IndexOk, Dec;
    if p in rows {
      var v := rows[p];
      RoundTrip(v, t.objTy, []);
      assert Enc(v, t.objTy) + [] == Enc(v, t.objTy);
    }
  }

  /** What is stored under a secondary key, and what it unpacks to. */
  lemma {:induction false} Entry(t: Table, store: Store, rows: Rows, i: nat, k: Val)
    requires TableOk(t) && RowsOk(t, rows) && i < Active(t) && HasType(k, t.indices[i].ty)
             && EntryOk(t, store, rows, i, k)
    ensures SKey(t, i, k) in store <==> exists p :: Holds(t, rows, i, k, p)
    ensures SKey(t, i, k) in store ==>
      && store[SKey(t, i, k)] != []
      && exists p :: Holds(t, rows, i, k, p) && Dec(t.primaryTy, store[SKey(t, i, k)]) == Ok(p, [])
  {
    hide Enc, HasType, SKey, Dec;
    if SKey(t, i, k) in store {
      var p :| Holds(t, rows, i, k, p);
      RoundTrip(p, t.primaryTy, []);
      assert Enc(p, t.primaryTy) + [] == Enc(p, t.primaryTy);
    }
  }
}
