/**
 Whole updates and whole runs: the indices agree with the primary table after every run of safe updates,
 and an update that is not safe breaks the agreement at once.
 */
module DbRuns {
  import opened Buffers
  import opened Codec
  import opened DbKeys
  import opened DbIndices

  datatype Op = Set(obj: Val) | Del(obj: Val)

  ghost predicate OpOk(t: Table, op: Op) {
    HasType(op.obj, t.objTy)
  }

  function NewRows(t: Table, rows: Rows, op: Op): Rows {
    match op
    case Set(obj) => rows[t.primary(obj) := obj]
    case Del(obj) => rows - {t.primary(obj)}
  }

  ghost function StepIndex(t: Table, store: Store, rows: Rows, i: nat, op: Op): Store
    requires TableOk(t) && RowsOk(t, rows) && OpOk(t, op) && i < Active(t)
  {
    match op
    case Set(obj) => SetIndex(t, store, rows, i, obj)
    case Del(obj) => DelIndex(t, store, i, obj)
  }

  /** The first `n` indices have been updated. */
  ghost function StepIndices(t: Table, store: Store, rows: Rows, op: Op, n: nat): Store
    requires TableOk(t) && RowsOk(t, rows) && OpOk(t, op) && n <= Active(t)
  {
    if n == 0 then store else StepIndex(t, StepIndices(t, store, rows, op, n - 1), rows, n - 1, op)
  }

  /** The store after a whole update: the indices, then the object itself. */
  ghost function After(t: Table, store: Store, rows: Rows, op: Op): Store
    requires TableOk(t) && RowsOk(t, rows) && OpOk(t, op)
  {
    var store' := StepIndices(t, store, rows, op, Active(t));
    match op
    case Set(obj) => store'[PKey(t, t.primary(obj)) := Enc(obj, t.objTy)]
    case Del(obj) => store' - {PKey(t, t.primary(obj))}
  }

  ghost predicate SafeAt(t: Table, rows: Rows, i: nat, op: Op)
    requires i < |t.indices|
  {
    match op
    case Set(obj) => NotTaken(t, rows, i, SecondaryKey(t, i, obj), t.primary(obj))
    case Del(obj) => Deletable(t, rows, i, obj)
  }

  /** What a caller has to see to: `set` takes no key of another object, `del` is given the keys that are stored. */
  ghost predicate Safe(t: Table, rows: Rows, op: Op) {
    forall i :: 0 <= i < |t.indices| && i < 16 ==> SafeAt(t, rows, i, op)
  }

  // ----- what an update leaves alone -----

  ghost predicate SameAt(s: Store, s': Store, key: seq<Byte>) {
    (key in s <==> key in s') && (key in s ==> s'[key] == s[key])
  }

  ghost predicate IndexKey(t: Table, i: nat, key: seq<Byte>)
    requires TableOk(t) && i < Active(t)
  {
    exists k :: HasType(k, t.indices[i].ty) && key == SKey(t, i, k)
  }

  lemma {:induction false} NewRowsOk(t: Table, rows: Rows, op: Op)
    requires TableOk(t) && RowsOk(t, rows) && OpOk(t, op)
    ensures RowsOk(t, NewRows(t, rows, op))
  {
    hide HasType, Enc;
  }

  lemma {:induction false} StepIndexFrame(t: Table, store: Store, rows: Rows, i: nat, op: Op, key: seq<Byte>)
    requires TableOk(t) && RowsOk(t, rows) && OpOk(t, op) && i < Active(t) && !IndexKey(t, i, key)
    ensures SameAt(store, StepIndex(t, store, rows, i, op), key)
  {
    hide HasType, Enc, SKey, TableOk, RowsOk;
    var obj := op.obj;
    ObjectTyped(t, i, obj);
    assert key != SKey(t, i, SecondaryKey(t, i, obj));
    if t.primary(obj) in rows {
      RowKeyTyped(t, rows, i, t.primary(obj));
      assert key != SKey(t, i, SecondaryKey(t, i, rows[t.primary(obj)]));
    }
  }

  /** Updating indices `m` to `n` changes nothing but their keys. */
  lemma {:induction false} StepIndicesFrame(t: Table, store: Store, rows: Rows, op: Op, m: nat, n: nat, key: seq<Byte>)
    requires TableOk(t) && RowsOk(t, rows) && OpOk(t, op) && m <= n <= Active(t)
    requires forall i :: m <= i < n ==> !IndexKey(t, i, key)
    ensures SameAt(StepIndices(t, store, rows, op, m), StepIndices(t, store, rows, op, n), key)
    decreases n
  {
    hide HasType, Enc, SKey, IndexKey, StepIndex, TableOk, RowsOk;
    if m < n {
      StepIndicesFrame(t, store, rows, op, m, n - 1, key);
      StepIndexFrame(t, StepIndices(t, store, rows, op, n - 1), rows, n - 1, op, key);
    }
  }

  lemma {:induction false} SameIndex(t: Table, s: Store, s': Store, rows: Rows, i: nat)
    requires TableOk(t) && RowsOk(t, rows) && i < Active(t)
    requires forall k :: HasType(k, t.indices[i].ty) ==> SameAt(s, s', SKey(t, i, k))
    ensures IndexOk(t, s, rows, i) <==> IndexOk(t, s', rows, i)
  {
    hide HasType, Enc, SKey, RowsOk;
    forall k | HasType(k, t.indices[i].ty) ensures EntryOk(t, s, rows, i, k) <==> EntryOk(t, s', rows, i, k) {
      assert SameAt(s, s', SKey(t, i, k));
    }
  }

  lemma {:induction false} SamePrimary(t: Table, s: Store, s': Store, rows: Rows)
    requires TableOk(t) && RowsOk(t, rows)
    requires forall p :: HasType(p, t.primaryTy) ==> SameAt(s, s', PKey(t, p))
    ensures PrimaryOk(t, s, rows) <==> PrimaryOk(t, s', rows)
  {
    hide HasType, Enc, PKey;
    assert forall p :: HasType(p, t.primaryTy) ==> SameAt(s, s', PKey(t, p));
  }

  lemma {:induction false} NotIndexKey(t: Table, i: nat, k: Val, j: nat)
    requires TableOk(t) && i < Active(t) && HasType(k, t.indices[i].ty) && j < Active(t) && i != j
    ensures !IndexKey(t, j, SKey(t, i, k))
  {
    hide HasType, Enc, SKey;
    forall l | HasType(l, t.indices[j].ty) ensures SKey(t, i, k) != SKey(t, j, l) {
      SKeyInjective(t, i, k, j, l);
    }
  }

  lemma {:induction false} PKeyNotIndexKey(t: Table, p: Val, u: Table, j: nat)
    requires TableOk(t) && TableOk(u) && HasType(p, t.primaryTy) && j < Active(u)
    ensures !IndexKey(u, j, PKey(t, p))
  {
    hide HasType, Enc, SKey, PKey;
    forall l | HasType(l, u.indices[j].ty) ensures PKey(t, p) != SKey(u, j, l) {
      PKeyNotSKey(t, p, u, j, l);
    }
  }

  // ----- one update -----

  /** Index `i` is decided by its own update. */
  lemma {:induction false} IndexDecided(t: Table, store: Store, rows: Rows, op: Op, i: nat)
    requires TableOk(t) && RowsOk(t, rows) && OpOk(t, op) && i < Active(t) && IndexOk(t, store, rows, i)
    requires RowsOk(t, NewRows(t, rows, op))
    ensures IndexOk(t, After(t, store, rows, op), NewRows(t, rows, op), i) <==> SafeAt(t, rows, i, op)
  {
    hide HasType, Enc, SKey, PKey, IndexKey, IndexOk, RowsOk, StepIndices, TableOk, Deletable, NotTaken, SetIndex,
         DelIndex;
    var n, rows' := Active(t), NewRows(t, rows, op);
    var before, after, all := StepIndices(t, store, rows, op, i), StepIndices(t, store, rows, op, i + 1),
        StepIndices(t, store, rows, op, n);
    ObjectKeyTyped(t, op);
    forall k | HasType(k, t.indices[i].ty)
      ensures SameAt(store, before, SKey(t, i, k)) && SameAt(after, After(t, store, rows, op), SKey(t, i, k))
    {
      EntryDecided(t, store, rows, op, i, k);
    }
    SameIndex(t, store, before, rows, i);
    SameIndex(t, after, After(t, store, rows, op), rows', i);
    StepIndicesNext(t, store, rows, op, i);
    match op
    case Set(obj) => SetIndexAgrees(t, before, rows, i, obj);
    case Del(obj) => DelIndexAgrees(t, before, rows, i, obj);
  }

  lemma {:induction false} ObjectKeyTyped(t: Table, op: Op)
    requires TableOk(t) && OpOk(t, op)
    ensures HasType(t.primary(op.obj), t.primaryTy)
  {
    hide HasType, Enc;
  }

  lemma {:induction false} StepIndicesNext(t: Table, store: Store, rows: Rows, op: Op, i: nat)
    requires TableOk(t) && RowsOk(t, rows) && OpOk(t, op) && i < Active(t)
    ensures StepIndices(t, store, rows, op, i + 1) == StepIndex(t, StepIndices(t, store, rows, op, i), rows, i, op)
  {
  }

  lemma {:induction false} EntryDecided(t: Table, store: Store, rows: Rows, op: Op, i: nat, k: Val)
    requires TableOk(t) && RowsOk(t, rows) && OpOk(t, op) && i < Active(t) && HasType(k, t.indices[i].ty)
    ensures SameAt(store, StepIndices(t, store, rows, op, i), SKey(t, i, k))
    ensures SameAt(StepIndices(t, store, rows, op, i + 1), After(t, store, rows, op), SKey(t, i, k))
  {
    hide HasType, Enc, SKey, PKey, IndexKey, RowsOk, StepIndices, TableOk;
    forall j | 0 <= j < Active(t) && j != i ensures !IndexKey(t, j, SKey(t, i, k)) {
      NotIndexKey(t, i, k, j);
    }
    StepIndicesFrame(t, store, rows, op, 0, i, SKey(t, i, k));
    StepIndicesFrame(t, store, rows, op, i + 1, Active(t), SKey(t, i, k));
    NoIndices(t, store, rows, op);
    ObjectKeyTyped(t, op);
    PKeyNotSKey(t, t.primary(op.obj), t, i, k);
  }

  lemma {:induction false} NoIndices(t: Table, store: Store, rows: Rows, op: Op)
    requires TableOk(t) && RowsOk(t, rows) && OpOk(t, op)
    ensures StepIndices(t, store, rows, op, 0) == store
  {
  }

  /** The primary table follows every update, safe or not. */
  lemma {:induction false} PrimaryFollows(t: Table, store: Store, rows: Rows, op: Op)
    requires TableOk(t) && RowsOk(t, rows) && OpOk(t, op) && PrimaryOk(t, store, rows)
             && RowsOk(t, NewRows(t, rows, op))
    ensures PrimaryOk(t, After(t, store, rows, op), NewRows(t, rows, op))
  {
    hide HasType, Enc, PKey, IndexKey, StepIndices, RowsOk, TableOk;
    ObjectKeyTyped(t, op);
    forall p | HasType(p, t.primaryTy)
      ensures SameAt(store, StepIndices(t, store, rows, op, Active(t)), PKey(t, p))
      ensures PKey(t, p) == PKey(t, t.primary(op.obj)) <==> p == t.primary(op.obj)
    {
      forall j | 0 <= j < Active(t) ensures !IndexKey(t, j, PKey(t, p)) {
        PKeyNotIndexKey(t, p, t, j);
      }
      StepIndicesFrame(t, store, rows, op, 0, Active(t), PKey(t, p));
      NoIndices(t, store, rows, op);
      PKeyInjective(t, p, t.primary(op.obj));
    }
  }

  /** An update keeps all indices in agreement with the primary table exactly when it is safe. */
  lemma {:induction false} UpdateAgrees(t: Table, store: Store, rows: Rows, op: Op)
    requires Agrees(t, store, rows) && OpOk(t, op)
    ensures Agrees(t, After(t, store, rows, op), NewRows(t, rows, op)) <==> Safe(t, rows, op)
  {
    hide HasType, Enc, PrimaryOk, IndexOk, RowsOk, TableOk, After, SafeAt;
    NewRowsOk(t, rows, op);
    PrimaryFollows(t, store, rows, op);
    forall i | 0 <= i < Active(t)
      ensures IndexOk(t, After(t, store, rows, op), NewRows(t, rows, op), i) <==> SafeAt(t, rows, i, op)
    {
      IndexDecided(t, store, rows, op, i);
    }
  }

  // ----- runs -----

  ghost predicate SafeRun(t: Table, rows: Rows, ops: seq<Op>)
    decreases |ops|
  {
    ops == [] || (OpOk(t, ops[0]) && Safe(t, rows, ops[0]) && SafeRun(t, NewRows(t, rows, ops[0]), ops[1..]))
  }

  function RowsAfter(t: Table, rows: Rows, ops: seq<Op>): Rows
    decreases |ops|
  {
    if ops == [] then rows else RowsAfter(t, NewRows(t, rows, ops[0]), ops[1..])
  }

  ghost function StoreAfter(t: Table, store: Store, rows: Rows, ops: seq<Op>): Store
    requires TableOk(t) && RowsOk(t, rows) && forall i :: 0 <= i < |ops| ==> OpOk(t, ops[i])
    decreases |ops|
  {
    if ops == [] then store
    else
      NewRowsOk(t, rows, ops[0]);
      StoreAfter(t, After(t, store, rows, ops[0]), NewRows(t, rows, ops[0]), ops[1..])
  }

  lemma {:induction false} SafeOps(t: Table, rows: Rows, ops: seq<Op>)
    requires SafeRun(t, rows, ops)
    ensures forall i :: 0 <= i < |ops| ==> OpOk(t, ops[i])
    decreases |ops|
  {
    hide OpOk, Safe;
    if ops != [] {
      SafeOps(t, NewRows(t, rows, ops[0]), ops[1..]);
      assert forall i :: 0 < i < |ops| ==> ops[i] == ops[1..][i - 1];
    }
  }

  /** After every run of safe updates the indices agree with the primary table. */
  lemma {:induction false} RunAgrees(t: Table, store: Store, rows: Rows, ops: seq<Op>)
    requires Agrees(t, store, rows) && SafeRun(t, rows, ops)
    ensures forall i :: 0 <= i < |ops| ==> OpOk(t, ops[i])
    ensures Agrees(t, StoreAfter(t, store, rows, ops), RowsAfter(t, rows, ops))
    decreases |ops|
  {
    hide OpOk, Safe, After, PrimaryOk, IndexOk, TableOk, RowsOk;
    SafeOps(t, rows, ops);
    if ops != [] {
      UpdateAgrees(t, store, rows, ops[0]);
      RunAgrees(t, After(t, store, rows, ops[0]), NewRows(t, rows, ops[0]), ops[1..]);
    }
  }

  lemma {:induction false} EmptyAgrees(t: Table)
    requires TableOk(t)
    ensures Agrees(t, map[], map[])
  {
    hide HasType, Enc, SKey, PKey, TableOk;
  }

  /** A table whose name differs above the low four bits is not touched. */
  lemma {:induction false} OtherTableKept(t: Table, store: Store, rows: Rows, op: Op, u: Table, rowsU: Rows)
    requires TableOk(t) && RowsOk(t, rows) && OpOk(t, op) && Agrees(u, store, rowsU) && t.name / 16 != u.name / 16
    ensures Agrees(u, After(t, store, rows, op), rowsU)
  {
    hide HasType, Enc, SKey, PKey, IndexKey, StepIndices, RowsOk, TableOk, IndexOk, PrimaryOk, After;
    var s' := After(t, store, rows, op);
    forall p | HasType(p, u.primaryTy) ensures SameAt(store, s', PKey(u, p)) {
      forall j | 0 <= j < Active(t) ensures !IndexKey(t, j, PKey(u, p)) {
        PKeyNotIndexKey(u, p, t, j);
      }
      ObjectKeyTyped(t, op);
      TablesApart(t, u, t.primary(op.obj), p);
      AfterFrame(t, store, rows, op, PKey(u, p));
    }
    SamePrimary(u, store, s', rowsU);
    forall i | 0 <= i < Active(u) ensures IndexOk(u, s', rowsU, i) {
      forall k | HasType(k, u.indices[i].ty) ensures SameAt(store, s', SKey(u, i, k)) {
        forall j | 0 <= j < Active(t) ensures !IndexKey(t, j, SKey(u, i, k)) {
          OtherIndexKey(t, j, u, i, k);
        }
        ObjectKeyTyped(t, op);
        PKeyNotSKey(t, t.primary(op.obj), u, i, k);
        AfterFrame(t, store, rows, op, SKey(u, i, k));
      }
      SameIndex(u, store, s', rowsU, i);
    }
  }

  lemma {:induction false} OtherIndexKey(t: Table, j: nat, u: Table, i: nat, k: Val)
    requires TableOk(t) && TableOk(u) && j < Active(t) && i < Active(u) && HasType(k, u.indices[i].ty)
             && t.name / 16 != u.name / 16
    ensures !IndexKey(t, j, SKey(u, i, k))
  {
    hide HasType, Enc, SKey;
    forall l | HasType(l, t.indices[j].ty) ensures SKey(u, i, k) != SKey(t, j, l) {
      IndicesApart(t, u, j, l, i, k);
    }
  }

  lemma {:induction false} AfterFrame(t: Table, store: Store, rows: Rows, op: Op, key: seq<Byte>)
    requires TableOk(t) && RowsOk(t, rows) && OpOk(t, op) && HasType(t.primary(op.obj), t.primaryTy)
    requires (forall i :: 0 <= i < Active(t) ==> !IndexKey(t, i, key)) && key != PKey(t, t.primary(op.obj))
    ensures SameAt(store, After(t, store, rows, op), key)
  {
    hide HasType, Enc, PKey, IndexKey, StepIndices, RowsOk, TableOk;
    StepIndicesFrame(t, store, rows, op, 0, Active(t), key);
    NoIndices(t, store, rows, op);
  }
}
