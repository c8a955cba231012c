/**
 The two ways in which an update breaks the indices, on a table of pairs of numbers: the first number is
 the primary key, the second one the only secondary key.
 */
module DbFailures {
  import opened Bits
  import opened Codec
  import opened DbKeys
  import opened DbIndices
  import opened DbRuns
  import opened DbTables

  function Field(v: Val, i: nat): Val {
    if v.List? && i < |v.items| then v.items[i] else Num(0)
  }

  function Pairs(): Table {
    Table(16, Tuple([UInt(8), UInt(8)]), UInt(8), v => Field(v, 0), [Index(1, UInt(8), v => Field(v, 1))])
  }

  function Pair(a: nat, b: nat): Val {
    List([Num(a), Num(b)])
  }

  lemma {:induction false} PairTyped(a: nat, b: nat)
    requires a < 256 && b < 256
    ensures HasType(Pair(a, b), Pairs().objTy)
  {
    Word64();
    Number64(a);
    Number64(b);
    FieldsOne(Num(b), UInt(8));
    FieldsCons(Num(a), UInt(8), [Num(b)], [UInt(8)]);
    assert [Num(a)] + [Num(b)] == [Num(a), Num(b)] && [UInt(8)] + [UInt(8)] == [UInt(8), UInt(8)];
    TupleOf([Num(a), Num(b)], [UInt(8), UInt(8)]);
  }

  lemma {:induction false} PairsOk()
    ensures TableOk(Pairs())
  {
    hide HasType, Enc, Pow2;
    var t := Pairs();
    Word64();
    forall v | HasType(v, t.objTy)
      ensures HasType(Field(v, 0), UInt(8)) && HasType(Field(v, 1), UInt(8)) && Enc(v, t.objTy) != []
    {
      PairParts(v);
    }
    forall v | HasType(v, UInt(8)) ensures Enc(v, UInt(8)) != [] {
      NumberBytes(v);
    }
  }

  lemma {:induction false} NumberBytes(v: Val)
    requires HasType(v, UInt(8))
    ensures v.Num? && |Enc(v, UInt(8))| == 8
  {
    hide Pow2;
  }

  lemma {:induction false} PairParts(v: Val)
    requires HasType(v, Pairs().objTy)
    ensures HasType(Field(v, 0), UInt(8)) && HasType(Field(v, 1), UInt(8)) && Enc(v, Pairs().objTy) != []
  {
    hide Pow2, Bytes;
    NumberBytes(v.items[0]);
  }

  /** A second object with the secondary key of the first one. */
  method SharedKeyBreaks() returns (db: Db)
    ensures db.t == Pairs() && db.rows == map[Num(1) := Pair(1, 5), Num(2) := Pair(2, 5)] && !db.Valid()
  {
    hide TableOk, HasType, Agrees, After;
    PairsOk();
    EmptyAgrees(Pairs());
    db := new Db(Pairs(), map[], map[]);
    PairTyped(1, 5);
    db.Set(Pair(1, 5));
    PairTyped(2, 5);
    assert Num(1) in db.rows && SecondaryKey(Pairs(), 0, db.rows[Num(1)]) == SecondaryKey(Pairs(), 0, Pair(2, 5));
    assert !SafeAt(Pairs(), db.rows, 0, Op.Set(Pair(2, 5)));
    db.Set(Pair(2, 5));
  }

  /** An object is deleted under a secondary key that is not the stored one. */
  method ChangedKeyBreaks() returns (db: Db)
    ensures db.t == Pairs() && db.rows == map[] && !db.Valid()
  {
    hide TableOk, HasType, Agrees, After;
    PairsOk();
    EmptyAgrees(Pairs());
    db := new Db(Pairs(), map[], map[]);
    PairTyped(1, 5);
    db.Set(Pair(1, 5));
    PairTyped(1, 6);
    assert !SafeAt(Pairs(), db.rows, 0, Op.Del(Pair(1, 6)));
    db.Del(Pair(1, 6));
  }
}
