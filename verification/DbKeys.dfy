/**
 Tables with secondary indices over a key-value store: the keys that are used, and why they never meet.
 */
module DbKeys {
  import opened Buffers
  import opened Bits
  import opened Codec
  import opened CodecCorrect

  const SECONDARY_KEY_PREFIX: nat := 0x0F

  datatype Index = Index(name: nat, ty: Ty, extract: Val -> Val)

  /** A table: its name, the types of its objects and of their primary keys, and its secondary indices. */
  datatype Table = Table(name: nat, objTy: Ty, primaryTy: Ty, primary: Val -> Val, indices: seq<Index>)

  type Store = map<seq<Byte>, seq<Byte>>

  /** Indices are zipped with sixteen numbers; any more of them are dropped. */
  function Active(t: Table): nat {
    if |t.indices| <= 16 then |t.indices| else 16
  }

  /** What a table definition has to meet: extractors give keys of their type, and nothing packs to no bytes at all. */
  ghost predicate TableOk(t: Table) {
    && t.name < Pow2(64) && t.name != SECONDARY_KEY_PREFIX
    && (forall v :: HasType(v, t.objTy) ==> HasType(t.primary(v), t.primaryTy) && Enc(v, t.objTy) != [])
    && (forall v :: HasType(v, t.primaryTy) ==> Enc(v, t.primaryTy) != [])
    && (forall i, v :: 0 <= i < |t.indices| && i < 16 && HasType(v, t.objTy) ==>
          HasType(t.indices[i].extract(v), t.indices[i].ty))
  }

  /** `(TableName & ~0xF) | (Number & 0xF)` */
  function IndexTableName(t: Table, i: nat): (n: nat)
    requires i < 16
    ensures n == t.name / 16 * 16 + i
  {
    assert t.name - t.name % 16 == t.name / 16 * 16;
    NibbleApart(t.name / 16, i);
    Or(t.name - t.name % 16, i)
  }

  lemma {:induction false} NibbleApart(a: nat, i: nat)
    requires i < 16
    ensures Or(a * 16, i) == a * 16 + i
  {
    assert Pow2(4) == 16;
    OrApart(i, a * 16, 4);
  }

  function PrimaryKeyVal(t: Table, p: Val): Val {
    List([Num(t.name), p])
  }

  function PrimaryKeyTy(t: Table): Ty {
    Tuple([UInt(8), t.primaryTy])
  }

  function SecondaryKeyVal(t: Table, i: nat, k: Val): Val
    requires i < 16
  {
    List([Num(SECONDARY_KEY_PREFIX), Num(IndexTableName(t, i)), k])
  }

  function SecondaryKeyTy(t: Table, i: nat): Ty
    requires i < |t.indices|
  {
    Tuple([UInt(8), UInt(8), t.indices[i].ty])
  }

  lemma {:induction false} Word64()
    ensures Pow2(8 * 8) == Pow2(64) == 0x1_0000_0000_0000_0000
  {
    hide Pow2;
    LargePowers();
    Pow2Add(32, 32);
  }

  lemma {:induction false} PrimaryKeyTyped(t: Table, p: Val)
    requires TableOk(t) && HasType(p, t.primaryTy)
    ensures HasType(PrimaryKeyVal(t, p), PrimaryKeyTy(t))
    ensures Enc(PrimaryKeyVal(t, p), PrimaryKeyTy(t)) == Bytes(t.name, 8) + Enc(p, t.primaryTy)
  {
    hide Enc, HasType, EncFields, HaveTypes, Bytes;
    Number64(t.name);
    FieldsOne(p, t.primaryTy);
    FieldsCons(Num(t.name), UInt(8), [p], [t.primaryTy]);
    assert [Num(t.name)] + [p] == [Num(t.name), p] && [UInt(8)] + [t.primaryTy] == [UInt(8), t.primaryTy];
    TupleOf([Num(t.name), p], [UInt(8), t.primaryTy]);
  }

  lemma {:induction false} Number64(n: nat)
    requires n < Pow2(64)
    ensures HasType(Num(n), UInt(8)) && Enc(Num(n), UInt(8)) == Bytes(n, 8)
  {
    hide Pow2;
    Word64();
  }

  lemma {:induction false} FieldsOne(v: Val, t: Ty)
    requires HasType(v, t)
    ensures HaveTypes([v], [t]) && EncFields([v], [t]) == Enc(v, t)
  {
    hide HasType, Enc;
    FieldsCons(v, t, [], []);
    assert [v] + [] == [v] && [t] + [] == [t] && Enc(v, t) + [] == Enc(v, t);
  }

  lemma {:induction false} FieldsCons(v: Val, t: Ty, vs: seq<Val>, ts: seq<Ty>)
    requires HasType(v, t) && HaveTypes(vs, ts)
    ensures HaveTypes([v] + vs, [t] + ts) && EncFields([v] + vs, [t] + ts) == Enc(v, t) + EncFields(vs, ts)
  {
    hide HasType, Enc;
    assert ([v] + vs)[1..] == vs && ([t] + ts)[1..] == ts;
  }

  lemma {:induction false} TupleOf(vs: seq<Val>, ts: seq<Ty>)
    requires HaveTypes(vs, ts)
    ensures HasType(List(vs), Tuple(ts)) && Enc(List(vs), Tuple(ts)) == EncFields(vs, ts)
  {
  }

  lemma {:induction false} SecondaryKeyTyped(t: Table, i: nat, k: Val)
    requires TableOk(t) && i < Active(t) && HasType(k, t.indices[i].ty)
    ensures HasType(SecondaryKeyVal(t, i, k), SecondaryKeyTy(t, i))
    ensures Enc(SecondaryKeyVal(t, i, k), SecondaryKeyTy(t, i))
            == Bytes(SECONDARY_KEY_PREFIX, 8) + (Bytes(IndexTableName(t, i), 8) + Enc(k, t.indices[i].ty))
  {
    hide Enc, HasType, EncFields, HaveTypes, Bytes, IndexTableName, Pow2;
    var n, ty := IndexTableName(t, i), t.indices[i].ty;
    IndexNameBounded(t, i);
    Word64();
    Number64(SECONDARY_KEY_PREFIX);
    Number64(n);
    FieldsOne(k, ty);
    FieldsCons(Num(n), UInt(8), [k], [ty]);
    assert [Num(n)] + [k] == [Num(n), k] && [UInt(8)] + [ty] == [UInt(8), ty];
    var vs, ts := [Num(SECONDARY_KEY_PREFIX), Num(n), k], [UInt(8), UInt(8), ty];
    FieldsCons(Num(SECONDARY_KEY_PREFIX), UInt(8), [Num(n), k], [UInt(8), ty]);
    assert [Num(SECONDARY_KEY_PREFIX)] + [Num(n), k] == vs && [UInt(8)] + [UInt(8), ty] == ts;
    TupleOf(vs, ts);
  }

  /** The key an object is stored under. */
  ghost function PKey(t: Table, p: Val): (key: seq<Byte>)
    requires TableOk(t) && HasType(p, t.primaryTy)
    ensures key == Bytes(t.name, 8) + Enc(p, t.primaryTy)
  {
    PrimaryKeyTyped(t, p);
    Enc(PrimaryKeyVal(t, p), PrimaryKeyTy(t))
  }

  /** The key under which index `i` stores the primary key of the object with secondary key `k`. */
  ghost function SKey(t: Table, i: nat, k: Val): (key: seq<Byte>)
    requires TableOk(t) && i < Active(t) && HasType(k, t.indices[i].ty)
    ensures key == Bytes(SECONDARY_KEY_PREFIX, 8) + (Bytes(IndexTableName(t, i), 8) + Enc(k, t.indices[i].ty))
  {
    SecondaryKeyTyped(t, i, k);
    Enc(SecondaryKeyVal(t, i, k), SecondaryKeyTy(t, i))
  }

  // ----- keys never meet -----

  lemma {:induction false} BytesInjective(m: nat, n: nat, a: seq<Byte>, b: seq<Byte>)
    requires m < Pow2(64) && n < Pow2(64) && Bytes(m, 8) + a == Bytes(n, 8) + b
    ensures m == n && a == b
  {
    hide Pow2, Bytes;
    Word64();
    Cat(Bytes(m, 8), [], a);
    Cat(Bytes(n, 8), [], b);
    BytesBack(m, 8);
    BytesBack(n, 8);
  }

  lemma {:induction false} IndexNameBounded(t: Table, i: nat)
    requires t.name < Pow2(64) && i < 16
    ensures IndexTableName(t, i) < Pow2(64)
  {
    Word64();
  }

  /** The keys as they are stored: table name and primary key; 15, name of the index and secondary key. */
  lemma {:induction false} KeyLayout(t: Table, p: Val, i: nat, k: Val)
    requires TableOk(t) && HasType(p, t.primaryTy) && i < Active(t) && HasType(k, t.indices[i].ty)
    ensures PKey(t, p) == Bytes(t.name, 8) + Enc(p, t.primaryTy)
    ensures SKey(t, i, k) == Bytes(0x0F, 8) + (Bytes(t.name / 16 * 16 + i, 8) + Enc(k, t.indices[i].ty))
  {
    hide Enc, HasType, Bytes;
    PrimaryKeyTyped(t, p);
    SecondaryKeyTyped(t, i, k);
  }

  lemma {:induction false} SKeyInjective(t: Table, i: nat, k: Val, j: nat, l: Val)
    requires TableOk(t) && i < Active(t) && j < Active(t) && HasType(k, t.indices[i].ty) && HasType(l, t.indices[j].ty)
    ensures SKey(t, i, k) == SKey(t, j, l) <==> i == j && k == l
  {
    hide Pow2, Bytes, IndexTableName, Enc, HasType, SKey;
    Word64();
    IndexNameBounded(t, i);
    IndexNameBounded(t, j);
    if SKey(t, i, k) == SKey(t, j, l) {
      BytesInjective(SECONDARY_KEY_PREFIX, SECONDARY_KEY_PREFIX,
                     Bytes(IndexTableName(t, i), 8) + Enc(k, t.indices[i].ty),
                     Bytes(IndexTableName(t, j), 8) + Enc(l, t.indices[j].ty));
      BytesInjective(IndexTableName(t, i), IndexTableName(t, j), Enc(k, t.indices[i].ty), Enc(l, t.indices[j].ty));
      Injective(k, l, t.indices[i].ty);
    }
  }

  lemma {:induction false} PKeyInjective(t: Table, p: Val, q: Val)
    requires TableOk(t) && HasType(p, t.primaryTy) && HasType(q, t.primaryTy)
    ensures PKey(t, p) == PKey(t, q) <==> p == q
  {
    hide Pow2, Bytes, Enc, HasType, PKey;
    if PKey(t, p) == PKey(t, q) {
      BytesInjective(t.name, t.name, Enc(p, t.primaryTy), Enc(q, t.primaryTy));
      Injective(p, q, t.primaryTy);
    }
  }

  /** Two tables, or one and the same, whose primary keys and index entries are kept apart by their prefixes. */
  lemma {:induction false} PKeyNotSKey(t: Table, p: Val, u: Table, i: nat, k: Val)
    requires TableOk(t) && HasType(p, t.primaryTy) && TableOk(u) && i < Active(u) && HasType(k, u.indices[i].ty)
    ensures PKey(t, p) != SKey(u, i, k)
  {
    hide Pow2, Bytes, Enc, HasType, IndexTableName, PKey, SKey;
    Word64();
    if PKey(t, p) == SKey(u, i, k) {
      BytesInjective(t.name, SECONDARY_KEY_PREFIX, Enc(p, t.primaryTy),
          Bytes(IndexTableName(u, i), 8) + Enc(k, u.indices[i].ty));
    }
  }

  /** Tables whose names differ above the low four bits share no key. */
  lemma {:induction false} TablesApart(t: Table, u: Table, p: Val, q: Val)
    requires TableOk(t) && TableOk(u) && t.name / 16 != u.name / 16 && HasType(p, t.primaryTy)
             && HasType(q, u.primaryTy)
    ensures PKey(t, p) != PKey(u, q)
  {
    hide Pow2, Bytes, Enc, HasType, PKey;
    if PKey(t, p) == PKey(u, q) {
      BytesInjective(t.name, u.name, Enc(p, t.primaryTy), Enc(q, u.primaryTy));
    }
  }

  lemma {:induction false} IndicesApart(t: Table, u: Table, i: nat, k: Val, j: nat, l: Val)
    requires TableOk(t) && TableOk(u) && t.name / 16 != u.name / 16
    requires i < Active(t) && HasType(k, t.indices[i].ty) && j < Active(u) && HasType(l, u.indices[j].ty)
    ensures SKey(t, i, k) != SKey(u, j, l)
  {
    hide Pow2, Bytes, Enc, HasType, SKey;
    Word64();
    IndexNameBounded(t, i);
    IndexNameBounded(u, j);
    if SKey(t, i, k) == SKey(u, j, l) {
      BytesInjective(SECONDARY_KEY_PREFIX, SECONDARY_KEY_PREFIX,
                     Bytes(IndexTableName(t, i), 8) + Enc(k, t.indices[i].ty),
                     Bytes(IndexTableName(u, j), 8) + Enc(l, u.indices[j].ty));
      BytesInjective(IndexTableName(t, i), IndexTableName(u, j), Enc(k, t.indices[i].ty), Enc(l, u.indices[j].ty));
    }
  }
}
