/**
 The view of one block through the header in front of its payload pointer (class `buffer_ptr`).
 */
module BufferPtr {
  import opened HeapBlocks

  function WithSize(w: Word, size: nat): (r: Word)
    requires size < ADDRESS_SPACE
    ensures size < SIZE_LIMIT ==> r == Header(Block(size, HeaderIsAlloc(w)))
    ensures HeaderIsAlloc(r) <==> HeaderIsAlloc(w) || size >= SIZE_LIMIT
  {
    4 * size + if HeaderIsAlloc(w) && size < SIZE_LIMIT then ALLOC_MASK else 0
  }

  function MarkAlloc(w: Word): (r: Word)
    ensures HeaderIsAlloc(r) && HeaderSize(r) == HeaderSize(w)
  {
    if HeaderIsAlloc(w) then w else w + ALLOC_MASK
  }

  function MarkFree(w: Word): (r: Word)
    ensures !HeaderIsAlloc(r) && HeaderSize(r) == HeaderSize(w)
  {
    w % ALLOC_MASK
  }

  lemma {:induction false} FreeHeader(w: Word, size: nat)
    requires size < SIZE_LIMIT
    ensures MarkFree(WithSize(w, size)) == Header(Block(size, false))
  {
  }

  lemma {:induction false} AllocHeader(b: Block)
    requires b.size < SIZE_LIMIT
    ensures MarkAlloc(Header(b)) == Header(Block(b.size, true))
  {
  }

  /** The merge writes the header of the block and, if it leaves a remainder, the header of that. */
  ghost predicate MergeWrote(m: seq<Word>, m': seq<Word>, at: nat, b: Block, rest: seq<Block>, needed: nat) {
    && |m'| == |m|
    && (forall i :: 0 <= i < |m| && i != at && i != at + 1 + needed ==> m'[i] == m[i])
    && (Gathered(b.size, rest, needed) <= needed && at + 1 + needed < |m| ==> m'[at + 1 + needed] == m[at + 1 + needed])
  }

  /**
   Grow or cut the block at `ptr` to `needed` words, taking the free blocks after it. With
   `allOrNothing` nothing is written unless enough is found.
   */
  method MergeContiguous(mem: array<Word>, ptr: nat, heapEnd: nat, needed: nat, allOrNothing: bool,
                         ghost b: Block, ghost rest: seq<Block>)
    returns (ok: bool)
    requires 1 <= ptr && Tiles(mem[..], ptr - 1, [b] + rest)
    requires ptr - 1 + Total([b] + rest) == heapEnd <= mem.Length
    requires Total([b] + rest) < SIZE_LIMIT
    modifies mem
    ensures ok <==> Gathered(b.size, rest, needed) >= needed
    ensures allOrNothing && !ok ==> mem[..] == old(mem[..])
    ensures !(allOrNothing && !ok) ==>
              Tiles(mem[..], ptr - 1, Merged(b, rest, needed) + rest[Absorbed(b.size, rest, needed)..])
    ensures ok ==> needed < SIZE_LIMIT && mem[ptr - 1] == Header(Block(needed, b.alloc))
    ensures MergeWrote(old(mem[..]), mem[..], ptr - 1, b, rest, needed)
  {
    hide Tiles, Total, Gathered, Merged, Header, HeaderSize, HeaderIsAlloc, WithSize, MarkFree;
    ghost var m := mem[..];
    FirstHeader(m, ptr - 1, b, rest);
    GatheredBounded(b.size, rest, needed);
    if allOrNothing && heapEnd - ptr < needed {
      return false;
    }
    var possible := GatherFree(mem, ptr, heapEnd, needed, b, rest);
    if allOrNothing && possible < needed {
      return false;
    }
    var newSize := if possible < needed then possible else needed;
    mem[ptr - 1] := WithSize(mem[ptr - 1], newSize);
    if possible > needed {
      var freed := possible - needed - 1;
      FreeHeader(mem[ptr + needed], freed);
      mem[ptr + needed] := MarkFree(WithSize(mem[ptr + needed], freed));
    }
    ok := newSize == needed;
    MergedTiles(m, mem[..], ptr - 1, b, rest, needed);
  }

  /** The walk over the headers after the block at `ptr`. */
  method GatherFree(mem: array<Word>, ptr: nat, heapEnd: nat, needed: nat, ghost b: Block, ghost rest: seq<Block>)
    returns (possible: nat)
    requires 1 <= ptr && Tiles(mem[..], ptr - 1, [b] + rest)
    requires ptr - 1 + Total([b] + rest) == heapEnd <= mem.Length
    ensures possible == Gathered(b.size, rest, needed)
    ensures ptr + possible <= heapEnd
  {
    hide Tiles, Total, Absorbed;
    ghost var k := 0;
    FirstHeader(mem[..], ptr - 1, b, rest);
    possible := HeaderSize(mem[ptr - 1]);
    while possible < needed && ptr + possible < heapEnd
      invariant k <= |rest| && possible == b.size + Total(rest[..k])
      invariant Tiles(mem[..], ptr + possible, rest[k..])
      invariant ptr + possible + Total(rest[k..]) == heapEnd
      invariant Absorbed(b.size, rest, needed) == k + Absorbed(possible, rest[k..], needed)
      decreases |rest| - k
    {
      NextHeader(mem[..], ptr + possible, rest, k, needed, possible);
      var next := mem[ptr + possible];
      if HeaderIsAlloc(next) {
        return;
      }
      possible := possible + HeaderSize(next) + 1;
      k := k + 1;
    }
    GatherDone(rest, k, needed, possible);
  }

  lemma {:induction false} FirstHeader(m: seq<Word>, at: nat, b: Block, rest: seq<Block>)
    requires Tiles(m, at, [b] + rest)
    ensures at < |m| && b.size < SIZE_LIMIT && m[at] == Header(b) && Tiles(m, at + Foot(b), rest)
    ensures Total([b] + rest) == Foot(b) + Total(rest) && Total(rest[..0]) == 0 && rest[0..] == rest
  {
    assert ([b] + rest)[1..] == rest && ([b] + rest)[0] == b;
  }

  /** What the header after `k` blocks says, and how the walk goes on. */
  lemma {:induction false} NextHeader(m: seq<Word>, at: nat, rest: seq<Block>, k: nat, needed: nat, possible: nat)
    requires k <= |rest| && Tiles(m, at, rest[k..]) && Total(rest[k..]) > 0 && possible < needed
    ensures k < |rest| && at < |m| && rest[k].size < SIZE_LIMIT && m[at] == Header(rest[k])
    ensures Tiles(m, at + Foot(rest[k]), rest[k + 1..]) && Total(rest[k..]) == Foot(rest[k]) + Total(rest[k + 1..])
    ensures Total(rest[..k + 1]) == Total(rest[..k]) + Foot(rest[k])
    ensures Absorbed(possible, rest[k..], needed)
            == if rest[k].alloc then 0 else 1 + Absorbed(possible + Foot(rest[k]), rest[k + 1..], needed)
  {
    assert k < |rest| && rest[k..][0] == rest[k] && rest[k..][1..] == rest[k + 1..];
    assert rest[..k + 1] == rest[..k] + [rest[k]];
    TotalConcat(rest[..k], [rest[k]]);
    TotalOne(rest[k]);
  }

  lemma {:induction false} GatherDone(rest: seq<Block>, k: nat, needed: nat, possible: nat)
    requires k <= |rest| && (possible >= needed || Total(rest[k..]) == 0)
    ensures Absorbed(possible, rest[k..], needed) == 0
  {
  }

  lemma {:induction false} MergedTiles(m: seq<Word>, m': seq<Word>, at: nat, b: Block, rest: seq<Block>, needed: nat)
    requires Tiles(m, at, [b] + rest) && |m'| == |m| && at + Total([b] + rest) <= |m|
    requires Total([b] + rest) < SIZE_LIMIT && Gathered(b.size, rest, needed) < SIZE_LIMIT
    requires var got := Gathered(b.size, rest, needed);
             && m'[at] == Header(Block(if got < needed then got else needed, b.alloc))
             && got <= b.size + Total(rest)
             && (got > needed ==> m'[at + 1 + needed] == Header(Block(got - needed - 1, false)))
             && (forall i :: 0 <= i < |m| && i != at && !(got > needed && i == at + 1 + needed) ==> m'[i] == m[i])
    ensures Tiles(m', at, Merged(b, rest, needed) + rest[Absorbed(b.size, rest, needed)..])
  {
    hide Tiles, Total, Gathered, Merged;
    TotalConcat([b], rest);
    TotalOne(b);
    var k := Absorbed(b.size, rest, needed);
    var got := Gathered(b.size, rest, needed);
    var mid, mid' := [b] + rest[..k], Merged(b, rest, needed);
    MergedKeepsWords(b, rest, needed);
    assert [b] + rest == [] + mid + rest[k..];
    MergedHeaders(m', at, b, rest, needed);
    MergedSize(b, rest, needed);
    TotalNone();
    TilesReplace(m, m', at, [], mid, mid', rest[k..]);
    assert [] + mid' + rest[k..] == mid' + rest[k..];
  }

  lemma {:induction false} MergedSize(b: Block, rest: seq<Block>, needed: nat)
    ensures Total([b] + rest[..Absorbed(b.size, rest, needed)]) == 1 + Gathered(b.size, rest, needed)
  {
    TotalConcat([b], rest[..Absorbed(b.size, rest, needed)]);
    TotalOne(b);
  }

  lemma {:induction false} MergedHeaders(m: seq<Word>, at: nat, b: Block, rest: seq<Block>, needed: nat)
    requires var got := Gathered(b.size, rest, needed);
             && at + got < |m| && got < SIZE_LIMIT
             && m[at] == Header(Block(if got < needed then got else needed, b.alloc))
             && (got > needed ==> m[at + 1 + needed] == Header(Block(got - needed - 1, false)))
    ensures Tiles(m, at, Merged(b, rest, needed))
  {
    hide Gathered;
    var got, mid := Gathered(b.size, rest, needed), Merged(b, rest, needed);
    if got > needed {
      assert mid[1..] == [Block(got - needed - 1, false)];
      assert mid[1..][1..] == [];
      assert Tiles(m, at + 1 + needed, mid[1..]);
    } else {
      assert mid[1..] == [];
    }
  }

  lemma {:induction false} GatheredBounded(size: nat, rest: seq<Block>, needed: nat)
    ensures Gathered(size, rest, needed) <= size + Total(rest)
  {
    var k := Absorbed(size, rest, needed);
    assert rest == rest[..k] + rest[k..];
    TotalConcat(rest[..k], rest[k..]);
  }
}
