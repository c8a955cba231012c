/**
 Resizing a block where it stands: when the heap survives it, and what it does to the live blocks.
 */
module Resize {
  import opened HeapBlocks
  import opened BufferPtr
  import opened HeapInvariant

  /**
   The exact condition under which `realloc_in_place` leaves a well-formed heap.

   - The last block grows by moving the offset. The test `ptr > end_of_buffer - size` wraps when the
     new size exceeds the end address itself, and then nothing stops the offset from passing the end.
   - Any other block grows over the free blocks after it, and that walk stops at the end of the heap
     and not at the offset. If only free blocks follow and they do not suffice, the walk runs into
     memory that has not been handed out.
   */
  ghost predicate InPlaceSafe(base: nat, size: nat, bs: seq<Block>, k: nat, sz: nat)
    requires k < |bs|
  {
    if k == |bs| - 1 then sz <= base + size
    else !(AllFree(bs[k + 1..]) && bs[k].size + Total(bs[k + 1..]) < sz &&
           base + Total(bs[..k]) + 1 + sz <= base + size)
  }

  /** A request that is turned down for want of room does no harm. */
  lemma {:induction false} NoRoomSafe(base: nat, size: nat, bs: seq<Block>, k: nat, sz: nat)
    requires k < |bs| && sz <= base + size < base + Total(bs[..k]) + 1 + sz
    ensures InPlaceSafe(base, size, bs, k, sz)
  {
  }

  /**
   The exact condition under which `realloc_in_place` returns null for a live block: the end of the heap
   comes first, or the block is not the last one and the walk after it does not find enough.
   */
  ghost predicate TurnedDown(base: nat, size: nat, bs: seq<Block>, k: nat, sz: nat)
    requires k < |bs| && Total(bs) <= size
  {
    || sz <= base + size < base + Total(bs[..k]) + 1 + sz
    || (k < |bs| - 1 && bs[k].size < sz && Gathered(bs[k].size, bs[k + 1..] + Zeros(size - Total(bs)), sz) < sz)
  }

  /** Some list of blocks explains the headers. */
  ghost predicate Shaped(m: seq<Word>, base: nat, size: nat, offset: nat) {
    exists bs: seq<Block> :: HeapOk(m, base, size, offset, bs)
  }

  /**
   What a resize from block list `bs` to `bs'` promises: block `k` is still live at the same address,
   the words it keeps are unchanged, every other live block is as before, and nothing outside the
   heap is written. A block that shrinks keeps its recorded size.
   */
  ghost predicate ResizedTo(m: seq<Word>, m': seq<Word>, base: nat, size: nat, bs: seq<Block>, bs': seq<Block>, k: nat,
                            sz: nat)
    requires k < |bs|
  {
    var ptr, s := base + Total(bs[..k]) + 1, bs[k].size;
    && Live(base, bs') == Live(base, bs) - {(ptr, s)} + {(ptr, if sz < s then s else sz)}
    && Kept(m, m', Live(base, bs) - {(ptr, s)})
    && (forall i :: ptr <= i < ptr + s && i < ptr + sz && i < |m| ==> m'[i] == m[i])
    && SameOutside(m, m', base, size)
  }

  lemma {:induction false} LiveAt(base: nat, bs: seq<Block>, k: nat)
    requires k < |bs| && bs[k].alloc
    ensures (base + Total(bs[..k]) + 1, bs[k].size) in Live(base, bs)
  {
    SplitAt(bs, k);
    LiveSplit(base, bs[..k], [bs[k]], bs[k + 1..]);
    LiveOne(base + Total(bs[..k]), bs[k]);
  }

  /** Shrinking writes one word, a header inside the block. */
  ghost predicate ShrunkAt(m: seq<Word>, m': seq<Word>, ptr: nat, sz: nat, origSize: nat) {
    && |m'| == |m| && ptr + sz < |m| && sz < origSize && origSize - sz < SIZE_LIMIT
    && m'[ptr + sz] == Header(Block(origSize - sz, false))
    && forall i :: 0 <= i < |m| && i != ptr + sz ==> m'[i] == m[i]
  }

  // ----- live blocks -----

  lemma {:induction false} LiveResized(base: nat, pre: seq<Block>, b: Block, run: seq<Block>, b': Block,
                                       left: seq<Block>, post: seq<Block>)
    requires b.alloc && b'.alloc && AllFree(run) && AllFree(left)
    requires Total([b'] + left) == Total([b] + run) || post == []
    ensures Live(base, pre + ([b'] + left) + post) ==
            Live(base, pre + ([b] + run) + post) - {(base + Total(pre) + 1, b.size)}
                + {(base + Total(pre) + 1, b'.size)}
  {
    hide Live;
    var at := base + Total(pre);
    LiveSplit(base, pre, [b] + run, post);
    LiveSplit(base, pre, [b'] + left, post);
    LiveNone(at + Total([b] + run));
    LiveNone(at + Total([b'] + left));
    LiveHead(at, b, run);
    LiveHead(at, b', left);
    LiveApart(base, pre, at + Total([b] + run), post, (at + 1, b.size), at);
    TotalConcat([b], run);
    TotalOne(b);
  }

  lemma {:induction false} LiveHead(at: nat, b: Block, run: seq<Block>)
    requires b.alloc && AllFree(run)
    ensures Live(at, [b] + run) == {(at + 1, b.size)}
  {
    assert ([b] + run)[1..] == run;
    LiveAllFree(at + Foot(b), run);
  }

  // ----- shrinking: a header is written inside the payload, nothing else happens -----

  lemma {:induction false} ShrinkOk(m: seq<Word>, m': seq<Word>, base: nat, size: nat, offset: nat, bs: seq<Block>,
                                    k: nat, sz: nat)
    requires HeapOk(m, base, size, offset, bs) && |m'| == |m| && k < |bs| && bs[k].alloc && sz < bs[k].size
    requires forall i :: 0 <= i < |m| && i != base + Total(bs[..k]) + 1 + sz ==> m'[i] == m[i]
    ensures HeapOk(m', base, size, offset, bs)
    ensures ResizedTo(m, m', base, size, bs, bs, k, sz)
    ensures InPlaceSafe(base, size, bs, k, sz)
  {
    hide Live, Tiles;
    HeaderAt(m, base, size, offset, bs, k);
    LiveAt(base, bs, k);
    PayloadOk(m, m', base, size, offset, bs, (base + Total(bs[..k]) + 1, bs[k].size));
  }

  lemma {:induction false} SameSizeOk(m: seq<Word>, base: nat, size: nat, offset: nat, bs: seq<Block>, k: nat)
    requires HeapOk(m, base, size, offset, bs) && k < |bs| && bs[k].alloc
    ensures ResizedTo(m, m, base, size, bs, bs, k, bs[k].size)
    ensures InPlaceSafe(base, size, bs, k, bs[k].size)
  {
    LiveAt(base, bs, k);
    SplitAt(bs, k);
  }

  // ----- growing the last block: the offset moves -----

  lemma {:induction false} GrowLastOk(m: seq<Word>, m': seq<Word>, base: nat, size: nat, offset: nat, bs: seq<Block>,
                                      k: nat, sz: nat)
    requires HeapOk(m, base, size, offset, bs) && |m'| == |m| && k == |bs| - 1
    requires var at := base + Total(bs[..k]);
             && bs[k].alloc && bs[k].size <= sz && sz % 2 == 1 && sz < SIZE_LIMIT && at + 1 + sz <= base + size
             && at < |m| && m'[at] == Header(Block(sz, true))
             && (forall i :: 0 <= i < |m| && i != at ==> m'[i] == m[i])
    ensures HeapOk(m', base, size, Total(bs[..k]) + sz + 1, bs[..k] + [Block(sz, true)])
    ensures ResizedTo(m, m', base, size, bs, bs[..k] + [Block(sz, true)], k, sz)
  {
    hide Live, Tiles, Total;
    var pre, b' := bs[..k], Block(sz, true);
    HeaderAt(m, base, size, offset, bs, k);
    LastSplit(bs);
    GrowLastTiles(m, m', base, pre, bs[k], b');
    GrowLastLive(base, pre, bs[k], b');
    assert Aligned(pre + [b']) by {
      forall i | 0 <= i < |pre| ensures pre[i].size % 2 == 1 { assert pre[i] == bs[i]; }
    }
  }

  lemma {:induction false} GrowLastTiles(m: seq<Word>, m': seq<Word>, base: nat, pre: seq<Block>, b: Block, b': Block)
    requires Tiles(m, base, pre + [b]) && |m'| == |m|
    requires var at := base + Total(pre);
             && at < |m| && b'.size < SIZE_LIMIT && m'[at] == Header(b')
             && (forall i :: 0 <= i < |m| && i != at ==> m'[i] == m[i])
    ensures Tiles(m', base, pre + [b']) && Total(pre + [b']) == Total(pre) + Foot(b')
  {
    TilesConcat(m, base, pre, [b]);
    TilesFrame(m, m', base, pre);
    assert [b'][1..] == [];
    TilesConcat(m', base, pre, [b']);
    TotalConcat(pre, [b']);
    TotalOne(b');
  }

  lemma {:induction false} GrowLastLive(base: nat, pre: seq<Block>, b: Block, b': Block)
    requires b.alloc && b'.alloc
    ensures Live(base, pre + [b']) ==
            Live(base, pre + [b]) - {(base + Total(pre) + 1, b.size)} + {(base + Total(pre) + 1, b'.size)}
  {
    LiveResized(base, pre, b, [], b', [], []);
    assert pre + ([b] + []) + [] == pre + [b] && pre + ([b'] + []) + [] == pre + [b'];
  }

  lemma {:induction false} LastSplit(bs: seq<Block>)
    requires bs != []
    ensures bs == bs[..|bs| - 1] + [bs[|bs| - 1]]
    ensures Total(bs) == Total(bs[..|bs| - 1]) + Foot(bs[|bs| - 1])
  {
    TotalConcat(bs[..|bs| - 1], [bs[|bs| - 1]]);
    TotalOne(bs[|bs| - 1]);
  }

  lemma {:induction false} LastIffAtOffset(bs: seq<Block>, k: nat)
    requires k < |bs|
    ensures k == |bs| - 1 <==> Total(bs[..k]) + Foot(bs[k]) == Total(bs)
  {
    SplitAt(bs, k);
  }

  /**
   Past the end address the test lets any size through, and the offset leaves the heap, or wraps to before the block.
   */
  lemma {:induction false} GrowLastBreaks(m: seq<Word>, base: nat, size: nat, offset: nat, bs: seq<Block>, k: nat,
                                          sz: nat)
    requires k == |bs| - 1 && !InPlaceSafe(base, size, bs, k, sz) && offset == Total(bs) <= size < SIZE_LIMIT
    requires bs[k].size <= sz < ADDRESS_SPACE
    requires base + Total(bs[..k]) < |m| && HeaderIsAlloc(m[base + Total(bs[..k])])
    ensures !Shaped(m, base, size, (offset + (sz - bs[k].size)) % ADDRESS_SPACE)
  {
    LastSplit(bs);
    var offset' := (offset + (sz - bs[k].size)) % ADDRESS_SPACE;
    var at := Total(bs[..k]);
    assert offset + (sz - bs[k].size) == at + 1 + sz;
    if at + 1 + sz >= ADDRESS_SPACE {
      assert offset' == at + 1 + sz - ADDRESS_SPACE <= at;
      assert !ZeroRange(m, base + offset', base + size);
    } else {
      assert offset' > size;
    }
  }

  // ----- growing over the free blocks after it -----

  /** In the safe case the walk never leaves the blocks that were handed out. */
  lemma {:induction false} SafeWalkStays(base: nat, size: nat, bs: seq<Block>, k: nat, sz: nat, z: seq<Block>)
    requires k < |bs| - 1 && InPlaceSafe(base, size, bs, k, sz)
    requires base + Total(bs[..k]) + 1 + sz <= base + size
    ensures var a := bs[k + 1..];
            && Absorbed(bs[k].size, a + z, sz) == Absorbed(bs[k].size, a, sz)
            && Gathered(bs[k].size, a + z, sz) == Gathered(bs[k].size, a, sz)
  {
    var a := bs[k + 1..];
    if AllFree(a) {
      assert a[..|a|] == a;
      GatheredSuffices(bs[k].size, a, sz, |a|);
    }
    AbsorbedPrefix(bs[k].size, a, z, sz);
  }

  lemma {:induction false} GrowOverOk(m: seq<Word>, m': seq<Word>, base: nat, size: nat, offset: nat, bs: seq<Block>,
                                      k: nat, sz: nat)
    requires HeapOk(m, base, size, offset, bs) && k < |bs| - 1 && bs[k].alloc && sz % 2 == 1 && sz > bs[k].size
    requires InPlaceSafe(base, size, bs, k, sz) && base + Total(bs[..k]) + 1 + sz <= base + size
    requires var rest := bs[k + 1..] + Zeros(size - offset);
             && Gathered(bs[k].size, rest, sz) >= sz
             && MergeWrote(m, m', base + Total(bs[..k]), bs[k], rest, sz)
             && Tiles(m', base + Total(bs[..k]), Merged(bs[k], rest, sz) + rest[Absorbed(bs[k].size, rest, sz)..])
    ensures var a := bs[k + 1..];
            var bs' := bs[..k] + Merged(bs[k], a, sz) + a[Absorbed(bs[k].size, a, sz)..];
            && HeapOk(m', base, size, offset, bs')
            && ResizedTo(m, m', base, size, bs, bs', k, sz)
  {
    hide HeapOk, Tiles, Kept, MergeWrote, Live, Total, Gathered, Merged, InPlaceSafe, SameOutside;
    var a := bs[k + 1..];
    SafeWalkStays(base, size, bs, k, sz, Zeros(size - offset));
    DropZeros(m, m', base + Total(bs[..k]), bs[k], a, Zeros(size - offset), sz);
    assert bs == bs[..k] + ([bs[k]] + a);
    MergeOk(m, m', base, size, offset, bs[..k], bs[k], a, sz);
    MergeKeeps(m, m', base, bs[..k], bs[k], a, sz);
    GrownLive(base, bs, k, sz);
    MergeLocal(m, m', base, size, offset, bs, k, sz);
  }

  lemma {:induction false} MergeLocal(m: seq<Word>, m': seq<Word>, base: nat, size: nat, offset: nat, bs: seq<Block>,
                                      k: nat, sz: nat)
    requires HeapOk(m, base, size, offset, bs) && k < |bs| && sz > bs[k].size
    requires MergeWrote(m, m', base + Total(bs[..k]), bs[k], bs[k + 1..], sz)
    ensures SameOutside(m, m', base, size)
    ensures var ptr := base + Total(bs[..k]) + 1;
            forall i :: ptr <= i < ptr + bs[k].size && i < |m| ==> m'[i] == m[i]
  {
    SplitAt(bs, k);
    GatheredBounded(bs[k].size, bs[k + 1..], sz);
  }

  /** A merge that takes none of the trailing blocks reads the same without them. */
  lemma {:induction false} DropZeros(m: seq<Word>, m': seq<Word>, at: nat, b: Block, a: seq<Block>, z: seq<Block>,
                                     sz: nat)
    requires Absorbed(b.size, a + z, sz) == Absorbed(b.size, a, sz)
    requires Gathered(b.size, a + z, sz) == Gathered(b.size, a, sz)
    requires MergeWrote(m, m', at, b, a + z, sz)
    requires Tiles(m', at, Merged(b, a + z, sz) + (a + z)[Absorbed(b.size, a + z, sz)..])
    ensures MergeWrote(m, m', at, b, a, sz)
    ensures Tiles(m', at, Merged(b, a, sz) + a[Absorbed(b.size, a, sz)..])
  {
    hide Tiles, Gathered, Absorbed;
    var n, mid := Absorbed(b.size, a, sz), Merged(b, a, sz);
    assert Merged(b, a + z, sz) == mid;
    assert (a + z)[n..] == a[n..] + z;
    assert mid + (a[n..] + z) == mid + a[n..] + z;
    TilesConcat(m', at, mid + a[n..], z);
  }

  lemma {:induction false} GrownLive(base: nat, bs: seq<Block>, k: nat, sz: nat)
    requires k < |bs| && bs[k].alloc && Gathered(bs[k].size, bs[k + 1..], sz) >= sz
    ensures var a := bs[k + 1..];
            Live(base, bs[..k] + Merged(bs[k], a, sz) + a[Absorbed(bs[k].size, a, sz)..]) ==
            Live(base, bs) - {(base + Total(bs[..k]) + 1, bs[k].size)} + {(base + Total(bs[..k]) + 1, sz)}
  {
    hide Live, Total, Gathered;
    var pre, b, a := bs[..k], bs[k], bs[k + 1..];
    var n := Absorbed(b.size, a, sz);
    var mid' := Merged(b, a, sz);
    MergedKeepsWords(b, a, sz);
    MergedHead(b, a, sz);
    LiveResized(base, pre, b, a[..n], Block(sz, true), mid'[1..], a[n..]);
    assert bs == pre + ([b] + a[..n]) + a[n..];
  }

  lemma {:induction false} MergedHead(b: Block, a: seq<Block>, sz: nat)
    requires b.alloc && Gathered(b.size, a, sz) >= sz
    ensures Merged(b, a, sz) == [Block(sz, true)] + Merged(b, a, sz)[1..] && AllFree(Merged(b, a, sz)[1..])
  {
  }

  // ----- the unsafe cases -----

  /** A header that reaches past the offset fits no list of blocks. */
  lemma {:induction false} OverlongNotShaped(m: seq<Word>, base: nat, size: nat, offset: nat, pre: seq<Block>, b: Block)
    requires Tiles(m, base, pre + [b])
    requires Total(pre) < offset < Total(pre) + Foot(b)
    ensures !Shaped(m, base, size, offset)
  {
    forall bs: seq<Block> ensures !HeapOk(m, base, size, offset, bs) {
      if HeapOk(m, base, size, offset, bs) {
        TotalConcat(pre, [b]);
        TotalOne(b);
        if |bs| <= |pre| {
          TilesDeterministic(m, base, bs, pre + [b]);
          assert pre == bs + pre[|bs|..];
          TotalConcat(bs, pre[|bs|..]);
        } else {
          TilesDeterministic(m, base, pre + [b], bs);
          assert bs == pre + [b] + bs[|pre| + 1..];
          TotalConcat(pre + [b], bs[|pre| + 1..]);
        }
      }
    }
  }

  /** In the unsafe case the walk finds enough, past the offset. */
  lemma {:induction false} UnsafeWalkOverruns(base: nat, size: nat, offset: nat, bs: seq<Block>, k: nat, sz: nat)
    requires k < |bs| - 1 && !InPlaceSafe(base, size, bs, k, sz) && offset == Total(bs) <= size
    ensures Gathered(bs[k].size, bs[k + 1..] + Zeros(size - offset), sz) >= sz
    ensures Total(bs[..k]) < offset < Total(bs[..k]) + 1 + sz
  {
    var a, z := bs[k + 1..], Zeros(size - offset);
    SplitAt(bs, k);
    TotalConcat(a, z);
    ZerosTotal(size - offset);
    assert (a + z)[..|a + z|] == a + z;
    GatheredSuffices(bs[k].size, a + z, sz, |a + z|);
  }

  lemma {:induction false} ZerosTotal(n: nat)
    ensures Total(Zeros(n)) == n
  {
    if n > 0 {
      assert Zeros(n)[1..] == Zeros(n - 1);
      ZerosTotal(n - 1);
    }
  }

  lemma {:induction false} GrowOverBreaks(m: seq<Word>, m': seq<Word>, base: nat, size: nat, offset: nat,
                                          bs: seq<Block>, k: nat, sz: nat)
    requires HeapOk(m, base, size, offset, bs) && k < |bs| - 1
    requires !InPlaceSafe(base, size, bs, k, sz)
    requires var rest := bs[k + 1..] + Zeros(size - offset);
             && MergeWrote(m, m', base + Total(bs[..k]), bs[k], rest, sz)
             && Tiles(m', base + Total(bs[..k]), Merged(bs[k], rest, sz) + rest[Absorbed(bs[k].size, rest, sz)..])
    ensures !Shaped(m', base, size, offset)
  {
    hide Tiles, Total, Gathered, InPlaceSafe, Shaped;
    var pre := bs[..k];
    var rest := bs[k + 1..] + Zeros(size - offset);
    var b' := Block(sz, bs[k].alloc);
    UnsafeWalkOverruns(base, size, offset, bs, k, sz);
    var mid, post := Merged(bs[k], rest, sz), rest[Absorbed(bs[k].size, rest, sz)..];
    assert mid + post == [b'] + (mid[1..] + post);
    TilesConcat(m', base + Total(pre), [b'], mid[1..] + post);
    assert Tiles(m', base, pre) by {
      assert bs == pre + bs[k..];
      TilesConcat(m, base, pre, bs[k..]);
      TilesFrame(m, m', base, pre);
    }
    TilesConcat(m', base, pre, [b']);
    OverlongNotShaped(m', base, size, offset, pre, b');
  }

  /** Growing over free blocks: exactly in the safe case the heap is still well formed. */
  lemma {:induction false} GrowOverDone(m: seq<Word>, m': seq<Word>, base: nat, size: nat, offset: nat, bs: seq<Block>,
                                        k: nat, sz: nat, at: nat)
    requires HeapOk(m, base, size, offset, bs) && k < |bs| - 1 && bs[k].alloc && sz % 2 == 1 && bs[k].size < sz
    requires var rest := bs[k + 1..] + Zeros(size - offset);
             && at == base + Total(bs[..k]) && Gathered(bs[k].size, rest, sz) >= sz
             && MergeWrote(m, m', at, bs[k], rest, sz)
             && Tiles(m', at, Merged(bs[k], rest, sz) + rest[Absorbed(bs[k].size, rest, sz)..])
    ensures var a := bs[k + 1..];
            var bs' := bs[..k] + Merged(bs[k], a, sz) + a[Absorbed(bs[k].size, a, sz)..];
            if InPlaceSafe(base, size, bs, k, sz) then
              HeapOk(m', base, size, offset, bs') && ResizedTo(m, m', base, size, bs, bs', k, sz)
            else true
    ensures Shaped(m', base, size, offset) <==> InPlaceSafe(base, size, bs, k, sz)
  {
    hide Live, Tiles, Merged, Kept, InPlaceSafe;
    if InPlaceSafe(base, size, bs, k, sz) {
      var rest := bs[k + 1..] + Zeros(size - offset);
      ReadToEnd(m, base, size, offset, bs, k);
      GatheredBounded(bs[k].size, rest, sz);
      TotalConcat([bs[k]], rest);
      TotalOne(bs[k]);
      GrowOverOk(m, m', base, size, offset, bs, k, sz);
    } else {
      GrowOverBreaks(m, m', base, size, offset, bs, k, sz);
    }
  }
}
