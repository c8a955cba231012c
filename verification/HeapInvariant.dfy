/**
 The invariant of one heap and what each kind of write does to it, stated on values.
 */
module HeapInvariant {
  import opened HeapBlocks
  import opened BufferPtr

  /**
   The headers in [base, base + offset) tile it exactly, every footprint is a multiple of
   `_mem_block`, and the part not handed out yet still holds the zeros it started with.
   */
  ghost predicate HeapOk(m: seq<Word>, base: nat, size: nat, offset: nat, bs: seq<Block>) {
    && 1 <= base && base + size <= |m|
    && size < SIZE_LIMIT && size % 2 == 0
    && offset <= size && offset == Total(bs)
    && Tiles(m, base, bs)
    && Aligned(bs)
    && ZeroRange(m, base + offset, base + size)
  }

  ghost predicate ZeroRange(m: seq<Word>, lo: nat, hi: nat) {
    forall i :: lo <= i < hi && i < |m| ==> m[i] == 0
  }

  lemma {:induction false} HeapBounds(m: seq<Word>, base: nat, size: nat, offset: nat, bs: seq<Block>)
    requires HeapOk(m, base, size, offset, bs)
    ensures 1 <= base && base + size <= |m| && size < SIZE_LIMIT && offset == Total(bs) <= size
  {
  }

  lemma {:induction false} AlignedTotal(bs: seq<Block>)
    requires Aligned(bs)
    ensures Total(bs) % 2 == 0
  {
    if bs != [] {
      AlignedTotal(bs[1..]);
    }
  }

  /** Only the words of the heap itself matter. */
  lemma {:induction false} HeapOkFrame(m: seq<Word>, m': seq<Word>, base: nat, size: nat, offset: nat, bs: seq<Block>)
    requires HeapOk(m, base, size, offset, bs) && |m'| == |m|
    requires forall i :: base <= i < base + size ==> m'[i] == m[i]
    ensures HeapOk(m', base, size, offset, bs)
  {
    TilesFrame(m, m', base, bs);
  }

  /** A block written at the offset extends the tiling. */
  lemma {:induction false} HeapOkAppend(m: seq<Word>, m': seq<Word>, base: nat, size: nat, offset: nat, bs: seq<Block>,
                                        b: Block)
    requires HeapOk(m, base, size, offset, bs) && |m'| == |m|
    requires b.size % 2 == 1 && offset + Foot(b) <= size
    requires m'[base + offset] == Header(b)
    requires forall i :: 0 <= i < |m| && i != base + offset ==> m'[i] == m[i]
    ensures HeapOk(m', base, size, offset + Foot(b), bs + [b])
  {
    TilesFrame(m, m', base, bs);
    assert [b][1..] == [];
    assert Tiles(m', base + Total(bs), [b]);
    TilesConcat(m', base, bs, [b]);
    TotalConcat(bs, [b]);
    TotalOne(b);
  }

  /** A stretch of blocks replaced by others over the same words. */
  lemma {:induction false} HeapOkReplace(m: seq<Word>, m': seq<Word>, base: nat, size: nat, offset: nat,
                                         pre: seq<Block>, mid: seq<Block>, mid': seq<Block>, post: seq<Block>)
    requires HeapOk(m, base, size, offset, pre + mid + post) && |m'| == |m|
    requires Total(mid') == Total(mid) && Aligned(mid')
    requires forall i :: 0 <= i < |m| && !(base + Total(pre) <= i < base + Total(pre) + Total(mid)) ==> m'[i] == m[i]
    requires Tiles(m', base + Total(pre), mid')
    ensures HeapOk(m', base, size, offset, pre + mid' + post)
  {
    TilesReplace(m, m', base, pre, mid, mid', post);
    TotalConcat(pre + mid, post);
    TotalConcat(pre, mid);
    AlignedReplace(pre, mid, mid', post);
  }

  lemma {:induction false} AlignedReplace(pre: seq<Block>, mid: seq<Block>, mid': seq<Block>, post: seq<Block>)
    requires Aligned(pre + mid + post) && Aligned(mid')
    ensures Aligned(pre + mid' + post)
  {
    var all := pre + mid + post;
    forall i | 0 <= i < |pre + mid' + post| ensures (pre + mid' + post)[i].size % 2 == 1 {
      if i < |pre| {
        assert all[i] == pre[i];
      } else if i >= |pre| + |mid'| {
        var j := i - |pre| - |mid'|;
        assert all[|pre| + |mid| + j] == post[j];
      }
    }
  }

  /** The offset splits at every block. */
  lemma {:induction false} SplitAt(bs: seq<Block>, k: nat)
    requires k < |bs|
    ensures bs == bs[..k] + [bs[k]] + bs[k + 1..]
    ensures Total(bs) == Total(bs[..k]) + Foot(bs[k]) + Total(bs[k + 1..])
  {
    TotalConcat(bs[..k] + [bs[k]], bs[k + 1..]);
    TotalConcat(bs[..k], [bs[k]]);
    TotalOne(bs[k]);
    assert bs == bs[..k] + [bs[k]] + bs[k + 1..];
  }

  lemma {:induction false} SizeOdd(m: seq<Word>, base: nat, size: nat, offset: nat, bs: seq<Block>, k: nat)
    requires HeapOk(m, base, size, offset, bs) && k < |bs|
    ensures bs[k].size % 2 == 1
  {
    hide Tiles, Total, ZeroRange;
  }

  /** Rewriting the flag of one header. */
  lemma {:induction false} FlagOk(m: seq<Word>, m': seq<Word>, base: nat, size: nat, offset: nat, bs: seq<Block>,
                                  k: nat, alloc: bool)
    requires HeapOk(m, base, size, offset, bs) && |m'| == |m| && k < |bs|
    requires base + Total(bs[..k]) < |m| && bs[k].size < SIZE_LIMIT
    requires m'[base + Total(bs[..k])] == Header(Block(bs[k].size, alloc))
    requires forall i :: 0 <= i < |m| && i != base + Total(bs[..k]) ==> m'[i] == m[i]
    ensures HeapOk(m', base, size, offset, bs[k := Block(bs[k].size, alloc)])
  {
    hide Tiles, Total, HeapOk;
    var b, b' := bs[k], Block(bs[k].size, alloc);
    HeapBounds(m, base, size, offset, bs);
    SizeOdd(m, base, size, offset, bs, k);
    SplitAt(bs, k);
    TotalOne(b);
    TotalOne(b');
    TilesOne(m', base + Total(bs[..k]), b');
    HeapOkReplace(m, m', base, size, offset, bs[..k], [b], [b'], bs[k + 1..]);
    assert bs[k := b'] == bs[..k] + [b'] + bs[k + 1..];
  }

  /** The header in front of a block can be read there, and is no part of any payload. */
  lemma {:induction false} HeaderAt(m: seq<Word>, base: nat, size: nat, offset: nat, bs: seq<Block>, k: nat)
    requires HeapOk(m, base, size, offset, bs) && k < |bs|
    ensures bs[k].size < SIZE_LIMIT && Total(bs[..k]) + Foot(bs[k]) <= offset
    ensures m[base + Total(bs[..k])] == Header(bs[k])
    ensures forall x :: x in Live(base, bs) ==> !(x.0 <= base + Total(bs[..k]) < x.0 + x.1)
  {
    hide Live;
    SplitAt(bs, k);
    var pre, post := bs[..k], bs[k + 1..];
    TilesConcat(m, base, pre + [bs[k]], post);
    TilesConcat(m, base, pre, [bs[k]]);
    forall x | x in Live(base, bs) ensures !(x.0 <= base + Total(pre) < x.0 + x.1) {
      HeaderOutside(base, bs, k, x);
    }
  }

  lemma {:induction false} HeaderOutside(base: nat, bs: seq<Block>, k: nat, x: (nat, nat))
    requires k < |bs| && x in Live(base, bs)
    ensures !(x.0 <= base + Total(bs[..k]) < x.0 + x.1)
  {
    hide Live, Total;
    SplitAt(bs, k);
    var pre, post := bs[..k], bs[k + 1..];
    LiveSplit(base, pre, [bs[k]], post);
    LiveOne(base + Total(pre), bs[k]);
    TotalOne(bs[k]);
    if x in Live(base, pre) {
      LiveInside(base, pre, x);
    } else if x in Live(base + Total(pre) + Total([bs[k]]), post) {
      LiveInside(base + Total(pre) + Total([bs[k]]), post, x);
    }
  }

  // ----- memory past the offset reads as free blocks of size zero -----

  function Zeros(n: nat): (z: seq<Block>)
    ensures |z| == n && forall i :: 0 <= i < n ==> z[i] == Block(0, false)
  {
    seq(n, _ => Block(0, false))
  }

  lemma {:induction false} ZerosTile(m: seq<Word>, at: nat, n: nat)
    requires at + n <= |m| && ZeroRange(m, at, at + n)
    ensures Tiles(m, at, Zeros(n)) && Total(Zeros(n)) == n
    decreases n
  {
    if n > 0 {
      assert Zeros(n)[1..] == Zeros(n - 1);
      ZerosTile(m, at + 1, n - 1);
    }
  }

  /** From any block on, the whole rest of the heap reads as a list of blocks. */
  lemma {:induction false} ReadToEnd(m: seq<Word>, base: nat, size: nat, offset: nat, bs: seq<Block>, k: nat)
    requires HeapOk(m, base, size, offset, bs) && k < |bs|
    ensures var rest := bs[k + 1..] + Zeros(size - offset);
            && Tiles(m, base + Total(bs[..k]), [bs[k]] + rest)
            && Total(bs[..k]) + Total([bs[k]] + rest) == size
  {
    hide Tiles, Total, Aligned;
    var z := Zeros(size - offset);
    var tail := [bs[k]] + (bs[k + 1..] + z);
    assert bs + z == bs[..k] + tail by {
      assert bs == bs[..k] + [bs[k]] + bs[k + 1..];
    }
    assert Tiles(m, base, bs + z) && Total(bs + z) == size by {
      ZerosTile(m, base + offset, size - offset);
      TilesConcat(m, base, bs, z);
      TotalConcat(bs, z);
    }
    TilesConcat(m, base, bs[..k], tail);
    TotalConcat(bs[..k], tail);
  }

  /** Blocks past an allocated one, or past a run that suffices, are not reached. */
  lemma {:induction false} AbsorbedPrefix(size: nat, a: seq<Block>, z: seq<Block>, needed: nat)
    requires Gathered(size, a, needed) >= needed || !AllFree(a)
    ensures Absorbed(size, a + z, needed) == Absorbed(size, a, needed)
    ensures Gathered(size, a + z, needed) == Gathered(size, a, needed)
    decreases |a|
  {
    var k := Absorbed(size, a, needed);
    if size < needed && a != [] && !a[0].alloc {
      GatheredStep(size, a, needed);
      assert (a + z)[1..] == a[1..] + z;
      assert !AllFree(a) ==> !AllFree(a[1..]) by {
        if !AllFree(a) {
          var i :| 0 <= i < |a| && a[i].alloc;
          assert a[1..][i - 1].alloc;
        }
      }
      AbsorbedPrefix(size + Foot(a[0]), a[1..], z, needed);
    } else {
      assert a == [] ==> a + z == z && a[..k] == [];
    }
    assert (a + z)[..k] == a[..k];
  }

  // ----- one step of the first-fit walk -----

  /**
   The walk has passed `bs0[..i]`, which by now reads as `done`: same words, same live blocks, and
   no run that starts there fits, neither in the blocks as they were nor as they are.
   */
  ghost predicate WalkedTo(base: nat, bs0: seq<Block>, done: seq<Block>, i: nat, needed: nat) {
    && i <= |bs0|
    && Total(done) == Total(bs0[..i])
    && Live(base, done) == Live(base, bs0[..i])
    && NoFitBelow(bs0, i, needed)
    && (i < |bs0| && !bs0[i].alloc ==> i == 0 || bs0[i - 1].alloc)
    && ShortRuns(done, needed)
    && (i == 0 || bs0[i - 1].alloc ==> EndsAllocated(done))
  }

  /** The last block, if there is one, is allocated. */
  ghost predicate EndsAllocated(bs: seq<Block>) {
    bs == [] || bs[|bs| - 1].alloc
  }

  /** Every free block stands alone and is too short. */
  ghost predicate ShortRuns(bs: seq<Block>, needed: nat) {
    forall l :: 0 <= l < |bs| && !bs[l].alloc ==> bs[l].size < needed && EndsAllocated(bs[..l])
  }

  lemma {:induction false} ShortRunsAppend(bs: seq<Block>, b: Block, needed: nat)
    requires ShortRuns(bs, needed) && (b.alloc || (b.size < needed && EndsAllocated(bs)))
    ensures ShortRuns(bs + [b], needed) && (b.alloc ==> EndsAllocated(bs + [b]))
  {
    forall l | 0 <= l < |bs + [b]| && !(bs + [b])[l].alloc
      ensures (bs + [b])[l].size < needed && EndsAllocated((bs + [b])[..l])
    {
      assert (bs + [b])[..l] == bs[..l];
      assert l == |bs| ==> bs[..l] == bs;
    }
  }

  lemma {:induction false} FreeStandsAlone(bs: seq<Block>, needed: nat, l: nat)
    requires ShortRuns(bs, needed) && l + 1 < |bs|
    ensures bs[l].alloc || bs[l + 1].alloc
  {
    if !bs[l + 1].alloc {
      assert EndsAllocated(bs[..l + 1]);
    }
  }

  lemma {:induction false} ShortRunsNoFit(bs: seq<Block>, needed: nat)
    requires ShortRuns(bs, needed)
    ensures NoFitBelow(bs, |bs|, needed)
  {
    forall i: nat, j: nat | i < |bs| && MaximalRun(bs, i, j) ensures !Fits(bs, i, j, needed) {
      if i + 1 < |bs| {
        FreeStandsAlone(bs, needed, i);
      }
      assert bs[i..j] == [bs[i]];
      TotalOne(bs[i]);
    }
  }

  lemma {:induction false} WalkedLive(base: nat, bs0: seq<Block>, done: seq<Block>, i: nat, needed: nat)
    requires WalkedTo(base, bs0, done, i, needed)
    ensures Live(base, done + bs0[i..]) == Live(base, bs0)
  {
    LiveConcat(base, done, bs0[i..]);
    LiveConcat(base, bs0[..i], bs0[i..]);
    assert bs0 == bs0[..i] + bs0[i..];
  }

  lemma {:induction false} WalkBlocks(base: nat, bs0: seq<Block>, done: seq<Block>, i: nat, needed: nat, n: nat,
                                      mid': seq<Block>)
    requires WalkedTo(base, bs0, done, i, needed)
    requires i + n <= |bs0|
    requires Total(mid') == Total(bs0[i..i + n])
    requires Live(base + Total(done), mid') == Live(base + Total(done), bs0[i..i + n])
    ensures Total(done + mid') == Total(bs0[..i + n])
    ensures Live(base, done + mid') == Live(base, bs0[..i + n])
  {
    assert bs0[..i + n] == bs0[..i] + bs0[i..i + n];
    TotalConcat(bs0[..i], bs0[i..i + n]);
    TotalConcat(done, mid');
    LiveConcat(base, bs0[..i], bs0[i..i + n]);
    LiveConcat(base, done, mid');
  }

  lemma {:induction false} WalkPastAllocated(base: nat, bs0: seq<Block>, done: seq<Block>, i: nat, needed: nat)
    requires WalkedTo(base, bs0, done, i, needed)
    requires i < |bs0| && bs0[i].alloc
    ensures WalkedTo(base, bs0, done + [bs0[i]], i + 1, needed)
    ensures done + [bs0[i]] + bs0[i + 1..] == done + bs0[i..]
  {
    assert bs0[i..i + 1] == [bs0[i]];
    WalkBlocks(base, bs0, done, i, needed, 1, [bs0[i]]);
    ShortRunsAppend(done, bs0[i], needed);
  }

  lemma {:induction false} WalkPastShortRun(base: nat, bs0: seq<Block>, done: seq<Block>, i: nat, needed: nat)
    requires WalkedTo(base, bs0, done, i, needed)
    requires i < |bs0| && !bs0[i].alloc && Gathered(bs0[i].size, bs0[i + 1..], needed) < needed
    ensures var k := Absorbed(bs0[i].size, bs0[i + 1..], needed);
            WalkedTo(base, bs0, done + Merged(bs0[i], bs0[i + 1..], needed), i + 1 + k, needed)
  {
    hide Live, Total, Fits, NoFitBelow, ShortRuns, Gathered, Merged, AllFree;
    var j := ShortRun(bs0, i, needed);
    var mid' := Merged(bs0[i], bs0[i + 1..], needed);
    LiveAllFree(base + Total(done), mid');
    LiveAllFree(base + Total(done), bs0[i..j]);
    WalkBlocks(base, bs0, done, i, needed, j - i, mid');
    ShortRunsAppend(done, mid'[0], needed);
    NoFitFurther(bs0, i, j, needed);
  }

  /** A maximal run that is too short becomes one free block. */
  lemma {:induction false} ShortRun(bs: seq<Block>, i: nat, needed: nat) returns (j: nat)
    requires i < |bs| && !bs[i].alloc && (i == 0 || bs[i - 1].alloc)
             && Gathered(bs[i].size, bs[i + 1..], needed) < needed
    ensures MaximalRun(bs, i, j) && !Fits(bs, i, j, needed) && AllFree(bs[i..j])
    ensures j == i + 1 + Absorbed(bs[i].size, bs[i + 1..], needed)
    ensures var mid' := Merged(bs[i], bs[i + 1..], needed);
            && |mid'| == 1 && mid' == [mid'[0]] && !mid'[0].alloc && mid'[0].size < needed
            && AllFree(mid') && Total(mid') == Total(bs[i..j])
  {
    hide Total, Fits, Gathered;
    j := MergeDecidesFit(bs, i, needed);
    var rest := bs[i + 1..];
    var k := Absorbed(bs[i].size, rest, needed);
    assert bs[i..j] == [bs[i]] + rest[..k];
    MergedKeepsWords(bs[i], rest, needed);
  }

  /** Past a run that does not fit, no run below fits. */
  lemma {:induction false} NoFitFurther(bs: seq<Block>, i: nat, j: nat, needed: nat)
    requires NoFitBelow(bs, i, needed) && MaximalRun(bs, i, j) && !Fits(bs, i, j, needed)
    ensures NoFitBelow(bs, j, needed)
  {
    forall i': nat, j': nat | i' < j ensures !Fits(bs, i', j', needed) {
      if i' == i && MaximalRun(bs, i, j') {
        RunEndUnique(bs, i, j, j');
      }
    }
  }

  /** `next_ptr`: past block `b`, the walk is at the next payload or at the end of a full heap. */
  lemma {:induction false} NextPtr(m: seq<Word>, base: nat, size: nat, done: seq<Block>, b: Block, rest: seq<Block>)
    requires HeapOk(m, base, size, size, done + [b] + rest)
    ensures base + Total(done) < |m| && b.size < SIZE_LIMIT && m[base + Total(done)] == Header(b)
    ensures Total(done + [b]) == Total(done) + Foot(b)
    ensures rest == [] <==> Total(done + [b]) == size
    ensures rest != [] ==> Total(done + [b]) + 1 < size
  {
    TilesConcat(m, base, done + [b], rest);
    TilesConcat(m, base, done, [b]);
    TotalConcat(done + [b], rest);
    TotalConcat(done, [b]);
    TotalOne(b);
    assert rest != [] ==> (done + [b] + rest)[|done| + 1] == rest[0];
  }

  /** A run starting where the walk stands holds nothing live. */
  lemma {:induction false} LiveWithoutRun(base: nat, bs0: seq<Block>, done: seq<Block>, i: nat, needed: nat, n: nat)
    requires WalkedTo(base, bs0, done, i, needed)
    requires i + n <= |bs0| && AllFree(bs0[i..i + n])
    ensures Live(base, bs0) == Live(base, done) + Live(base + Total(done) + Total(bs0[i..i + n]), bs0[i + n..])
  {
    assert bs0 == bs0[..i] + bs0[i..i + n] + bs0[i + n..];
    LiveSplit(base, bs0[..i], bs0[i..i + n], bs0[i + n..]);
    LiveAllFree(base + Total(done), bs0[i..i + n]);
  }

  /** The block handed out and the free remainder take the place of the run. */
  lemma {:induction false} TakenHead(at: nat, b0: Block, rest: seq<Block>, needed: nat)
    requires Gathered(b0.size, rest, needed) >= needed
    ensures var head := [Block(needed, true)] + Merged(b0, rest, needed)[1..];
            && Total(head) == Total([b0] + rest[..Absorbed(b0.size, rest, needed)])
            && Live(at, head) == {(at + 1, needed)}
  {
    var b, left := Block(needed, true), Merged(b0, rest, needed)[1..];
    MergedKeepsWords(b0, rest, needed);
    assert ([b] + left)[1..] == left;
    LiveAllFree(at + Foot(b), left);
  }

  /** The first run that fits: its first block is cut to size and handed out. */
  lemma {:induction false} WalkFound(base: nat, bs0: seq<Block>, done: seq<Block>, i: nat, needed: nat)
    requires WalkedTo(base, bs0, done, i, needed)
    requires i < |bs0| && !bs0[i].alloc && Gathered(bs0[i].size, bs0[i + 1..], needed) >= needed
    ensures Live(base, Taken(bs0, done, i, needed)) == Live(base, bs0) + {(base + Total(done) + 1, needed)}
    ensures (base + Total(done) + 1, needed) !in Live(base, bs0)
  {
    hide Live, Tiles;
    var rest := bs0[i + 1..];
    var k := Absorbed(bs0[i].size, rest, needed);
    var n := 1 + k;
    var head := [Block(needed, true)] + Merged(bs0[i], rest, needed)[1..];
    assert bs0[i..i + n] == [bs0[i]] + rest[..k];
    LiveWithoutRun(base, bs0, done, i, needed, n);
    LiveApart(base, done, base + Total(done) + Total(bs0[i..i + n]), bs0[i + n..], (base + Total(done) + 1, needed),
        base + Total(done));
    TakenHead(base + Total(done), bs0[i], rest, needed);
    LiveSplit(base, done, head, bs0[i + n..]);
  }

  /** The blocks after the run has been handed out. */
  ghost function Taken(bs0: seq<Block>, done: seq<Block>, i: nat, sz: nat): seq<Block>
    requires i < |bs0|
  {
    var k := Absorbed(bs0[i].size, bs0[i + 1..], sz);
    done + ([Block(sz, true)] + Merged(bs0[i], bs0[i + 1..], sz)[1..]) + bs0[i + 1 + k..]
  }

  lemma {:induction false} RunEndUnique(bs: seq<Block>, i: nat, j: nat, j': nat)
    requires MaximalRun(bs, i, j) && MaximalRun(bs, i, j')
    ensures j' == j
  {
  }

  lemma {:induction false} MergedAligned(b: Block, rest: seq<Block>, needed: nat)
    requires b.size % 2 == 1 && needed % 2 == 1 && Aligned(rest)
    ensures Aligned(Merged(b, rest, needed))
  {
    AlignedTotal(rest[..Absorbed(b.size, rest, needed)]);
  }

  lemma {:induction false} MergeWroteInside(m: seq<Word>, m': seq<Word>, at: nat, b: Block, rest: seq<Block>,
                                            needed: nat)
    requires MergeWrote(m, m', at, b, rest, needed)
    ensures var mid := [b] + rest[..Absorbed(b.size, rest, needed)];
            forall i :: 0 <= i < |m| && !(at <= i < at + Total(mid)) ==> m'[i] == m[i]
  {
    TotalConcat([b], rest[..Absorbed(b.size, rest, needed)]);
    TotalOne(b);
  }

  lemma {:induction false} AlignedParts(done: seq<Block>, b: Block, rest: seq<Block>)
    requires Aligned(done + ([b] + rest))
    ensures b.size % 2 == 1 && Aligned(rest)
  {
    var all := done + ([b] + rest);
    assert b == all[|done|];
    forall i | 0 <= i < |rest| ensures rest[i].size % 2 == 1 {
      assert rest[i] == all[|done| + 1 + i];
    }
  }

  /** Merging from a block on keeps the heap well formed. */
  lemma {:induction false} MergeOk(m: seq<Word>, m': seq<Word>, base: nat, size: nat, offset: nat,
                                   done: seq<Block>, b: Block, rest: seq<Block>, needed: nat)
    requires HeapOk(m, base, size, offset, done + ([b] + rest)) && needed % 2 == 1
    requires MergeWrote(m, m', base + Total(done), b, rest, needed)
    requires Tiles(m', base + Total(done), Merged(b, rest, needed) + rest[Absorbed(b.size, rest, needed)..])
    ensures HeapOk(m', base, size, offset, done + Merged(b, rest, needed) + rest[Absorbed(b.size, rest, needed)..])
  {
    hide Tiles, Total, Merged, ZeroRange;
    var at, k := base + Total(done), Absorbed(b.size, rest, needed);
    var mid, mid', post := [b] + rest[..k], Merged(b, rest, needed), rest[k..];
    assert done + ([b] + rest) == done + mid + post;
    AlignedParts(done, b, rest);
    MergedAligned(b, rest, needed);
    MergedKeepsWords(b, rest, needed);
    MergeWroteInside(m, m', at, b, rest, needed);
    TilesConcat(m', at, mid', post);
    HeapOkReplace(m, m', base, size, offset, done, mid, mid', post);
  }

  /** Merging free blocks keeps all live payloads. */
  lemma {:induction false} MergeKeeps(m: seq<Word>, m': seq<Word>, base: nat,
                                      done: seq<Block>, b: Block, rest: seq<Block>, needed: nat)
    requires MergeWrote(m, m', base + Total(done), b, rest, needed)
    ensures !b.alloc ==> Kept(m, m', Live(base, done + ([b] + rest)))
    ensures Kept(m, m', Live(base, done + ([b] + rest)) - {(base + Total(done) + 1, b.size)})
  {
    hide Live;
    var at, k := base + Total(done), Absorbed(b.size, rest, needed);
    var mid, post := [b] + rest[..k], rest[k..];
    assert done + ([b] + rest) == done + mid + post;
    MergeWroteInside(m, m', at, b, rest, needed);
    KeptOutside(m, m', base, done, mid, post);
    LiveSplit(base, done, mid, post);
    LiveConcat(at, [b], rest[..k]);
    LiveOne(at, b);
    LiveAllFree(at + Total([b]), rest[..k]);
  }

  // ----- the whole step at a free run -----

  lemma {:induction false} KeptTransitive(m: seq<Word>, m': seq<Word>, m'': seq<Word>, live: set<(nat, nat)>, base: nat,
                                          size: nat)
    requires Kept(m, m', live) && Kept(m', m'', live)
    requires SameOutside(m, m', base, size) && SameOutside(m', m'', base, size)
    ensures Kept(m, m'', live) && SameOutside(m, m'', base, size)
  {
  }

  lemma {:induction false} NothingWritten(m: seq<Word>, live: set<(nat, nat)>, base: nat, size: nat)
    ensures Kept(m, m, live) && SameOutside(m, m, base, size)
  {
  }

  /** The walk goes on past an allocated block, or past a run that was too short and is merged now. */
  lemma {:induction false} WalkOn(m: seq<Word>, base: nat, size: nat, bs0: seq<Block>, done: seq<Block>, i: nat,
                                  sz: nat)
    returns (done': seq<Block>, i': nat)
    requires WalkedTo(base, bs0, done, i, sz) && i < |bs0|
    requires bs0[i].alloc ==> HeapOk(m, base, size, size, done + bs0[i..])
    requires !bs0[i].alloc ==>
               && Gathered(bs0[i].size, bs0[i + 1..], sz) < sz
               && var k := Absorbed(bs0[i].size, bs0[i + 1..], sz);
                  HeapOk(m, base, size, size, done + Merged(bs0[i], bs0[i + 1..], sz) + bs0[i + 1 + k..])
    ensures i < i' && WalkedTo(base, bs0, done', i', sz) && HeapOk(m, base, size, size, done' + bs0[i'..])
    ensures base + Total(done) < |m| && Total(done') == Total(done) + HeaderSize(m[base + Total(done)]) + 1
    ensures i' == |bs0| <==> Total(done') + 1 >= size
  {
    var b, k := bs0[i], 0;
    if b.alloc {
      WalkPastAllocated(base, bs0, done, i, sz);
    } else {
      WalkPastShortRun(base, bs0, done, i, sz);
      k := Absorbed(b.size, bs0[i + 1..], sz);
      b := Merged(b, bs0[i + 1..], sz)[0];
    }
    done', i' := done + [b], i + 1 + k;
    NextPtr(m, base, size, done, b, bs0[i'..]);
  }

  /** Everything outside the heap is as before. */
  ghost predicate SameOutside(m: seq<Word>, m': seq<Word>, base: nat, size: nat) {
    |m'| == |m| && forall i :: 0 <= i < |m| && !(base <= i < base + size) ==> m'[i] == m[i]
  }

  /** What the walk finds from block `i` on: a list of blocks that reads to the end of the heap. */
  lemma {:induction false} RunReadable(m: seq<Word>, base: nat, size: nat, bs0: seq<Block>, done: seq<Block>, i: nat)
    requires i < |bs0| && HeapOk(m, base, size, size, done + bs0[i..])
    ensures bs0[i..] == [bs0[i]] + bs0[i + 1..]
    ensures Tiles(m, base + Total(done), [bs0[i]] + bs0[i + 1..])
    ensures Total(done) + Total([bs0[i]] + bs0[i + 1..]) == size < SIZE_LIMIT
    ensures Total(done) < size && base + size <= |m| && m[base + Total(done)] == Header(bs0[i])
  {
    assert bs0[i..] == [bs0[i]] + bs0[i + 1..];
    TilesConcat(m, base, done, bs0[i..]);
    TotalConcat(done, bs0[i..]);
  }

  lemma {:induction false} RunMerged(m: seq<Word>, m': seq<Word>, base: nat, size: nat,
                                     bs0: seq<Block>, done: seq<Block>, i: nat, sz: nat)
    requires WalkedTo(base, bs0, done, i, sz) && i < |bs0| && !bs0[i].alloc && sz % 2 == 1
    requires HeapOk(m, base, size, size, done + bs0[i..])
    requires MergeWrote(m, m', base + Total(done), bs0[i], bs0[i + 1..], sz)
    requires var k := Absorbed(bs0[i].size, bs0[i + 1..], sz);
             Tiles(m', base + Total(done), Merged(bs0[i], bs0[i + 1..], sz) + bs0[i + 1..][k..])
    ensures var k := Absorbed(bs0[i].size, bs0[i + 1..], sz);
            HeapOk(m', base, size, size, done + Merged(bs0[i], bs0[i + 1..], sz) + bs0[i + 1 + k..])
    ensures Kept(m, m', Live(base, bs0)) && SameOutside(m, m', base, size)
  {
    hide Live, Tiles, Merged;
    var b, rest := bs0[i], bs0[i + 1..];
    var k := Absorbed(b.size, rest, sz);
    RunReadable(m, base, size, bs0, done, i);
    WalkedLive(base, bs0, done, i, sz);
    MergeOk(m, m', base, size, size, done, b, rest, sz);
    MergeKeeps(m, m', base, done, b, rest, sz);
    assert rest[k..] == bs0[i + 1 + k..];
    GatheredBounded(b.size, rest, sz);
    TotalConcat([b], rest);
    TotalOne(b);
  }

  lemma {:induction false} RunTaken(m: seq<Word>, m': seq<Word>, base: nat, size: nat,
                                    bs0: seq<Block>, done: seq<Block>, i: nat, sz: nat)
    requires WalkedTo(base, bs0, done, i, sz) && i < |bs0| && !bs0[i].alloc && sz < SIZE_LIMIT
    requires Gathered(bs0[i].size, bs0[i + 1..], sz) >= sz
    requires var k := Absorbed(bs0[i].size, bs0[i + 1..], sz);
             HeapOk(m, base, size, size, done + Merged(bs0[i], bs0[i + 1..], sz) + bs0[i + 1 + k..])
    requires |m'| == |m| && base + Total(done) < |m|
    requires m[base + Total(done)] == Header(Block(sz, false)) ==> m'[base + Total(done)] == Header(Block(sz, true))
    requires forall l :: 0 <= l < |m| && l != base + Total(done) ==> m'[l] == m[l]
    ensures HeapOk(m', base, size, size, Taken(bs0, done, i, sz))
    ensures Live(base, Taken(bs0, done, i, sz)) == Live(base, bs0) + {(base + Total(done) + 1, sz)}
    ensures (base + Total(done) + 1, sz) !in Live(base, bs0)
  {
    hide Tiles, Total, Live, Aligned, ZeroRange, Gathered;
    var rest := bs0[i + 1..];
    var k := Absorbed(bs0[i].size, rest, sz);
    var merged := done + Merged(bs0[i], rest, sz) + bs0[i + 1 + k..];
    var n := |done|;
    assert merged[..n] == done && merged[n] == Block(sz, false);
    HeaderAt(m, base, size, size, merged, n);
    FlagOk(m, m', base, size, size, merged, n, true);
    assert merged[n := Block(sz, true)] == Taken(bs0, done, i, sz);
    WalkFound(base, bs0, done, i, sz);
  }

  /** The header of the run is no part of a live payload. */
  lemma {:induction false} RunHeaderKeeps(m: seq<Word>, m': seq<Word>, m'': seq<Word>, base: nat, size: nat,
                                          bs0: seq<Block>, done: seq<Block>, i: nat, sz: nat)
    requires WalkedTo(base, bs0, done, i, sz) && i < |bs0|
    requires HeapOk(m, base, size, size, done + bs0[i..])
    requires Kept(m, m', Live(base, bs0)) && SameOutside(m, m', base, size) && |m''| == |m|
    requires forall l :: 0 <= l < |m| && l != base + Total(done) ==> m''[l] == m'[l]
    ensures Kept(m, m'', Live(base, bs0)) && SameOutside(m, m'', base, size)
  {
    WalkedLive(base, bs0, done, i, sz);
    var all, n := done + bs0[i..], |done|;
    assert all[..n] == done;
    HeaderAt(m, base, size, size, all, n);
  }

  // ----- writes by the holder of a block -----

  /** A program may write anywhere in a block it holds. */
  lemma {:induction false} PayloadOk(m: seq<Word>, m': seq<Word>, base: nat, size: nat, offset: nat, bs: seq<Block>,
                                     x: (nat, nat))
    requires HeapOk(m, base, size, offset, bs) && |m'| == |m| && x in Live(base, bs)
    requires forall i :: 0 <= i < |m| && !(x.0 <= i < x.0 + x.1) ==> m'[i] == m[i]
    ensures HeapOk(m', base, size, offset, bs)
    ensures Kept(m, m', Live(base, bs) - {x}) && SameOutside(m, m', base, size)
  {
    hide Live, Tiles, Total;
    var k := LiveIndex(base, bs, x);
    var pre, b, post := bs[..k], bs[k], bs[k + 1..];
    SplitAt(bs, k);
    TotalOne(b);
    HeaderAt(m, base, size, offset, bs, k);
    TilesOne(m', base + Total(pre), b);
    HeapOkReplace(m, m', base, size, offset, pre, [b], [b], post);
    KeptOutside(m, m', base, pre, [b], post);
    LiveSplit(base, pre, [b], post);
    LiveOne(base + Total(pre), b);
  }
}
