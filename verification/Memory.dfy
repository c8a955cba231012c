/**
 One heap of the allocator (class `memory`): a region of the linear memory, the number of words
 handed out so far, and the blocks in it. The null pointer is 0; no heap starts there.
 */
module MemoryHeap {
  import opened HeapBlocks
  import opened BufferPtr
  import opened HeapInvariant
  import opened Resize

  /** The subtraction of two `size_t` values, in words. */
  function SubWrapped(a: nat, b: nat): nat
    requires a < ADDRESS_SPACE && b < ADDRESS_SPACE
  {
    (a - b) % ADDRESS_SPACE
  }

  /** The test in front of the in-place cases is exact as long as the subtraction does not wrap. */
  lemma RoomTest(end: nat, ptr: nat, sz: nat)
    requires ptr <= end < ADDRESS_SPACE && sz < ADDRESS_SPACE
    ensures ptr > SubWrapped(end, sz) <==> sz <= end && ptr + sz > end
  {
    if sz > end {
      assert (end - sz) % ADDRESS_SPACE == end - sz + ADDRESS_SPACE;
    }
  }

  lemma SumWrapped(x: nat)
    ensures x < ADDRESS_SPACE ==> x % ADDRESS_SPACE == x
  {
  }

  /** The test of the bump allocator, with its wrapped sum. */
  predicate BumpPasses(offset: nat, size: nat, sz: nat) {
    (offset + sz + 1) % ADDRESS_SPACE <= size
  }

  /** It is exact if and only if the sum does not wrap; if it wraps, any request passes. */
  lemma BumpTestExact(offset: nat, size: nat, sz: nat)
    requires offset <= size < ADDRESS_SPACE && sz < ADDRESS_SPACE
    ensures (BumpPasses(offset, size, sz) <==> offset + sz + 1 <= size) <==> offset + sz + 1 < ADDRESS_SPACE
  {
    if offset + sz + 1 >= ADDRESS_SPACE {
      assert (offset + sz + 1) % ADDRESS_SPACE == offset + sz + 1 - ADDRESS_SPACE;
    }
  }

  class Memory {
    const mem: array<Word>
    var base: nat
    var size: nat
    var offset: nat
    ghost var blocks: seq<Block>

    ghost predicate Valid()
      reads this, mem
    {
      HeapOk(mem[..], base, size, offset, blocks)
    }

    ghost function LiveBlocks(): set<(nat, nat)>
      reads this
    {
      Live(base, blocks)
    }

    ghost function PtrAt(k: nat): nat
      requires k < |blocks|
      reads this
    {
      base + Total(blocks[..k]) + 1
    }

    constructor (mem: array<Word>)
      ensures this.mem == mem && base == 0 && size == 0 && offset == 0 && blocks == []
    {
      this.mem := mem;
      base, size, offset := 0, 0, 0;
      blocks := [];
    }

    method Init(memHeap: nat, size: nat)
      requires offset == 0 && blocks == []
      requires 1 <= memHeap && memHeap + size <= mem.Length && size < SIZE_LIMIT && size % 2 == 0
      requires ZeroRange(mem[..], memHeap, memHeap + size)
      modifies this`base, this`size
      ensures base == memHeap && this.size == size && Valid()
    {
      this.size := size;
      base := memHeap;
    }

    predicate IsInit()
      reads this
    {
      base != 0
    }

    predicate IsInHeap(ptr: nat)
      reads this
    {
      base + 1 <= ptr < base + size
    }

    /** Bump allocation at the offset. */
    method Malloc(sz: nat) returns (p: nat)
      requires Valid() && sz % 2 == 1 && offset + sz + 1 < ADDRESS_SPACE
      modifies this`offset, this`blocks, mem
      ensures Valid()
      ensures p == 0 <==> old(offset) + sz + 1 > size
      ensures p == 0 ==> offset == old(offset) && blocks == old(blocks) && mem[..] == old(mem[..])
      ensures p != 0 ==>
                && p == base + old(offset) + 1 && offset == old(offset) + sz + 1
                && blocks == old(blocks) + [Block(sz, true)]
      ensures forall i :: 0 <= i < mem.Length && i != base + old(offset) ==> mem[i] == old(mem[i])
    {
      if !BumpPasses(offset, size, sz) {
        return 0;
      }
      ghost var m := mem[..];
      p := base + offset + 1;
      mem[p - 1] := WithSize(mem[p - 1], sz);
      mem[p - 1] := MarkAlloc(mem[p - 1]);
      HeapOkAppend(m, mem[..], base, size, offset, blocks, Block(sz, true));
      offset := offset + sz + 1;
      blocks := blocks + [Block(sz, true)];
    }

    method Free(ptr: nat, ghost k: nat)
      requires Valid() && k < |blocks| && ptr == PtrAt(k)
      modifies this`blocks, mem
      ensures Valid() && blocks == old(blocks)[k := Block(old(blocks)[k].size, false)]
      ensures forall i :: 0 <= i < mem.Length && i != ptr - 1 ==> mem[i] == old(mem[i])
    {
      ghost var m := mem[..];
      HeaderAt(m, base, size, offset, blocks, k);
      mem[ptr - 1] := MarkFree(mem[ptr - 1]);
      FlagOk(m, mem[..], base, size, offset, blocks, k, false);
      blocks := blocks[k := Block(blocks[k].size, false)];
    }

    /**
     The walk stands at free block `bs0[i]`, everything below reads as `done`. Merge the run that
     starts here and hand its first `sz` words out if there are enough.
     */
    method TakeRun(current: nat, sz: nat, ghost bs0: seq<Block>, ghost done: seq<Block>, ghost i: nat)
      returns (ok: bool)
      requires offset == size && sz % 2 == 1
      requires WalkedTo(base, bs0, done, i, sz) && i < |bs0| && !bs0[i].alloc
      requires HeapOk(mem[..], base, size, size, done + bs0[i..])
      requires current == base + Total(done) + 1
      modifies mem
      ensures ok <==> Gathered(bs0[i].size, bs0[i + 1..], sz) >= sz
      ensures ok ==>
                && HeapOk(mem[..], base, size, size, Taken(bs0, done, i, sz))
                && Live(base, Taken(bs0, done, i, sz)) == Live(base, bs0) + {(current, sz)}
                && (current, sz) !in Live(base, bs0)
      ensures !ok ==>
                var k := Absorbed(bs0[i].size, bs0[i + 1..], sz);
                HeapOk(mem[..], base, size, size, done + Merged(bs0[i], bs0[i + 1..], sz) + bs0[i + 1 + k..])
      ensures Kept(old(mem[..]), mem[..], Live(base, bs0))
      ensures SameOutside(old(mem[..]), mem[..], base, size)
    {
      hide *;
      ghost var m, lo, n := mem[..], base, size;
      RunReadable(m, lo, n, bs0, done, i);
      ok := MergeContiguous(mem, current, base + size, sz, false, bs0[i], bs0[i + 1..]);
      RunMerged(m, mem[..], lo, n, bs0, done, i, sz);
      if ok {
        HandOut(current, sz, m, bs0, done, i);
      }
    }

    /** The merged run becomes an allocated block. */
    method HandOut(current: nat, sz: nat, ghost m: seq<Word>, ghost bs0: seq<Block>, ghost done: seq<Block>,
                   ghost i: nat)
      requires WalkedTo(base, bs0, done, i, sz) && i < |bs0| && !bs0[i].alloc && sz < SIZE_LIMIT
      requires HeapOk(m, base, size, size, done + bs0[i..]) && current == base + Total(done) + 1
      requires Gathered(bs0[i].size, bs0[i + 1..], sz) >= sz
      requires var k := Absorbed(bs0[i].size, bs0[i + 1..], sz);
               HeapOk(mem[..], base, size, size, done + Merged(bs0[i], bs0[i + 1..], sz) + bs0[i + 1 + k..])
      requires Kept(m, mem[..], Live(base, bs0)) && SameOutside(m, mem[..], base, size)
      requires current <= mem.Length && mem[current - 1] == Header(Block(sz, false))
      modifies mem
      ensures HeapOk(mem[..], base, size, size, Taken(bs0, done, i, sz))
      ensures Live(base, Taken(bs0, done, i, sz)) == Live(base, bs0) + {(current, sz)}
      ensures (current, sz) !in Live(base, bs0)
      ensures Kept(m, mem[..], Live(base, bs0)) && SameOutside(m, mem[..], base, size)
    {
      hide HeapOk, WalkedTo, Tiles, Live, Total, Gathered, Merged, Taken, Header, MarkAlloc;
      ghost var m' := mem[..];
      AllocHeader(Block(sz, false));
      mem[current - 1] := MarkAlloc(mem[current - 1]);
      RunTaken(m', mem[..], base, size, bs0, done, i, sz);
      RunHeaderKeeps(m, m', mem[..], base, size, bs0, done, i, sz);
    }

    /** One round of the first-fit walk at block `bs0[i]`. */
    method WalkStep(current: nat, sz: nat, ghost bs0: seq<Block>, ghost done: seq<Block>, ghost i: nat)
      returns (found: bool, next: nat, ghost done': seq<Block>, ghost i': nat)
      requires offset == size && sz % 2 == 1
      requires WalkedTo(base, bs0, done, i, sz) && i < |bs0|
      requires HeapOk(mem[..], base, size, size, done + bs0[i..])
      requires current == base + Total(done) + 1
      modifies mem
      ensures found <==> !bs0[i].alloc && Gathered(bs0[i].size, bs0[i + 1..], sz) >= sz
      ensures found ==>
                && HeapOk(mem[..], base, size, size, done')
                && Live(base, done') == Live(base, bs0) + {(current, sz)} && (current, sz) !in Live(base, bs0)
      ensures !found ==>
                && i < i' && WalkedTo(base, bs0, done', i', sz)
                && HeapOk(mem[..], base, size, size, done' + bs0[i'..])
                && next == if i' == |bs0| then 0 else base + Total(done') + 1
      ensures Kept(old(mem[..]), mem[..], Live(base, bs0)) && SameOutside(old(mem[..]), mem[..], base, size)
    {
      hide HeapOk, WalkedTo, Tiles, Live;
      RunReadable(mem[..], base, size, bs0, done, i);
      found := false;
      if !HeaderIsAlloc(mem[current - 1]) {
        found := TakeRun(current, sz, bs0, done, i);
        if found {
          return found, 0, Taken(bs0, done, i, sz), i;
        }
      }
      done', i' := WalkOn(mem[..], base, size, bs0, done, i, sz);
      next := current + HeaderSize(mem[current - 1]) + 1;
      next := if next >= base + size then 0 else next;
    }

    /**
     First fit over the freed blocks of a full heap. Adjacent free blocks are merged on the way, so
     the walk tries exactly the maximal runs, lowest first.
     */
    method MallocFromFreed(sz: nat) returns (p: nat, ghost i: nat, ghost j: nat)
      requires Valid() && sz % 2 == 1 && size > 0
      requires offset == size
      modifies this`blocks, mem
      ensures Valid()
      ensures p == 0 ==> NoFitBelow(old(blocks), |old(blocks)|, sz) && LiveBlocks() == old(LiveBlocks())
      ensures p == 0 ==> NoFitBelow(blocks, |blocks|, sz)
      ensures p != 0 ==>
                && Fits(old(blocks), i, j, sz) && NoFitBelow(old(blocks), i, sz)
                && p == base + Total(old(blocks)[..i]) + 1
                && LiveBlocks() == old(LiveBlocks()) + {(p, sz)} && (p, sz) !in old(LiveBlocks())
      ensures Kept(old(mem[..]), mem[..], old(LiveBlocks()))
      ensures SameOutside(old(mem[..]), mem[..], base, size)
    {
      ghost var bs0, m0 := blocks, mem[..];
      ghost var done: seq<Block> := [];
      i, j := 0, 0;
      assert bs0[..0] == [] && bs0[0..] == bs0 && [] + bs0 == bs0;
      var current := base + 1;
      while current != 0
        invariant WalkedTo(base, bs0, done, i, sz)
        invariant HeapOk(mem[..], base, size, size, done + bs0[i..])
        invariant Kept(m0, mem[..], Live(base, bs0)) && SameOutside(m0, mem[..], base, size)
        invariant current == if i == |bs0| then 0 else base + Total(done) + 1
        decreases |bs0| - i
      {
        ghost var m := mem[..];
        var found, next;
        ghost var done', i';
        found, next, done', i' := WalkStep(current, sz, bs0, done, i);
        KeptTransitive(m0, m, mem[..], Live(base, bs0), base, size);
        if found {
          j := MergeDecidesFit(bs0, i, sz);
          blocks := done';
          return current, i, j;
        }
        current, done, i := next, done', i';
      }
      assert bs0[..i] == bs0 && bs0[i..] == [] && done + [] == done;
      ShortRunsNoFit(done, sz);
      blocks := done;
      p := 0;
    }

    /** The last block grows by moving the offset. */
    method GrowLast(ptr: nat, origSize: nat, sz: nat, ghost k: nat)
      requires Valid() && k == |blocks| - 1 && blocks[k].alloc && ptr == PtrAt(k)
      requires blocks[k].size == origSize <= sz && sz % 2 == 1 && sz < ADDRESS_SPACE
      requires ptr + sz <= base + size || sz > base + size
      modifies this`offset, this`blocks, mem
      ensures Shaped(mem[..], base, size, offset) <==> InPlaceSafe(base, size, old(blocks), k, sz)
      ensures InPlaceSafe(base, size, old(blocks), k, sz) ==>
                && Valid() && offset == old(offset) + (sz - origSize) && blocks == old(blocks)[k := Block(sz, true)]
                && ResizedTo(old(mem[..]), mem[..], base, size, old(blocks), blocks, k, sz)
      ensures sz < SIZE_LIMIT ==> ptr <= mem.Length && mem[ptr - 1] == Header(Block(sz, true))
    {
      hide Live, Tiles, Total, Header, HeaderSize, WithSize, ResizedTo, Aligned;
      ghost var m := mem[..];
      HeaderAt(m, base, size, offset, blocks, k);
      LastSplit(blocks);
      mem[ptr - 1] := WithSize(mem[ptr - 1], sz);
      SumWrapped(offset + (sz - origSize));
      if ptr + sz <= base + size {
        GrowLastOk(m, mem[..], base, size, offset, blocks, k, sz);
      } else {
        GrowLastBreaks(mem[..], base, size, offset, blocks, k, sz);
      }
      offset := (offset + (sz - origSize)) % ADDRESS_SPACE;
      blocks := blocks[..k] + [Block(sz, true)];
    }

    /** Any other block grows over the free blocks after it. */
    method GrowOver(ptr: nat, sz: nat, ghost k: nat) returns (ok: bool)
      requires Valid() && k < |blocks| - 1 && blocks[k].alloc && ptr == PtrAt(k)
      requires blocks[k].size < sz && sz % 2 == 1
      requires ptr + sz <= base + size || sz > base + size
      modifies this`blocks, mem
      ensures Shaped(mem[..], base, size, offset) <==> InPlaceSafe(base, size, old(blocks), k, sz)
      ensures ok && InPlaceSafe(base, size, old(blocks), k, sz) ==>
                Valid() && ResizedTo(old(mem[..]), mem[..], base, size, old(blocks), blocks, k, sz)
      ensures !ok ==> Valid() && blocks == old(blocks) && mem[..] == old(mem[..])
      ensures ok && sz < SIZE_LIMIT ==> ptr <= mem.Length && mem[ptr - 1] == Header(Block(sz, true))
      ensures ok <==> Gathered(old(blocks)[k].size, old(blocks)[k + 1..] + Zeros(size - offset), sz) >= sz
    {
      hide Live, Tiles, Total, Gathered, Merged, InPlaceSafe;
      ghost var m, bs, lo, n, off := mem[..], blocks, base, size, offset;
      ghost var rest := bs[k + 1..] + Zeros(n - off);
      ReadToEnd(m, lo, n, off, bs, k);
      HeaderAt(m, lo, n, off, bs, k);
      ok := MergeContiguous(mem, ptr, base + size, sz, true, bs[k], rest);
      ghost var m' := mem[..];
      if ok {
        GrowOverDone(m, m', lo, n, off, bs, k, sz, ptr - 1);
        mem[ptr - 1] := MarkAlloc(mem[ptr - 1]);
        assert mem[..] == m';
        ghost var a := bs[k + 1..];
        blocks := bs[..k] + Merged(bs[k], a, sz) + a[Absorbed(bs[k].size, a, sz)..];
      } else if !InPlaceSafe(lo, n, bs, k, sz) {
        UnsafeWalkOverruns(lo, n, off, bs, k, sz);
      }
    }

    /**
     Resize the block at `ptr` without moving it; `p` is 0 if that is not possible. A pointer whose
     header reaches past the end of the heap is turned down.
     */
    method ReallocInPlace(ptr: nat, sz: nat, ghost k: nat) returns (p: nat, origSize: nat)
      requires Valid() && base + size < ADDRESS_SPACE && sz % 2 == 1 && sz < ADDRESS_SPACE
      requires 1 <= ptr <= mem.Length
      requires ptr + HeaderSize(mem[ptr - 1]) <= base + size ==>
                 k < |blocks| && blocks[k].alloc && ptr == PtrAt(k)
      modifies this`offset, this`blocks, mem
      ensures old(ptr + HeaderSize(mem[ptr - 1])) > base + size ==> p == 0 && origSize == 0
      ensures old(ptr + HeaderSize(mem[ptr - 1])) <= base + size ==>
                && origSize == old(blocks)[k].size && (p == 0 || p == ptr)
                && (Shaped(mem[..], base, size, offset) <==> InPlaceSafe(base, size, old(blocks), k, sz))
                && (InPlaceSafe(base, size, old(blocks), k, sz) && p != 0 ==>
                      && Valid() && offset >= old(offset)
                      && ResizedTo(old(mem[..]), mem[..], base, size, old(blocks), blocks, k, sz))
      ensures p == 0 ==> Valid() && offset == old(offset) && blocks == old(blocks) && mem[..] == old(mem[..])
      ensures old(ptr + HeaderSize(mem[ptr - 1])) <= base + size ==>
                && (p == 0 <==> TurnedDown(base, size, old(blocks), k, sz))
                && (k < |old(blocks)| - 1 || sz <= origSize ==> offset == old(offset))
                && (sz <= origSize ==> blocks == old(blocks))
                && (k == |old(blocks)| - 1 && p != 0 && sz > origSize && InPlaceSafe(base, size, old(blocks), k, sz) ==>
                      offset == old(offset) + (sz - origSize) && blocks == old(blocks)[k := Block(sz, true)])
                && (p != 0 && origSize < sz < SIZE_LIMIT ==> mem[ptr - 1] == Header(Block(sz, true)))
                && (sz < origSize ==> ShrunkAt(old(mem[..]), mem[..], ptr, sz, origSize))
      ensures old(ptr + HeaderSize(mem[ptr - 1])) <= base + size && InPlaceSafe(base, size, old(blocks), k, sz) ==>
                && Kept(old(mem[..]), mem[..], old(LiveBlocks()) - {(ptr, origSize)})
                && SameOutside(old(mem[..]), mem[..], base, size)
    {
      hide Live, Tiles, Total, Aligned, ZeroRange, InPlaceSafe, Kept, SameOutside;
      hide Header, HeaderSize, HeaderIsAlloc, WithSize, MarkFree, Gathered;
      var end := base + size;
      origSize := HeaderSize(mem[ptr - 1]);
      if ptr + origSize > end {
        return 0, 0;
      }
      ghost var m := mem[..];
      HeaderAt(m, base, size, offset, blocks, k);
      NothingWritten(m, LiveBlocks() - {(ptr, origSize)}, base, size);
      LastIffAtOffset(blocks, k);
      RoomTest(end, ptr, sz);
      if ptr > SubWrapped(end, sz) {
        NoRoomSafe(base, size, blocks, k, sz);
        return 0, origSize;
      }
      if origSize > sz {
        var newPtr := ptr + sz + 1;
        FreeHeader(mem[newPtr - 1], origSize - sz);
        mem[newPtr - 1] := WithSize(mem[newPtr - 1], origSize - sz);
        mem[newPtr - 1] := MarkFree(mem[newPtr - 1]);
        ShrinkOk(m, mem[..], base, size, offset, blocks, k, sz);
        return ptr, origSize;
      } else if ptr + origSize == base + offset {
        SameSizeOk(m, base, size, offset, blocks, k);
        ghost var bs := blocks;
        GrowLast(ptr, origSize, sz, k);
        assert bs[k := bs[k]] == bs;
        return ptr, origSize;
      }
      if sz == origSize {
        SameSizeOk(m, base, size, offset, blocks, k);
        return ptr, origSize;
      }
      var ok := GrowOver(ptr, sz, k);
      return if ok then ptr else 0, origSize;
    }

    /** `ReallocInPlace` for a live block. */
    method ResizeLive(ptr: nat, sz: nat, ghost k: nat) returns (p: nat, origSize: nat)
      requires Valid() && base + size < ADDRESS_SPACE && sz % 2 == 1 && sz < ADDRESS_SPACE
      requires k < |blocks| && blocks[k].alloc && ptr == PtrAt(k)
      modifies this`offset, this`blocks, mem
      ensures origSize == old(blocks)[k].size && (p == 0 || p == ptr)
      ensures p == 0 <==> TurnedDown(base, size, old(blocks), k, sz)
      ensures p == 0 ==> Valid() && offset == old(offset) && blocks == old(blocks) && mem[..] == old(mem[..])
      ensures !InPlaceSafe(base, size, old(blocks), k, sz) ==> !Valid()
      ensures InPlaceSafe(base, size, old(blocks), k, sz) ==>
                && Valid() && offset >= old(offset)
                && (p != 0 ==> ResizedTo(old(mem[..]), mem[..], base, size, old(blocks), blocks, k, sz))
                && Kept(old(mem[..]), mem[..], old(LiveBlocks()) - {(ptr, origSize)})
                && SameOutside(old(mem[..]), mem[..], base, size)
    {
      HeaderAt(mem[..], base, size, offset, blocks, k);
      p, origSize := ReallocInPlace(ptr, sz, k);
    }

    /** What is left past the offset becomes one free block; the heap is full afterwards. */
    method CleanupRemaining()
      requires Valid()
      modifies this`offset, this`blocks, mem
      ensures Valid() && offset == size
      ensures Live(base, blocks) == Live(base, old(blocks)) && blocks == Filled(old(blocks), size - old(offset))
      ensures forall i :: 0 <= i < mem.Length && i != base + old(offset) ==> mem[i] == old(mem[i])
      ensures old(offset) == size ==> mem[..] == old(mem[..])
    {
      hide Live, Tiles, Total;
      if offset == size {
        return;
      }
      AlignedTotal(blocks);
      ghost var m := mem[..];
      var rest := size - offset - 1;
      mem[base + offset] := WithSize(mem[base + offset], rest);
      mem[base + offset] := MarkFree(mem[base + offset]);
      HeapOkAppend(m, mem[..], base, size, offset, blocks, Block(rest, false));
      LiveAppend(base, blocks, Block(rest, false));
      offset := size;
      blocks := blocks + [Block(rest, false)];
    }

    method ExpandMemory(expMem: nat, more: nat) returns (ok: bool)
      requires Valid()
      requires base + size == expMem ==>
                 && base + size + more <= mem.Length && size + more < SIZE_LIMIT && more % 2 == 0
                 && ZeroRange(mem[..], base + size, base + size + more)
      modifies this`size
      ensures Valid()
      ensures ok <==> base + old(size) == expMem
      ensures size == old(size) + if ok then more else 0
    {
      if base + size != expMem {
        return false;
      }
      size := size + more;
      return true;
    }
  }
}
