/**
 Runs that break a heap: two through `realloc_in_place`, and the requests whose sizes wrap.
 */
module HeapFailures {
  import opened HeapBlocks
  import opened Resize
  import opened MemoryHeap
  import opened MemoryManager
  import opened LinearMemory

  method FreshHeap() returns (h: Memory)
    ensures fresh(h) && fresh(h.mem) && h.mem.Length == 4096
    ensures h.Valid() && h.base == 1024 && h.size == 2048 && h.blocks == []
  {
    var mem := new Word[4096](_ => 0);
    h := new Memory(mem);
    h.Init(1024, 2048);
  }

  /**
   Two blocks of one word, the second one freed, and the first grown to seven words: the walk takes memory
   that was never handed out, and the pointer of the next block lies inside the grown one.
   */
  method GrowthIntoUnusedMemory() returns (h: Memory)
    ensures h.base == 1024 && h.size == 2048 && !Shaped(h.mem[..], h.base, h.size, h.offset)
    ensures h.mem.Length == 4096 && h.base + 1 < h.base + h.offset + 1 < h.base + 1 + HeaderSize(h.mem[h.base])
  {
    h := FreshHeap();
    var p := h.Malloc(1);
    assert h.blocks == [Block(1, true)];
    TotalOne(Block(1, true));
    var q := h.Malloc(1);
    assert h.blocks == [Block(1, true), Block(1, true)];
    assert h.blocks[..1] == [Block(1, true)];
    h.Free(q, 1);
    assert h.blocks == [Block(1, true), Block(1, false)];
    assert h.blocks[..0] == [] && h.blocks[1..] == [Block(1, false)];
    TotalOne(Block(1, false));
    var r, was := h.ReallocInPlace(p, 7, 0);
  }

  /** One block of one word, grown to 4001 words in a heap of 2048 that ends at word 3072. */
  method GrowthPastTheEnd() returns (h: Memory)
    ensures h.base == 1024 && h.size == 2048 && !Shaped(h.mem[..], h.base, h.size, h.offset)
  {
    h := FreshHeap();
    var p := h.Malloc(1);
    assert h.blocks == [Block(1, true)];
    assert h.blocks[..0] == [];
    var r, was := h.ReallocInPlace(p, 4001, 0);
  }

  /** Eight bytes before the end of the second page, eight bytes are asked for. */
  lemma {:induction false} ShortGrowth()
    ensures HeapAdj(2 * PAGE - 8) == 8
  {
  }

  /** In every heap there is a size, odd as all sizes are, that passes the test of the bump allocator and cannot fit. */
  lemma {:induction false} WrappedBump(offset: nat, size: nat)
    requires offset <= size < ADDRESS_SPACE && offset % 2 == 0
    ensures exists sz :: sz % 2 == 1 && 0 < sz < ADDRESS_SPACE && BumpPasses(offset, size, sz) && offset + sz + 1 > size
  {
    var sz := ADDRESS_SPACE - 1 - offset;
    assert BumpPasses(offset, size, sz);
  }

  /** In the first heap, while it is empty, that is a request of 0xFFFF_FFFC bytes. */
  lemma {:induction false} WrappedRequest()
    ensures var sz := AdjustToMemBlock(0xFFFF_FFFC) / 4;
            BumpPasses(0, INITIAL_HEAP_WORDS, sz) && sz + 1 > INITIAL_HEAP_WORDS
  {
  }

  /** The three largest requests there are get four bytes, every other one gets what it asks for. */
  lemma {:induction false} AdjustedCovers(n: nat)
    requires n < SIZE_T
    ensures AdjustToMemBlock(n) >= n <==> n <= 0xFFFF_FFFC
    ensures n > 0xFFFF_FFFC ==> AdjustToMemBlock(n) == 4
  {
  }
}
