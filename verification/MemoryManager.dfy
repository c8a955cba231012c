/**
 The allocator itself (class `memory_manager`): a static first heap, further heaps from `sbrk`, bump
 allocation until the host refuses to grow, and first fit over freed blocks from then on.
 */
module MemoryManager {
  import opened HeapBlocks
  import opened HeapInvariant
  import opened Resize
  import opened MemoryHeap
  import opened LinearMemory

  const HEAPS_SIZE: nat := 16
  /** `_initial_heap_size`, 8192 bytes */
  const INITIAL_HEAP_WORDS: nat := 2048
  /** Requests up to here wrap in no heap, whatever its offset. */
  const MAX_REQUEST: nat := 0x7FFF_FFFC

  /** `adjust_to_mem_block`, in bytes: the next size whose footprint is a multiple of 8. */
  function AdjustToMemBlock(n: nat): (r: nat)
    requires n < SIZE_T
    ensures (r + 4) % 8 == 0 && r < SIZE_T && (n > 0 ==> r > 0)
    ensures n <= 0xFFFF_FFFC ==> n <= r < n + 8
    ensures n <= MAX_REQUEST ==> r <= MAX_REQUEST
  {
    Remainder(n);
    var remainder := ((n + 4) % SIZE_T) % 8;
    if remainder > 0 then (n + (8 - remainder)) % SIZE_T else n
  }

  /** What the rounding comes to, before and after the sums wrap. */
  lemma {:induction false} Remainder(n: nat)
    requires n < SIZE_T
    ensures var q, remainder := (n + 4) / 8, ((n + 4) % SIZE_T) % 8;
            if n < 0xFFFF_FFFC then n == 8 * q + remainder - 4 && 0 <= remainder < 8 && 8 * q + 8 <= SIZE_T
            else remainder == n - 0xFFFF_FFFC
  {
    if n < 0xFFFF_FFFC {
      assert (n + 4) % SIZE_T == n + 4;
    } else {
      assert (n + 4) % SIZE_T == n - 0xFFFF_FFFC;
    }
  }

  /** The block size in words that a request of `n` bytes gets. */
  function BlockWords(n: nat): (r: nat)
    requires n < SIZE_T
    ensures r % 2 == 1 && r < ADDRESS_SPACE && 4 * r == AdjustToMemBlock(n)
    ensures n <= 0xFFFF_FFFC ==> n <= 4 * r < n + 8
    ensures n <= MAX_REQUEST ==> r < SIZE_LIMIT
  {
    WholeWords(AdjustToMemBlock(n));
    AdjustToMemBlock(n) / 4
  }

  lemma {:induction false} WholeWords(bytes: nat)
    requires (bytes + 4) % 8 == 0 && bytes < SIZE_T
    ensures (bytes / 4) % 2 == 1 && 4 * (bytes / 4) == bytes && bytes / 4 < ADDRESS_SPACE
    ensures bytes <= MAX_REQUEST ==> bytes / 4 < SIZE_LIMIT
  {
    var q := (bytes + 4) / 8;
    assert bytes == 4 * (2 * q - 1);
    assert bytes / 4 == 2 * q - 1;
  }

  lemma {:induction false} AdjustedAgain(n: nat)
    requires n < SIZE_T
    ensures AdjustToMemBlock(n) < SIZE_T && BlockWords(AdjustToMemBlock(n)) == BlockWords(n) == AdjustToMemBlock(n) / 4
    ensures n > 0 ==> AdjustToMemBlock(n) > 0
  {
  }

  lemma PairOfPages(cur: nat)
    ensures cur % PAGE == if cur % (2 * PAGE) < PAGE then cur % (2 * PAGE) else cur % (2 * PAGE) - PAGE
  {
    var q, t := cur / (2 * PAGE), cur % (2 * PAGE);
    assert cur == 2 * PAGE * q + t;
    if t < PAGE {
      InPage(2 * q, t);
    } else {
      InPage(2 * q + 1, t - PAGE);
    }
  }

  /** Break and pages before a request for the rest of the page. */
  lemma {:induction false} PageFacts(pages: nat)
    ensures pages * PAGE % PAGE == 0 && RoundUp8(0) == 0 && RoundUp8(PAGE) == PAGE
  {
  }

  lemma {:induction false} OnePageMore(pages: nat)
    ensures PagesFor(pages * PAGE) == pages && PagesFor(pages * PAGE + PAGE) == pages + 1
  {
  }

  /** The pages to add to a heap until a block of `sz` words fits at the offset. */
  function MorePages(offset: nat, size: nat, sz: nat): nat
    decreases offset + sz + 1 - size
  {
    if offset + sz + 1 <= size then 0 else 1 + MorePages(offset, size + PAGE_WORDS, sz)
  }

  /** They are enough, and one fewer is not. */
  lemma {:induction false} MorePagesLeast(offset: nat, size: nat, sz: nat)
    ensures var g := MorePages(offset, size, sz);
            offset + sz + 1 <= size + g * PAGE_WORDS && (g > 0 ==> offset + sz + 1 > size + (g - 1) * PAGE_WORDS)
    decreases offset + sz + 1 - size
  {
    if offset + sz + 1 > size {
      MorePagesLeast(offset, size + PAGE_WORDS, sz);
    }
  }

  lemma {:induction false} EndOfPage(cur: nat)
    ensures (cur + PAGE - cur % PAGE) % PAGE == 0 && (cur + 2 * PAGE - cur % (2 * PAGE)) % (2 * PAGE) == 0
  {
    var q, h := cur / PAGE, cur / (2 * PAGE);
    assert cur + PAGE - cur % PAGE == PAGE * (q + 1);
    assert cur + 2 * PAGE - cur % (2 * PAGE) == 2 * PAGE * (h + 1);
    InPage(q + 1, 0);
    assert (2 * PAGE * (h + 1)) % (2 * PAGE) == 0;
  }

  lemma InPage(k: nat, r: nat)
    requires r < 65536
    ensures (65536 * k + r) % 65536 == r
  {
  }

  /**
   How far to move the break: to the end of the page, or of the next one if less than 1 KiB is left.
   The second case counts from pairs of pages, so in the last 1 KiB of an odd page it stops at the
   end of that same page.
   */
  function HeapAdj(cur: nat): (r: nat)
    ensures 0 < r <= 2 * PAGE
    ensures if cur % PAGE <= PAGE - 1024 then r <= PAGE && (cur + r) % PAGE == 0 else (cur + r) % (2 * PAGE) == 0
    ensures r < 1024 <==> cur % (2 * PAGE) > 2 * PAGE - 1024
    ensures cur % PAGE == 0 ==> r == PAGE
  {
    PairOfPages(cur);
    EndOfPage(cur);
    if cur % PAGE <= PAGE - 1024 then cur + PAGE - cur % PAGE - cur
    else cur + PAGE * 2 - cur % (PAGE * 2) - cur
  }

  lemma {:induction false} NothingToFill(bs: seq<Block>)
    ensures Filled(bs, 0) == bs
  {
  }

  /** A heap elsewhere is not touched. */
  lemma {:induction false} OtherHeap(m: seq<Word>, m': seq<Word>, base: nat, size: nat,
                                     base': nat, size': nat, offset': nat, bs': seq<Block>)
    requires SameOutside(m, m', base, size) && HeapOk(m, base', size', offset', bs')
    requires base + size <= base' || base' + size' <= base
    ensures HeapOk(m', base', size', offset', bs')
    ensures Kept(m, m', Live(base', bs'))
  {
    HeapOkFrame(m, m', base', size', offset', bs');
    forall x, i | x in Live(base', bs') && x.0 <= i < x.0 + x.1 && i < |m| ensures m'[i] == m[i] {
      LiveInside(base', bs', x);
    }
  }

  lemma {:induction false} PastOffset(base: nat, bs: seq<Block>, sz: nat)
    ensures (base + Total(bs) + 1, sz) !in Live(base, bs)
  {
    if (base + Total(bs) + 1, sz) in Live(base, bs) {
      LiveInside(base, bs, (base + Total(bs) + 1, sz));
    }
  }

  /** A write at the offset is outside every live payload. */
  lemma {:induction false} CleanupKeeps(m: seq<Word>, m': seq<Word>, base: nat, size: nat, offset: nat, bs: seq<Block>)
    requires HeapOk(m, base, size, offset, bs) && |m'| == |m|
    requires forall i :: 0 <= i < |m| && i != base + offset ==> m'[i] == m[i]
    requires offset == size ==> m' == m
    ensures Kept(m, m', Live(base, bs)) && SameOutside(m, m', base, size)
  {
    forall x, i | x in Live(base, bs) && x.0 <= i < x.0 + x.1 && i < |m| ensures m'[i] == m[i] {
      LiveInside(base, bs, x);
    }
  }

  /** Freeing block `k` takes exactly it out of the live blocks. */
  lemma {:induction false} FreedLive(base: nat, bs: seq<Block>, k: nat)
    requires k < |bs| && bs[k].alloc
    ensures var x := (base + Total(bs[..k]) + 1, bs[k].size);
            Live(base, bs[k := Block(bs[k].size, false)]) == Live(base, bs) - {x}
  {
    var pre, b, b', post := bs[..k], bs[k], Block(bs[k].size, false), bs[k + 1..];
    var at, after := base + Total(pre), base + Total(pre) + Foot(b);
    assert Live(base, bs) == Live(base, pre) + {(at + 1, b.size)} + Live(after, post) by {
      assert bs == pre + [b] + post;
      LiveSplit(base, pre, [b], post);
      LiveOne(at, b);
      TotalOne(b);
    }
    assert Live(base, bs[k := b']) == Live(base, pre) + Live(after, post) by {
      assert bs[k := b'] == pre + [b'] + post;
      LiveSplit(base, pre, [b'], post);
      LiveOne(at, b');
      TotalOne(b');
    }
    LiveApart(base, pre, after, post, (at + 1, b.size), at);
  }

  lemma {:induction false} HeaderKeeps(m: seq<Word>, m': seq<Word>, base: nat, size: nat, offset: nat, bs: seq<Block>,
                                       k: nat)
    requires HeapOk(m, base, size, offset, bs) && k < |bs| && |m'| == |m|
    requires forall i :: 0 <= i < |m| && i != base + Total(bs[..k]) ==> m'[i] == m[i]
    ensures Kept(m, m', Live(base, bs)) && SameOutside(m, m', base, size)
  {
    HeaderAt(m, base, size, offset, bs, k);
  }

  lemma {:induction false} ApartFrom(base: nat, size: nat, base': nat, size': nat, bs': seq<Block>, x: (nat, nat))
    requires base + size <= base' || base' + size' <= base
    requires base < x.0 <= base + size && Total(bs') <= size'
    ensures x !in Live(base', bs')
  {
    if x in Live(base', bs') {
      LiveInside(base', bs', x);
    }
  }

  lemma {:induction false} PlaceUnique(bs: seq<Block>, k: nat, k': nat)
    requires k < |bs| && k' < |bs| && Total(bs[..k]) == Total(bs[..k'])
    ensures k == k'
  {
    var lo, hi := if k < k' then k else k', if k < k' then k' else k;
    assert bs[..hi] == bs[..lo] + bs[lo..hi];
    TotalConcat(bs[..lo], bs[lo..hi]);
  }

  lemma MinusOne(a: set<(nat, nat)>, b: set<(nat, nat)>, x: (nat, nat))
    requires x !in b
    ensures (a - {x}) + b == (a + b) - {x} && b + (a - {x}) == (b + a) - {x}
  {
  }

  lemma SwapOne(a: set<(nat, nat)>, b: set<(nat, nat)>, x: (nat, nat), y: (nat, nat))
    requires x !in b
    ensures (a - {x} + {y}) + b == (a + b) - {x} + {y} && b + (a - {x} + {y}) == (b + a) - {x} + {y}
    ensures (a - {x}) + b == (a + b) - {x} && b + (a - {x}) == (b + a) - {x}
  {
  }

  lemma {:induction false} KeptSame(m: seq<Word>, live: set<(nat, nat)>)
    ensures Kept(m, m, live)
  {
  }

  lemma {:induction false} KeptOn(m: seq<Word>, m': seq<Word>, m'': seq<Word>, live: set<(nat, nat)>)
    requires Kept(m, m', live) && Kept(m', m'', live)
    ensures Kept(m, m'', live)
  {
  }

  lemma KeptUnion(m: seq<Word>, m': seq<Word>, a: set<(nat, nat)>, b: set<(nat, nat)>)
    requires Kept(m, m', a) && Kept(m, m', b)
    ensures Kept(m, m', a + b) && Kept(m, m', b + a)
  {
  }

  lemma KeptSubset(m: seq<Word>, m': seq<Word>, a: set<(nat, nat)>, b: set<(nat, nat)>)
    requires Kept(m, m', a) && b <= a
    ensures Kept(m, m', b)
  {
  }

  /** The first words of both blocks agree. */
  ghost predicate SameStart(m: seq<Word>, p: nat, m': seq<Word>, p': nat, n: nat) {
    p + n <= |m| && p' + n <= |m'| && m[p..p + n] == m'[p'..p' + n]
  }

  /** Allocate, copy, free: the contents arrive and nothing else changes. */
  lemma {:induction false} Moved(m0: seq<Word>, m1: seq<Word>, m2: seq<Word>, m3: seq<Word>, live0: set<(nat, nat)>,
                                 x: (nat, nat), y: (nat, nat), n: nat)
    requires x in live0 && y !in live0 && n <= x.1 && n <= y.1
    requires Kept(m0, m1, live0)
    requires x.0 + n <= |m1| == |m2| && y.0 + n <= |m2| && m2[y.0..y.0 + n] == m1[x.0..x.0 + n]
    requires Kept(m1, m2, live0 + {y} - {y})
    requires Kept(m2, m3, live0 + {y})
    ensures Kept(m0, m3, live0 - {x}) && SameStart(m0, x.0, m3, y.0, n)
    ensures live0 + {y} - {x} == live0 - {x} + {y}
  {
    assert live0 + {y} - {y} == live0;
    forall z, i | z in live0 - {x} && z.0 <= i < z.0 + z.1 && i < |m0| ensures m3[i] == m0[i] {
      assert z in live0 && z in live0 + {y};
    }
    assert m1[x.0..x.0 + n] == m0[x.0..x.0 + n];
    assert m3[y.0..y.0 + n] == m2[y.0..y.0 + n] by {
      assert y in live0 + {y};
    }
  }

  /** `memcpy` between two ranges that do not meet. */
  method CopyRange(mem: array<Word>, dst: nat, src: nat, n: nat)
    requires dst + n <= mem.Length && src + n <= mem.Length && (dst + n <= src || src + n <= dst)
    modifies mem
    ensures mem[dst..dst + n] == old(mem[..])[src..src + n]
    ensures forall j :: 0 <= j < mem.Length && !(dst <= j < dst + n) ==> mem[j] == old(mem[j])
  {
    ghost var m := mem[..];
    for i := 0 to n
      invariant forall k :: dst <= k < dst + i ==> mem[k] == m[src + (k - dst)]
      invariant forall j :: 0 <= j < mem.Length && !(dst <= j < dst + i) ==> mem[j] == m[j]
    {
      mem[dst + i] := mem[src + i];
    }
  }

  class Manager {
    const lin: Linear
    /** Address of `_initial_heap`; the tables of the manager follow it below the first break. */
    const initialHeap: nat
    const heaps: seq<Memory>
    /** The break before the first heap was added. */
    ghost const firstBreak: nat
    var heapsActualSize: nat
    var activeHeap: nat
    var activeFreeHeap: nat

    ghost predicate Blank(h: Memory)
      reads h
    {
      h.base == 0 && h.size == 0 && h.offset == 0 && h.blocks == []
    }

    ghost predicate Layout()
      reads lin
    {
      && |heaps| == HEAPS_SIZE
      && (forall i, j :: 0 <= i < j < |heaps| ==> heaps[i] != heaps[j])
      && (forall i :: 0 <= i < |heaps| ==> heaps[i].mem == lin.mem)
      && lin.Valid()
      && 1 <= initialHeap && initialHeap + INITIAL_HEAP_WORDS < firstBreak
      && lin.Break() == lin.pages * PAGE && firstBreak <= lin.pages * PAGE_WORDS
    }

    /** Heap 0 is the static one, heap 1 runs from the first break to the current one; no other is ever used. */
    ghost predicate Heaps(brk: nat)
      requires |heaps| == HEAPS_SIZE
      reads lin.mem, heaps
    {
      && (forall i :: 2 <= i < |heaps| ==> Blank(heaps[i]))
      && (Blank(heaps[0]) || (heaps[0].base == initialHeap && heaps[0].size == INITIAL_HEAP_WORDS
                              && heaps[0].mem == lin.mem && heaps[0].Valid()))
      && (Blank(heaps[1]) || (heaps[1].base == firstBreak && 0 < heaps[1].size && firstBreak + heaps[1].size == brk
                              && heaps[1].mem == lin.mem && heaps[1].Valid()))
      && (Blank(heaps[0]) ==> ZeroRange(lin.mem[..], initialHeap, initialHeap + INITIAL_HEAP_WORDS))
      && (Blank(heaps[1]) ==> brk == firstBreak)
      && ZeroRange(lin.mem[..], brk, lin.mem.Length)
    }

    ghost predicate Full(i: nat)
      requires |heaps| == HEAPS_SIZE && i < HEAPS_SIZE
      reads heaps
    {
      heaps[i].base != 0 && heaps[i].offset == heaps[i].size
    }

    /** Nothing allocated yet, bump allocation in the active heap, or all memory handed out. */
    ghost predicate Phase()
      requires |heaps| == HEAPS_SIZE
      reads this, heaps
    {
      && (activeHeap == 0 ==> Blank(heaps[1]))
      && (activeHeap >= 1 ==> Full(0))
      && (activeHeap >= 2 ==> Full(1))
      && (|| (heapsActualSize == 0 && activeHeap == 0 && Blank(heaps[0]) && activeFreeHeap == 0)
          || (heapsActualSize == HEAPS_SIZE && activeHeap <= 1 && !Blank(heaps[activeHeap]) && activeFreeHeap == 0)
          || Exhausted())
    }

    ghost predicate Exhausted()
      requires |heaps| == HEAPS_SIZE
      reads this, heaps
    {
      && 1 <= heapsActualSize == activeHeap <= 2 && activeFreeHeap < heapsActualSize
      && (activeHeap == 1 ==> Blank(heaps[1]))
    }

    /** The offset that the next bump allocation starts from. */
    ghost function BumpOffset(): nat
      requires |heaps| == HEAPS_SIZE
      reads this, heaps
    {
      if activeHeap < HEAPS_SIZE then heaps[activeHeap].offset else 0
    }

    /** The sum that the bump allocator tests does not wrap, or bump allocation is over. */
    ghost predicate Unwrapped(sz: nat)
      requires |heaps| == HEAPS_SIZE
      reads this, heaps
    {
      Exhausted() || BumpOffset() + sz + 1 < ADDRESS_SPACE
    }

    /** The pages that bump allocation has to be granted for a block of `sz` words. */
    ghost function Need(sz: nat): nat
      requires |heaps| == HEAPS_SIZE
      reads this, heaps
    {
      if activeHeap == 0 then
        if heaps[0].offset + sz + 1 <= INITIAL_HEAP_WORDS then 0 else 1 + MorePages(0, PAGE_WORDS, sz)
      else MorePages(heaps[1].offset, heaps[1].size, sz)
    }

    /** Where the block will be if they are granted. */
    ghost function BumpPtr(sz: nat): nat
      requires |heaps| == HEAPS_SIZE
      reads this, heaps
    {
      if activeHeap == 0 then
        (if heaps[0].offset + sz + 1 <= INITIAL_HEAP_WORDS then initialHeap + heaps[0].offset else firstBreak) + 1
      else firstBreak + heaps[1].offset + 1
    }

    /** The host will grant the next `g` pages, one at a time. */
    ghost predicate AllGranted(g: nat)
      reads this, lin
    {
      lin.pages + g <= lin.limit && forall k :: lin.asked <= k < lin.asked + g ==> lin.host(k)
    }

    /** The blocks of heap `i` if bump allocation ends with so many pages. */
    ghost function FilledTo(i: nat, pages: nat): seq<Block>
      requires |heaps| == HEAPS_SIZE && i < HEAPS_SIZE
      reads this, heaps
    {
      Filled(heaps[i].blocks,
             (if i == 0 then INITIAL_HEAP_WORDS else pages * PAGE_WORDS - firstBreak) - heaps[i].offset)
    }

    twostate predicate SameFilled()
      requires |heaps| == HEAPS_SIZE
      reads this, heaps
    {
      forall i: nat, k: nat :: i <= 1 ==> FilledTo(i, k) == old(FilledTo(i, k))
    }

    /** The host has been asked for some pages, and has granted all of them but the last. */
    twostate predicate RefusedNow()
      reads this, lin
    {
      && old(lin.pages) <= lin.pages && lin.asked == old(lin.asked) + (lin.pages - old(lin.pages)) + 1
      && (forall k :: old(lin.asked) <= k < lin.asked - 1 ==> lin.host(k))
      && !(lin.pages + 1 <= lin.limit && lin.host(lin.asked - 1))
    }

    /** Bump allocation has ended, and every heap is full. */
    twostate predicate FilledUp()
      requires |heaps| == HEAPS_SIZE
      reads this, lin, heaps
    {
      var k := lin.pages;
      activeHeap <= 2 && forall i: nat :: i < activeHeap ==> heaps[i].blocks == old(FilledTo(i, k))
    }

    lemma ValidFilled()
      requires Valid() && heapsActualSize == HEAPS_SIZE
      ensures activeHeap <= 1 && forall k: nat :: activeHeap == 1 ==> FilledTo(0, k) == heaps[0].blocks
      ensures heaps[activeHeap].size ==
              if activeHeap == 0 then INITIAL_HEAP_WORDS else lin.pages * PAGE_WORDS - firstBreak
    {
    }

    /** The block that bump allocation will come to, or null. */
    ghost function BumpResult(sz: nat): nat
      requires |heaps| == HEAPS_SIZE
      reads this, lin, heaps
    {
      if !Exhausted() && AllGranted(Need(sz)) then BumpPtr(sz) else 0
    }

    ghost predicate Valid()
      reads this, lin, lin.mem, heaps
    {
      Layout() && Heaps(lin.pages * PAGE_WORDS) && Phase()
    }

    lemma {:induction false} ValidBasics()
      requires Valid()
      ensures |heaps| == HEAPS_SIZE && lin.pages <= lin.limit && lin.pages < 32768 && lin.Break() == lin.pages * PAGE
      ensures lin.Valid() && Layout() && Heaps(lin.pages * PAGE_WORDS)
      ensures heapsActualSize == HEAPS_SIZE ==> activeHeap <= 1
      ensures if Exhausted() then activeFreeHeap < activeHeap <= 2 else activeFreeHeap == 0
    {
    }

    /** A block that a fresh page can hold takes one more page at most. */
    lemma OnePageEnough(sz: nat)
      requires Valid() && !Exhausted() && sz + 1 <= PAGE_WORDS
      ensures Need(sz) <= 1
    {
      if activeHeap == 1 {
        HeapBounds(lin.mem[..], heaps[1].base, heaps[1].size, heaps[1].offset, heaps[1].blocks);
        assert MorePages(heaps[1].offset, heaps[1].size + PAGE_WORDS, sz) == 0;
      }
    }

    /** Requests below 2 GiB wrap in no state. */
    lemma SmallRequest(n: nat)
      requires Valid() && n <= MAX_REQUEST
      ensures Unwrapped(BlockWords(n))
    {
      var h := heaps[activeHeap];
      assert Blank(h) || h.Valid();
    }

    /** The (pointer, size) pairs, in words, of all blocks the program holds. */
    ghost function LiveBlocks(): set<(nat, nat)>
      requires |heaps| == HEAPS_SIZE
      reads heaps
    {
      heaps[0].LiveBlocks() + heaps[1].LiveBlocks()
    }

    static method NewHeaps(mem: array<Word>) returns (hs: seq<Memory>)
      ensures |hs| == HEAPS_SIZE && fresh(set h | h in hs)
      ensures forall i, j :: 0 <= i < j < |hs| ==> hs[i] != hs[j]
      ensures forall i :: 0 <= i < |hs| ==>
                hs[i].mem == mem && hs[i].base == 0 && hs[i].size == 0 && hs[i].offset == 0 && hs[i].blocks == []
    {
      hs := [];
      while |hs| < HEAPS_SIZE
        invariant |hs| <= HEAPS_SIZE
        invariant forall h :: h in hs ==> fresh(h)
        invariant forall i, j :: 0 <= i < j < |hs| ==> hs[i] != hs[j]
        invariant forall i :: 0 <= i < |hs| ==>
                    hs[i].mem == mem && hs[i].base == 0 && hs[i].size == 0 && hs[i].offset == 0 && hs[i].blocks == []
      {
        var h := new Memory(mem);
        hs := hs + [h];
      }
    }

    constructor (lin: Linear, initialHeap: nat)
      requires lin.Valid() && lin.Break() == lin.pages * PAGE
      requires 1 <= initialHeap && initialHeap + INITIAL_HEAP_WORDS < lin.pages * PAGE_WORDS
      requires ZeroRange(lin.mem[..], initialHeap, initialHeap + INITIAL_HEAP_WORDS)
      requires ZeroRange(lin.mem[..], lin.pages * PAGE_WORDS, lin.mem.Length)
      ensures Valid() && LiveBlocks() == {}
      ensures this.lin == lin && this.initialHeap == initialHeap && fresh(set h | h in heaps)
      ensures |heaps| == 16 && !Exhausted() && activeHeap == 0 && firstBreak == lin.pages * PAGE_WORDS
    {
      var hs := NewHeaps(lin.mem);
      heaps := hs;
      this.lin, this.initialHeap := lin, initialHeap;
      firstBreak := lin.pages * PAGE_WORDS;
      heapsActualSize, activeHeap, activeFreeHeap := 0, 0, 0;
    }

    /**
     An operation inside heap `at.0`, on words of that heap only, leaves the other heap as it was; `at.1` is the break.
     */
    twostate lemma InsideOneHeap(at: (nat, nat))
      requires old(Layout()) && old(Heaps(at.1)) && at.0 <= 1 && !old(Blank(heaps[at.0]))
      requires unchanged(lin) && unchanged(heaps[1 - at.0]) && forall j :: 2 <= j < |heaps| ==> unchanged(heaps[j])
      requires heaps[at.0].mem == lin.mem && heaps[at.0].Valid()
      requires heaps[at.0].base == old(heaps[at.0].base) && heaps[at.0].size == old(heaps[at.0].size)
      requires SameOutside(old(lin.mem[..]), lin.mem[..], heaps[at.0].base, heaps[at.0].size)
      ensures Layout() && Heaps(at.1)
      ensures Kept(old(lin.mem[..]), lin.mem[..], heaps[1 - at.0].LiveBlocks())
    {
      var h, o := heaps[at.0], heaps[1 - at.0];
      var m, m', lo, n := old(lin.mem[..]), lin.mem[..], h.base, h.size;
      if !Blank(o) {
        OtherHeap(m, m', lo, n, o.base, o.size, o.offset, o.blocks);
      }
    }

    /** No block belongs to both heaps. */
    lemma OwnedByOne(i: nat, x: (nat, nat))
      requires Layout() && Heaps(lin.pages * PAGE_WORDS) && i <= 1 && !Blank(heaps[i]) && x in heaps[i].LiveBlocks()
      ensures x !in heaps[1 - i].LiveBlocks()
    {
      var h, o := heaps[i], heaps[1 - i];
      if !Blank(o) {
        LiveInside(h.base, h.blocks, x);
        ApartFrom(h.base, h.size, o.base, o.size, o.blocks, x);
      }
    }

    /** `cleanup_remaining` on heap `i`, seen from the manager. */
    method CleanupIn(i: nat, ghost brk: nat)
      requires Layout() && Heaps(brk) && i <= 1 && !Blank(heaps[i])
      modifies lin.mem, heaps[i]
      ensures Layout() && Heaps(brk) && Full(i) && LiveBlocks() == old(LiveBlocks())
      ensures heaps[i].blocks == Filled(old(heaps[i].blocks), heaps[i].size - old(heaps[i].offset))
      ensures heaps[i].base == old(heaps[i].base) && heaps[i].size == old(heaps[i].size)
      ensures Kept(old(lin.mem[..]), lin.mem[..], old(LiveBlocks()))
    {
      hide Live, Total, HeapOk, Kept, ZeroRange;
      var h := heaps[i];
      ghost var m, lo, n, off, bs := lin.mem[..], h.base, h.size, h.offset, h.blocks;
      h.CleanupRemaining();
      CleanupKeeps(m, lin.mem[..], lo, n, off, bs);
      InsideOneHeap((i, brk));
      KeptUnion(m, lin.mem[..], h.LiveBlocks(), heaps[1 - i].LiveBlocks());
    }

    /** The host has refused: the rest of the active heap becomes free, bump allocation is over. */
    method StopBump()
      requires Valid() && heapsActualSize == HEAPS_SIZE
      modifies this`activeHeap, this`heapsActualSize, lin.mem, heaps[0], heaps[1]
      ensures Valid() && Exhausted() && LiveBlocks() == old(LiveBlocks())
      ensures Kept(old(lin.mem[..]), lin.mem[..], old(LiveBlocks()))
      ensures activeHeap == old(activeHeap) + 1
      ensures forall i :: 0 <= i < activeHeap ==> heaps[i].blocks == old(FilledTo(i, lin.pages))
    {
      hide Kept;
      ValidFilled();
      CleanupIn(activeHeap, lin.pages * PAGE_WORDS);
      activeHeap := activeHeap + 1;
      heapsActualSize := activeHeap;
    }

    /** `heapAdj` bytes at `start`, just past the old break, for bump allocation. */
    method AddMemory(start: nat, heapAdj: nat) returns (next: Memory)
      requires Layout() && heapsActualSize == HEAPS_SIZE && 1 <= lin.pages
      requires Heaps((lin.pages - 1) * PAGE_WORDS) && Phase()
      requires heapAdj == PAGE && start == (lin.pages - 1) * PAGE
      modifies this`activeHeap, lin.mem, heaps[0], heaps[1]
      ensures Valid() && LiveBlocks() == old(LiveBlocks())
      ensures Kept(old(lin.mem[..]), lin.mem[..], old(LiveBlocks()))
      ensures heapsActualSize == HEAPS_SIZE && next == heaps[activeHeap] && activeHeap == 1
      ensures next.offset == if old(activeHeap) == 0 then 0 else old(heaps[1].offset)
      ensures next.size == PAGE_WORDS + if old(activeHeap) == 0 then 0 else old(heaps[1].size)
      ensures SameFilled()
    {
      hide Live, Total, Tiles, Kept;
      var current := heaps[activeHeap];
      assert activeHeap == 1 ==> current.base + current.size == start / 4;
      var ok := current.ExpandMemory(start / 4, heapAdj / 4);
      if ok {
        KeptSame(lin.mem[..], LiveBlocks());
        return current;
      }
      next := SwitchHeap(start, heapAdj);
    }

    /** The first heap is filled up and the next one opened. */
    method SwitchHeap(start: nat, heapAdj: nat) returns (next: Memory)
      requires Layout() && heapsActualSize == HEAPS_SIZE && 1 <= lin.pages && activeHeap == 0
      requires Heaps((lin.pages - 1) * PAGE_WORDS) && Phase()
      requires heapAdj == PAGE && start == (lin.pages - 1) * PAGE
      modifies this`activeHeap, lin.mem, heaps[0], heaps[1]
      ensures Valid() && LiveBlocks() == old(LiveBlocks())
      ensures Kept(old(lin.mem[..]), lin.mem[..], old(LiveBlocks()))
      ensures next == heaps[1] && activeHeap == 1 && next.offset == 0 && next.size == PAGE_WORDS && SameFilled()
    {
      hide Live, Total, Tiles, Kept, Filled;
      CleanupIn(activeHeap, (lin.pages - 1) * PAGE_WORDS);
      activeHeap := activeHeap + 1;
      next := OpenHeap(start, heapAdj);
      NothingToFill(heaps[0].blocks);
    }

    /** The next heap, in the new memory. */
    method OpenHeap(start: nat, heapAdj: nat) returns (next: Memory)
      requires Layout() && heapsActualSize == HEAPS_SIZE && 1 <= lin.pages
      requires Heaps((lin.pages - 1) * PAGE_WORDS) && activeHeap == 1 && activeFreeHeap == 0 && Full(0)
               && Blank(heaps[1])
      requires heapAdj == PAGE && start == (lin.pages - 1) * PAGE
      modifies heaps[1]
      ensures Valid() && LiveBlocks() == old(LiveBlocks()) && next == heaps[1]
      ensures next.offset == 0 && next.size == PAGE_WORDS && next.blocks == []
    {
      hide Tiles, Total, Kept;
      next := heaps[activeHeap];
      next.Init(start / 4, heapAdj / 4);
    }

    /**
     More memory for bump allocation: the last heap is extended, or the next one is opened. When the
     host refuses, the rest of the active heap becomes free and bump allocation is over for good.
     */
    method NextActiveHeap(ghost sz: nat) returns (next: Memory?)
      requires Valid() && heapsActualSize == HEAPS_SIZE
      modifies this`activeHeap, this`heapsActualSize, lin, lin.mem, heaps[0], heaps[1]
      ensures Valid() && LiveBlocks() == old(LiveBlocks())
      ensures Kept(old(lin.mem[..]), lin.mem[..], old(LiveBlocks()))
      ensures (next != null <==> old(lin.Grants(1))) && lin.asked == old(lin.asked) + 1
      ensures next == null ==> Exhausted() && lin.pages == old(lin.pages)
      ensures next != null ==>
                && heapsActualSize == HEAPS_SIZE && next == heaps[activeHeap] && lin.pages == old(lin.pages) + 1
                && activeHeap == 1
                && next.offset == (if old(activeHeap) == 0 then 0 else old(heaps[1].offset))
                && next.size == PAGE_WORDS + if old(activeHeap) == 0 then 0 else old(heaps[1].size)
      ensures next != null && old(Need(sz)) > 0 ==>
                Need(sz) == old(Need(sz)) - 1 && BumpPtr(sz) == old(BumpPtr(sz)) && BumpOffset() <= old(BumpOffset())
      ensures next != null ==> SameFilled()
      ensures next == null ==>
                && activeHeap == old(activeHeap) + 1
                && forall i :: 0 <= i < activeHeap ==> heaps[i].blocks == old(FilledTo(i, lin.pages))
    {
      hide Layout, Heaps, Phase, Kept, LiveBlocks;
      ValidBasics();
      var start, heapAdj := AskForMemory();
      if start.Null? {
        StopBump();
        return null;
      }
      next := AddMemory(start.bytes, heapAdj);
    }

    /** Moves the break to the end of the next page, if the host grants it. */
    method AskForMemory() returns (start: Address, heapAdj: nat)
      requires Valid() && heapsActualSize == HEAPS_SIZE
      modifies lin
      ensures (start.At? <==> old(lin.Grants(1))) && lin.asked == old(lin.asked) + 1
      ensures start.Null? ==> Valid() && lin.pages == old(lin.pages)
      ensures start.At? ==>
                && Layout() && lin.pages == old(lin.pages) + 1 && Heaps((lin.pages - 1) * PAGE_WORDS) && Phase()
                && heapAdj == PAGE && start.bytes == (lin.pages - 1) * PAGE
    {
      hide Heaps, Phase;
      ValidBasics();
      ghost var pages := lin.pages;
      assert Heaps(pages * PAGE_WORDS) && Phase();
      PageFacts(pages);
      OnePageMore(pages);
      var brk := lin.Sbrk(0);
      if brk.Null? {
        assert false;
      }
      heapAdj := HeapAdj(brk.bytes);
      start := lin.Sbrk(heapAdj);
    }

    /** Bump allocation in the active heap, seen from the manager. */
    method BumpActive(sz: nat) returns (p: nat)
      requires Valid() && heapsActualSize == HEAPS_SIZE && sz % 2 == 1 && BumpOffset() + sz + 1 < ADDRESS_SPACE
      modifies lin.mem, heaps[0], heaps[1]
      ensures Valid() && heapsActualSize == HEAPS_SIZE
      ensures if old(Need(sz)) == 0 then p == old(BumpPtr(sz)) else p == 0
      ensures p != 0 ==> heaps[activeHeap].base + BumpOffset() == p + sz
      ensures p == 0 ==>
                && Need(sz) == old(Need(sz)) && BumpPtr(sz) == old(BumpPtr(sz)) && BumpOffset() == old(BumpOffset())
                && SameFilled()
      ensures LiveBlocks() == old(LiveBlocks()) + if p == 0 then {} else {(p, sz)}
      ensures p != 0 ==> (p, sz) !in old(LiveBlocks())
      ensures Kept(old(lin.mem[..]), lin.mem[..], old(LiveBlocks()))
    {
      hide Live, Total, HeapOk, Kept, ZeroRange;
      var h := heaps[activeHeap];
      ghost var m, lo, n, off, bs := lin.mem[..], h.base, h.size, h.offset, h.blocks;
      HeapBounds(m, lo, n, off, bs);
      p := h.Malloc(sz);
      ghost var m' := lin.mem[..];
      CleanupKeeps(m, m', lo, n, off, bs);
      LiveAppend(lo, bs, Block(sz, true));
      PastOffset(lo, bs, sz);
      InsideOneHeap((activeHeap, lin.pages * PAGE_WORDS));
      if p != 0 {
        OwnedByOne(activeHeap, (p, sz));
      }
      KeptUnion(m, m', Live(lo, bs), heaps[1 - activeHeap].LiveBlocks());
    }

    /** First fit in heap `i`, seen from the manager. */
    method TakeFreed(i: nat, sz: nat) returns (p: nat)
      requires Valid() && Exhausted() && i < activeHeap && sz % 2 == 1
      modifies lin.mem, heaps[i]
      ensures Valid() && Exhausted()
      ensures p == 0 <==> NoFitBelow(old(heaps[i].blocks), |old(heaps[i].blocks)|, sz)
      ensures p == 0 ==> NoFitIn(i, sz)
      ensures p != 0 ==> old(FirstFitIn(i, sz, p))
      ensures LiveBlocks() == old(LiveBlocks()) + if p == 0 then {} else {(p, sz)}
      ensures p != 0 ==> (p, sz) !in old(LiveBlocks())
      ensures Kept(old(lin.mem[..]), lin.mem[..], old(LiveBlocks()))
    {
      hide Live, Total, HeapOk;
      var h := heaps[i];
      ghost var m, lo, n, bs := lin.mem[..], h.base, h.size, h.blocks;
      ghost var k, j;
      p, k, j := h.MallocFromFreed(sz);
      assert p != 0 ==> Fits(bs, k, j, sz) && k < |bs|;
      InsideOneHeap((i, lin.pages * PAGE_WORDS));
      if p != 0 {
        OwnedByOne(i, (p, sz));
      }
      KeptUnion(m, lin.mem[..], Live(lo, bs), heaps[1 - i].LiveBlocks());
    }

    ghost predicate NoFitIn(i: nat, sz: nat)
      requires |heaps| == HEAPS_SIZE && i < HEAPS_SIZE
      reads heaps
    {
      NoFitBelow(heaps[i].blocks, |heaps[i].blocks|, sz)
    }

    ghost function BaseOf(i: nat): nat {
      if i == 0 then initialHeap else firstBreak
    }

    ghost predicate FirstFitIn(i: nat, sz: nat, p: nat)
      requires |heaps| == HEAPS_SIZE && i < HEAPS_SIZE
      reads heaps
    {
      FirstFit(BaseOf(i), heaps[i].blocks, sz, p)
    }

    /** `p` is the first fit in heap `f`, and no heap the search passes before it has one. */
    ghost predicate FirstFound(f: nat, sz: nat, p: nat)
      requires |heaps| == HEAPS_SIZE
      reads this, heaps
    {
      var from, n := activeFreeHeap, activeHeap;
      && f < n <= HEAPS_SIZE && FirstFitIn(f, sz, p)
      && forall i :: 0 <= i < n && (if from <= f then from <= i < f else from <= i || i < f) ==> NoFitIn(i, sz)
    }

    twostate predicate FoundFirst(sz: nat, p: nat)
      requires |heaps| == HEAPS_SIZE
      reads this, heaps
    {
      var f := activeFreeHeap;
      old(FirstFound(f, sz, p))
    }

    /**
     What an allocation comes to, told by the state before it: the block of the bump allocator if the host grants
     what that takes; else the first fit, in the blocks as they were, or as they are when the host has refused and
     every heap is filled up. At the end the search has stopped at heap `f` of `n`, and there are `k` pages.
     */
    ghost predicate Outcome(sz: nat, p: nat, f: nat, n: nat, k: nat)
      requires |heaps| == HEAPS_SIZE
      reads this, lin, heaps
    {
      if BumpResult(sz) != 0 then p == BumpResult(sz)
      else if Exhausted() then
        if forall i: nat :: i < activeHeap && i < HEAPS_SIZE ==> NoFitIn(i, sz) then p == 0 else FirstFound(f, sz, p)
      else
        && f < n <= 2
        && if forall i: nat :: i < n ==> NoFitFilled(i, k, sz) then p == 0
           else
             && FirstFit(BaseOf(f), FilledTo(f, k), sz, p)
             && forall i: nat :: i < f ==> NoFitFilled(i, k, sz)
    }

    twostate predicate Found(sz: nat, p: nat)
      requires |heaps| == HEAPS_SIZE
      reads this, lin, heaps
    {
      var f, n, k := activeFreeHeap, activeHeap, lin.pages;
      old(Outcome(sz, p, f, n, k))
    }

    ghost predicate NoFitFilled(i: nat, pages: nat, sz: nat)
      requires |heaps| == HEAPS_SIZE && i < HEAPS_SIZE
      reads this, heaps
    {
      NoFitBelow(FilledTo(i, pages), |FilledTo(i, pages)|, sz)
    }

    lemma BumpPtrPositive(sz: nat)
      requires |heaps| == HEAPS_SIZE
      ensures BumpPtr(sz) > 0
    {
    }

    twostate lemma SameSupply(sz: nat)
      requires |heaps| == HEAPS_SIZE && unchanged(this) && unchanged(lin)
      requires forall j :: 0 <= j < |heaps| ==> unchanged(heaps[j])
      ensures BumpResult(sz) == old(BumpResult(sz)) && (Exhausted() <==> old(Exhausted()))
      ensures Unwrapped(sz) <==> old(Unwrapped(sz))
      ensures forall i :: 0 <= i < HEAPS_SIZE ==> (NoFitIn(i, sz) <==> old(NoFitIn(i, sz)))
      ensures forall p: nat, f: nat, n: nat, k: nat :: Outcome(sz, p, f, n, k) <==> old(Outcome(sz, p, f, n, k))
    {
      assert unchanged(heaps[0]) && unchanged(heaps[1]);
    }

    /** The search over all heaps, starting where the last one succeeded: null exactly when no run anywhere fits. */
    method SearchFreed(sz: nat) returns (p: nat)
      requires Valid() && Exhausted() && sz % 2 == 1
      modifies this`activeFreeHeap, lin.mem, heaps[0], heaps[1]
      ensures Valid() && Exhausted()
      ensures p == 0 <==> old(forall i :: 0 <= i < activeHeap ==> NoFitIn(i, sz))
      ensures p == 0 ==> forall i :: 0 <= i < activeHeap ==> NoFitIn(i, sz)
      ensures p == 0 ==> activeFreeHeap == old(activeFreeHeap)
      ensures p != 0 ==> FoundFirst(sz, p)
      ensures LiveBlocks() == old(LiveBlocks()) + if p == 0 then {} else {(p, sz)}
      ensures p != 0 ==> (p, sz) !in old(LiveBlocks())
      ensures Kept(old(lin.mem[..]), lin.mem[..], old(LiveBlocks()))
    {
      hide Layout, Heaps, NoFitBelow, Kept, LiveBlocks, FirstFit;
      ValidBasics();
      ghost var m0, live0 := lin.mem[..], LiveBlocks();
      KeptSame(m0, live0);
      assert live0 + {} == live0;
      ghost var wrapped := false;
      var endFreeHeap := activeFreeHeap;
      while true
        invariant Valid() && Exhausted() && LiveBlocks() == live0
        invariant Kept(m0, lin.mem[..], live0)
        invariant !wrapped ==> endFreeHeap <= activeFreeHeap
        invariant wrapped ==> activeFreeHeap < endFreeHeap
        invariant forall i :: 0 <= i < activeHeap ==>
                    if (if wrapped then endFreeHeap <= i || i < activeFreeHeap else endFreeHeap <= i < activeFreeHeap)
                    then old(NoFitIn(i, sz)) && NoFitIn(i, sz) else heaps[i].blocks == old(heaps[i].blocks)
        decreases !wrapped, activeHeap - activeFreeHeap
      {
        ghost var f, m1 := activeFreeHeap, lin.mem[..];
        assert heaps[f].blocks == old(heaps[f].blocks);
        p := TakeFreed(activeFreeHeap, sz);
        assert p != 0 ==> old(FirstFitIn(f, sz, p));
        KeptOn(m0, m1, lin.mem[..], live0);
        assert p == 0 <==> old(NoFitIn(f, sz));
        assert p == 0 ==> NoFitIn(f, sz);
        if p != 0 {
          return;
        }
        activeFreeHeap := activeFreeHeap + 1;
        if activeFreeHeap == heapsActualSize {
          activeFreeHeap := 0;
          wrapped := true;
        }
        if activeFreeHeap == endFreeHeap {
          return;
        }
      }
    }

    /** The search, told by the blocks `fs` of the heaps when it starts. */
    method SearchFilled(sz: nat, ghost fs: seq<seq<Block>>) returns (p: nat)
      requires Valid() && Exhausted() && sz % 2 == 1
      requires |fs| == 2 && forall i :: 0 <= i < activeHeap ==> heaps[i].blocks == fs[i]
      modifies this`activeFreeHeap, lin.mem, heaps[0], heaps[1]
      ensures Valid() && Exhausted()
      ensures p == 0 ==> forall i :: 0 <= i < activeHeap ==> NoFitIn(i, sz)
      ensures p == 0 <==> old(forall i :: 0 <= i < activeHeap ==> NoFitIn(i, sz))
      ensures p != 0 ==> FoundFirst(sz, p)
      ensures activeFreeHeap < activeHeap && (p == 0 ==> activeFreeHeap == old(activeFreeHeap))
      ensures old(activeFreeHeap) == 0 ==>
              if forall i :: 0 <= i < activeHeap ==> NoFitBelow(fs[i], |fs[i]|, sz) then p == 0
              else
                && FirstFit(BaseOf(activeFreeHeap), fs[activeFreeHeap], sz, p)
                && forall i :: 0 <= i < activeFreeHeap ==> NoFitBelow(fs[i], |fs[i]|, sz)
      ensures LiveBlocks() == old(LiveBlocks()) + if p == 0 then {} else {(p, sz)}
      ensures p != 0 ==> (p, sz) !in old(LiveBlocks())
      ensures Kept(old(lin.mem[..]), lin.mem[..], old(LiveBlocks()))
    {
      hide Layout, Heaps, NoFitBelow, Kept, LiveBlocks, FirstFit;
      ValidBasics();
      forall i | 0 <= i < activeHeap ensures NoFitIn(i, sz) <==> NoFitBelow(fs[i], |fs[i]|, sz) {
        assert heaps[i].blocks == fs[i];
      }
      p := SearchFreed(sz);
      ghost var f := activeFreeHeap;
      assert p != 0 ==> old(FirstFitIn(f, sz, p));
    }

    /** The first call sets up the bookkeeping and heap 0. */
    method Start(ghost sz: nat)
      requires Valid()
      modifies this`heapsActualSize, heaps[0]
      ensures Valid() && heapsActualSize != 0
      ensures LiveBlocks() == old(LiveBlocks())
      ensures !Exhausted() ==> heapsActualSize == HEAPS_SIZE
      ensures old(Exhausted()) ==> unchanged(this) && unchanged(heaps[0])
      ensures (Exhausted() <==> old(Exhausted())) && (Unwrapped(sz) <==> old(Unwrapped(sz)))
      ensures Need(sz) == old(Need(sz)) && BumpResult(sz) == old(BumpResult(sz)) && SameFilled()
    {
      hide Live, Tiles, Filled, MorePages;
      LiveNone(0);
      LiveNone(initialHeap);
      if heapsActualSize == 0 {
        heapsActualSize := HEAPS_SIZE;
      }
      if activeHeap < heapsActualSize {
        var startHeap := heaps[activeHeap];
        if activeHeap == 0 && !startHeap.IsInit() {
          startHeap.Init(initialHeap, INITIAL_HEAP_WORDS);
        }
      }
    }

    /** Bump allocation, with as many further pages as it takes or the host grants. */
    method BumpOrGrow(sz: nat) returns (p: nat)
      requires Valid() && (Exhausted() || heapsActualSize == HEAPS_SIZE) && sz % 2 == 1 && Unwrapped(sz)
      modifies this`activeHeap, this`heapsActualSize, lin, lin.mem, heaps[0], heaps[1]
      ensures Valid() && p == old(BumpResult(sz)) && (p == 0 <==> Exhausted())
      ensures p != 0 ==> lin.pages == old(lin.pages + Need(sz)) && lin.asked == old(lin.asked + Need(sz))
      ensures p != 0 ==>
                && activeHeap == (if old(Need(sz)) == 0 then old(activeHeap) else 1)
                && heaps[activeHeap].base + BumpOffset() == p + sz
      ensures p == 0 && !old(Exhausted()) ==> RefusedNow() && FilledUp()
      ensures old(Exhausted()) ==> unchanged(this) && unchanged(lin) && unchanged(heaps[0]) && unchanged(heaps[1])
      ensures LiveBlocks() == old(LiveBlocks()) + if p == 0 then {} else {(p, sz)}
      ensures p != 0 ==> (p, sz) !in old(LiveBlocks())
      ensures Kept(old(lin.mem[..]), lin.mem[..], old(LiveBlocks()))
    {
      hide Valid, Layout, Heaps, Phase, LiveBlocks, Kept, Need, BumpPtr, BumpOffset, FilledTo;
      ValidBasics();
      ghost var m0, live0 := lin.mem[..], LiveBlocks();
      KeptSame(m0, live0);
      BumpPtrPositive(sz);
      p := 0;
      var current: Memory? := if activeHeap < heapsActualSize then heaps[activeHeap] else null;
      while current != null
        invariant Valid() && p == 0 && LiveBlocks() == old(LiveBlocks())
                  && Kept(old(lin.mem[..]), lin.mem[..], old(LiveBlocks()))
        invariant if current == null then Exhausted()
                  else activeHeap <= 1 && heapsActualSize == HEAPS_SIZE && current == heaps[activeHeap]
        invariant current != null ==> BumpOffset() + sz + 1 < ADDRESS_SPACE
        invariant old(Exhausted()) ==> current == null && unchanged(this) && unchanged(lin)
        invariant current != null ==>
                    && activeHeap == (if lin.pages == old(lin.pages) then old(activeHeap) else 1)
                    && lin.asked - old(lin.asked) == lin.pages - old(lin.pages) >= 0
                    && Need(sz) + (lin.pages - old(lin.pages)) == old(Need(sz)) && BumpPtr(sz) == old(BumpPtr(sz))
                    && forall k :: old(lin.asked) <= k < lin.asked ==> lin.host(k)
        invariant current != null ==> SameFilled()
        invariant current == null && !old(Exhausted()) ==>
                    FilledUp() && !old(AllGranted(Need(sz))) && RefusedNow()
        invariant old(Exhausted()) ==> unchanged(heaps[0]) && unchanged(heaps[1])
        invariant lin.pages <= lin.limit
        decreases lin.limit - lin.pages, current != null
      {
        ghost var m1 := lin.mem[..];
        p, current := BumpRound(sz);
        KeptOn(m0, m1, lin.mem[..], live0);
        ValidBasics();
        if p != 0 {
          break;
        }
      }
    }

    /** The first half of `malloc`. */
    method StartAndBump(sz: nat) returns (p: nat)
      requires Valid() && sz % 2 == 1 && Unwrapped(sz)
      modifies this`activeHeap, this`heapsActualSize, lin, lin.mem, heaps[0], heaps[1]
      ensures Valid() && p == old(BumpResult(sz)) && (p == 0 <==> Exhausted())
      ensures p != 0 ==>
                && lin.pages == old(lin.pages + Need(sz)) && lin.asked == old(lin.asked + Need(sz))
                && activeHeap == (if old(Need(sz)) == 0 then old(activeHeap) else 1)
                && heaps[activeHeap].base + BumpOffset() == p + sz
      ensures p == 0 && !old(Exhausted()) ==> RefusedNow() && FilledUp()
      ensures old(Exhausted()) ==> unchanged(this) && unchanged(lin) && unchanged(heaps[0]) && unchanged(heaps[1])
      ensures LiveBlocks() == old(LiveBlocks()) + if p == 0 then {} else {(p, sz)}
      ensures p != 0 ==> (p, sz) !in old(LiveBlocks())
      ensures Kept(old(lin.mem[..]), lin.mem[..], old(LiveBlocks()))
    {
      hide Valid, Exhausted, Kept, LiveBlocks, Need, BumpResult, Unwrapped, BumpOffset, FilledTo;
      ValidBasics();
      Start(sz);
      p := BumpOrGrow(sz);
    }

    /** One round: the active heap is tried, and if the block does not fit, the host is asked for a page. */
    method BumpRound(sz: nat) returns (p: nat, current: Memory?)
      requires Valid() && heapsActualSize == HEAPS_SIZE && sz % 2 == 1 && BumpOffset() + sz + 1 < ADDRESS_SPACE
      modifies this`activeHeap, this`heapsActualSize, lin, lin.mem, heaps[0], heaps[1]
      ensures Valid() && LiveBlocks() == old(LiveBlocks()) + (if p == 0 then {} else {(p, sz)})
      ensures p != 0 ==> (p, sz) !in old(LiveBlocks())
      ensures Kept(old(lin.mem[..]), lin.mem[..], old(LiveBlocks()))
      ensures p != 0 ==>
                && old(Need(sz)) == 0 && p == old(BumpPtr(sz)) && unchanged(this) && unchanged(lin)
                && heaps[activeHeap].base + BumpOffset() == p + sz
      ensures p == 0 ==>
                && old(Need(sz)) > 0 && lin.asked == old(lin.asked) + 1
                && (current != null <==> old(lin.Grants(1)))
                && (current == null ==> Exhausted() && lin.pages == old(lin.pages) && FilledUp())
      ensures p == 0 && current != null ==>
                && heapsActualSize == HEAPS_SIZE && activeHeap == 1 && current == heaps[activeHeap]
                && lin.pages == old(lin.pages) + 1 && SameFilled()
                && Need(sz) == old(Need(sz)) - 1 && BumpPtr(sz) == old(BumpPtr(sz)) && BumpOffset() <= old(BumpOffset())
    {
      hide Valid, Layout, Heaps, Phase, LiveBlocks, Kept, Need, BumpPtr, BumpOffset, FilledTo;
      ValidBasics();
      ghost var m0, live0 := lin.mem[..], LiveBlocks();
      BumpPtrPositive(sz);
      p := BumpActive(sz);
      assert live0 + {} == live0;
      current := null;
      if p == 0 {
        ghost var m1 := lin.mem[..];
        current := NextActiveHeap(sz);
        KeptOn(m0, m1, lin.mem[..], live0);
        ValidBasics();
      }
    }

    /**
     `malloc`: null for a request of 0, and otherwise only when all memory is handed out and no freed
     run fits; else a new block next to all the old ones.
     */
    method Malloc(n: nat) returns (p: nat)
      requires Valid() && n < SIZE_T && (n > 0 ==> Unwrapped(BlockWords(n)))
      modifies this, lin, lin.mem, heaps[0], heaps[1]
      ensures Valid()
      ensures n == 0 ==> p == 0
      ensures LiveBlocks() == old(LiveBlocks()) + if p == 0 then {} else {(p, BlockWords(n))}
      ensures p != 0 ==> (p, BlockWords(n)) !in old(LiveBlocks())
      ensures Kept(old(lin.mem[..]), lin.mem[..], old(LiveBlocks()))
      ensures p == 0 && n > 0 ==> Exhausted() && forall i :: 0 <= i < activeHeap ==> NoFitIn(i, BlockWords(n))
      ensures n > 0 ==> Found(BlockWords(n), p)
      ensures old(Exhausted()) ==> unchanged(lin)
      ensures n > 0 && old(BumpResult(BlockWords(n))) != 0 ==>
                && p == old(BumpResult(BlockWords(n))) && !Exhausted()
                && lin.pages == old(lin.pages + Need(BlockWords(n)))
                && lin.asked == old(lin.asked + Need(BlockWords(n)))
                && activeHeap == (if old(Need(BlockWords(n))) == 0 then old(activeHeap) else 1)
                && heaps[activeHeap].base + BumpOffset() == p + BlockWords(n)
      ensures n > 0 && old(!Exhausted() && BumpResult(BlockWords(n)) == 0) ==>
                Exhausted() && RefusedNow()
    {
      hide Layout, Heaps, NoFitBelow, Kept, Need, BumpResult, Unwrapped, BlockWords, AdjustToMemBlock;
      hide NoFitIn, FirstFound, FirstFit, Filled, FilledTo, BaseOf, Valid, Exhausted, BumpOffset, LiveBlocks;
      ValidBasics();
      ghost var m0, live0 := lin.mem[..], LiveBlocks();
      KeptSame(m0, live0);
      assert live0 + {} == live0;
      if n == 0 {
        return 0;
      }
      var sz := AdjustToMemBlock(n) / 4;
      AdjustedAgain(n);
      ghost var done := Exhausted();
      p := StartAndBump(sz);
      ValidBasics();
      if done {
        SameSupply(sz);
      }
      if p == 0 {
        ghost var m1, k := lin.mem[..], lin.pages;
        ghost var fs := if done then [heaps[0].blocks, heaps[1].blocks] else [old(FilledTo(0, k)), old(FilledTo(1, k))];
        if !done {
          assert old(NoFitFilled(0, k, sz)) <==> NoFitBelow(fs[0], |fs[0]|, sz);
          assert old(NoFitFilled(1, k, sz)) <==> NoFitBelow(fs[1], |fs[1]|, sz);
        }
        p := SearchFilled(sz, fs);
        KeptOn(m0, m1, lin.mem[..], live0);
      }
    }

    /** The heap whose range holds `ptr`, by linear search over the heaps in use. */
    method FindHeap(ptr: nat) returns (found: bool, i: nat)
      requires Valid()
      ensures found ==> i <= 1 && !Blank(heaps[i]) && heaps[i].IsInHeap(ptr)
      ensures !found ==> forall j :: 0 <= j <= 1 && !Blank(heaps[j]) ==> !heaps[j].IsInHeap(ptr)
    {
      i := 0;
      while i < heapsActualSize && heaps[i].IsInit()
        invariant i <= heapsActualSize <= HEAPS_SIZE
        invariant forall j :: 0 <= j < i ==> !heaps[j].IsInHeap(ptr)
      {
        if heaps[i].IsInHeap(ptr) {
          return true, i;
        }
        i := i + 1;
      }
      found := false;
    }

    /** A live pointer lies in the heap that FindHeap names. */
    lemma FoundHeapOwns(ptr: nat, s: nat)
      requires Valid() && (ptr, s) in LiveBlocks()
      ensures ptr != 0 && exists i :: 0 <= i <= 1 && heaps[i].IsInHeap(ptr)
      ensures forall i :: 0 <= i <= 1 ==> (heaps[i].IsInHeap(ptr) <==> (ptr, s) in heaps[i].LiveBlocks())
    {
      var j := if (ptr, s) in heaps[0].LiveBlocks() then 0 else 1;
      LiveInside(heaps[j].base, heaps[j].blocks, (ptr, s));
      var k := LiveIndex(heaps[j].base, heaps[j].blocks, (ptr, s));
      assert heaps[j].blocks[k].size % 2 == 1;
      assert heaps[j].IsInHeap(ptr);
      OwnedByOne(j, (ptr, s));
    }

    method FreeIn(i: nat, ptr: nat, ghost s: nat)
      requires Valid() && i <= 1 && !Blank(heaps[i]) && (ptr, s) in heaps[i].LiveBlocks()
      modifies lin.mem, heaps[i]
      ensures Valid() && LiveBlocks() == old(LiveBlocks()) - {(ptr, s)}
      ensures Kept(old(lin.mem[..]), lin.mem[..], old(LiveBlocks()))
    {
      hide Live, Total, HeapOk;
      var h := heaps[i];
      ghost var m, lo, n, off, bs := lin.mem[..], h.base, h.size, h.offset, h.blocks;
      ghost var k := LiveIndex(lo, bs, (ptr, s));
      OwnedByOne(i, (ptr, s));
      h.Free(ptr, k);
      ghost var m' := lin.mem[..];
      FreedLive(lo, bs, k);
      HeaderKeeps(m, m', lo, n, off, bs, k);
      InsideOneHeap((i, lin.pages * PAGE_WORDS));
      MinusOne(Live(lo, bs), heaps[1 - i].LiveBlocks(), (ptr, s));
      KeptUnion(m, m', Live(lo, bs), heaps[1 - i].LiveBlocks());
    }

    /** The null pointer, or a pointer into no heap. */
    ghost predicate Foreign(ptr: nat)
      requires |heaps| == HEAPS_SIZE
      reads heaps
    {
      !heaps[0].IsInHeap(ptr) && !heaps[1].IsInHeap(ptr)
    }

    /** Gives the block back; null and pointers into no heap are ignored. */
    method Free(ptr: nat, ghost s: nat)
      requires Valid() && (Foreign(ptr) || (ptr, s) in LiveBlocks())
      modifies lin.mem, heaps[0], heaps[1]
      ensures Valid()
      ensures LiveBlocks() == old(LiveBlocks()) - {(ptr, s)}
      ensures old(Foreign(ptr)) ==> lin.mem[..] == old(lin.mem[..]) && LiveBlocks() == old(LiveBlocks())
      ensures Kept(old(lin.mem[..]), lin.mem[..], old(LiveBlocks()))
    {
      if (ptr, s) in LiveBlocks() {
        FoundHeapOwns(ptr, s);
      }
      if ptr == 0 {
        return;
      }
      var found, i := FindHeap(ptr);
      if found {
        FreeIn(i, ptr, s);
      }
    }

    /** The in-place cases are safe for the live block at `ptr`, if there is one, wherever it is. */
    ghost predicate ResizeSafe(ptr: nat, s: nat, sz: nat)
      requires |heaps| == HEAPS_SIZE
      reads heaps
    {
      forall i, k :: 0 <= i <= 1 && IsBlock(i, k, ptr, s) ==>
                       InPlaceSafe(heaps[i].base, heaps[i].size, heaps[i].blocks, k, sz)
    }

    /** Block `k` of heap `i` is the live block at `ptr`. */
    ghost predicate IsBlock(i: nat, k: nat, ptr: nat, s: nat)
      requires |heaps| == HEAPS_SIZE && i <= 1
      reads heaps
    {
      k < |heaps[i].blocks| && heaps[i].blocks[k] == Block(s, true) && heaps[i].PtrAt(k) == ptr
    }

    /** The live block at `ptr` can be resized where it is: its heap does not turn the size down. */
    ghost predicate StaysPut(ptr: nat, s: nat, sz: nat)
      requires |heaps| == HEAPS_SIZE
      reads heaps
    {
      exists i: nat, k: nat :: i <= 1 && IsBlock(i, k, ptr, s) && HeapTakes(i, k, sz)
    }

    ghost predicate HeapTakes(i: nat, k: nat, sz: nat)
      requires |heaps| == HEAPS_SIZE && i <= 1 && k < |heaps[i].blocks|
      reads heaps
    {
      Total(heaps[i].blocks) <= heaps[i].size && !TurnedDown(heaps[i].base, heaps[i].size, heaps[i].blocks, k, sz)
    }

    /** A block keeps its place whenever it does not grow. */
    lemma ShrinkStays(ptr: nat, s: nat, sz: nat)
      requires Valid() && (ptr, s) in LiveBlocks() && sz <= s
      ensures StaysPut(ptr, s, sz)
    {
      var i := if (ptr, s) in heaps[0].LiveBlocks() then 0 else 1;
      var h := heaps[i];
      LiveInside(h.base, h.blocks, (ptr, s));
      var k := LiveIndex(h.base, h.blocks, (ptr, s));
      HeapBounds(lin.mem[..], h.base, h.size, h.offset, h.blocks);
      assert IsBlock(i, k, ptr, s) && HeapTakes(i, k, sz);
    }

    lemma ForeignNotLive(ptr: nat, s: nat, sz: nat)
      requires Valid()
      ensures Foreign(ptr) ==> (ptr, s) !in LiveBlocks() && ResizeSafe(ptr, s, sz) && !StaysPut(ptr, s, sz)
      ensures (ptr, s) in LiveBlocks() ==> !Foreign(ptr) && s != 0
      ensures Foreign(0)
    {
      if (ptr, s) in LiveBlocks() {
        InMemory((ptr, s));
        FoundHeapOwns(ptr, s);
      } else {
        forall i: nat, k: nat | i <= 1 ensures !IsBlock(i, k, ptr, s) {
          if IsBlock(i, k, ptr, s) {
            LiveAt(heaps[i].base, heaps[i].blocks, k);
          }
        }
      }
    }

    /** A live block is one block of one heap. */
    lemma SafeAt(i: nat, k: nat, ptr: nat, s: nat, sz: nat)
      requires Valid() && i <= 1 && IsBlock(i, k, ptr, s)
      ensures ResizeSafe(ptr, s, sz) <==> InPlaceSafe(heaps[i].base, heaps[i].size, heaps[i].blocks, k, sz)
      ensures StaysPut(ptr, s, sz) <==> HeapTakes(i, k, sz)
    {
      hide Live, Total, HeapOk, InPlaceSafe, ZeroRange, HeapTakes;
      forall i': nat, k': nat | i' <= 1 && IsBlock(i', k', ptr, s) ensures i' == i && k' == k {
        LiveAt(heaps[i].base, heaps[i].blocks, k);
        OwnedByOne(i, (ptr, s));
        LiveAt(heaps[i'].base, heaps[i'].blocks, k');
        PlaceUnique(heaps[i].blocks, k, k');
      }
    }

    /** `realloc_in_place` on heap `i`, seen from the manager. */
    method ResizeIn(i: nat, ptr: nat, sz: nat, ghost s: nat, ghost k: nat) returns (p: nat, origSize: nat)
      requires Valid() && i <= 1 && !Blank(heaps[i]) && sz % 2 == 1 && sz < ADDRESS_SPACE
      requires k < |heaps[i].blocks| && heaps[i].blocks[k] == Block(s, true) && heaps[i].PtrAt(k) == ptr
      modifies lin.mem, heaps[i]
      ensures origSize == s && (p == 0 || p == ptr)
      ensures Valid() <==> old(InPlaceSafe(heaps[i].base, heaps[i].size, heaps[i].blocks, k, sz))
      ensures p == 0 ==> Valid() && LiveBlocks() == old(LiveBlocks()) && lin.mem[..] == old(lin.mem[..])
      ensures p != 0 <==> old(HeapTakes(i, k, sz))
      ensures p == 0 ==> unchanged(heaps[i])
      ensures Valid() && p != 0 ==> LiveBlocks() == old(LiveBlocks()) - {(ptr, s)} + {(ptr, if sz < s then s else sz)}
      ensures Valid() ==> Kept(old(lin.mem[..]), lin.mem[..], old(LiveBlocks()) - {(ptr, s)})
      ensures Valid() ==>
                forall l :: ptr <= l < ptr + s && l < ptr + sz && l < lin.mem.Length ==> lin.mem[l] == old(lin.mem[l])
    {
      hide InPlaceSafe, Live, Total, HeapOk, Kept, ZeroRange, TurnedDown;
      var h := heaps[i];
      ghost var m, lo, bs := lin.mem[..], h.base, h.blocks;
      HeapBounds(m, lo, h.size, h.offset, bs);
      LiveAt(lo, bs, k);
      OwnedByOne(i, (ptr, s));
      p, origSize := h.ResizeLive(ptr, sz, k);
      if InPlaceSafe(lo, h.size, bs, k, sz) {
        HeapBounds(lin.mem[..], lo, h.size, h.offset, h.blocks);
        InsideOneHeap((i, lin.pages * PAGE_WORDS));
        ghost var other := heaps[1 - i].LiveBlocks();
        SwapOne(Live(lo, bs), other, (ptr, s), (ptr, if sz < s then s else sz));
        KeptUnion(m, lin.mem[..], Live(lo, bs) - {(ptr, s)}, other);
      }
    }

    /** Live blocks, of whichever heaps, never overlap; not even with each other's headers. */
    lemma LiveBlocksDisjoint(x: (nat, nat), y: (nat, nat))
      requires Valid() && x in LiveBlocks() && y in LiveBlocks() && x != y
      ensures x.0 + x.1 < y.0 || y.0 + y.1 < x.0
    {
      var i := if x in heaps[0].LiveBlocks() then 0 else 1;
      LiveInside(heaps[i].base, heaps[i].blocks, x);
      if y in heaps[i].LiveBlocks() {
        LiveDisjoint(heaps[i].base, heaps[i].blocks, x, y);
      } else {
        LiveInside(heaps[1 - i].base, heaps[1 - i].blocks, y);
      }
    }

    /** A pointer is that of one live block only. */
    lemma OneSize(ptr: nat, s: nat)
      requires Valid() && (ptr, s) in LiveBlocks()
      ensures forall u :: (ptr, u) in LiveBlocks() ==> u == s
    {
      forall u | (ptr, u) in LiveBlocks() ensures u == s {
        if u != s {
          LiveBlocksDisjoint((ptr, s), (ptr, u));
        }
      }
    }

    /** What is written inside one live block leaves the allocator and all other blocks alone. */
    twostate lemma WroteInside(x: (nat, nat))
      requires old(Valid()) && x in old(LiveBlocks())
      requires unchanged(this) && unchanged(lin) && forall j :: 0 <= j < |heaps| ==> unchanged(heaps[j])
      requires forall i :: 0 <= i < lin.mem.Length && !(x.0 <= i < x.0 + x.1) ==> lin.mem[i] == old(lin.mem[i])
      ensures Valid() && Kept(old(lin.mem[..]), lin.mem[..], LiveBlocks() - {x})
    {
      assert unchanged(heaps[0]) && unchanged(heaps[1]);
      var i := if x in heaps[0].LiveBlocks() then 0 else 1;
      var h := heaps[i];
      assert h.blocks != [] && !old(Blank(h));
      PayloadOk(old(lin.mem[..]), lin.mem[..], h.base, h.size, h.offset, h.blocks, x);
      InsideOneHeap((i, lin.pages * PAGE_WORDS));
      OwnedByOne(i, x);
      MinusOne(h.LiveBlocks(), heaps[1 - i].LiveBlocks(), x);
      KeptUnion(old(lin.mem[..]), lin.mem[..], h.LiveBlocks() - {x}, heaps[1 - i].LiveBlocks());
    }

    /** `memcpy` between two live blocks. */
    method CopyWords(dst: nat, src: nat, n: nat, ghost d: nat, ghost s: nat)
      requires Valid() && (dst, d) in LiveBlocks() && (src, s) in LiveBlocks() && (dst, d) != (src, s)
      requires n <= d && n <= s
      modifies lin.mem
      ensures Valid() && LiveBlocks() == old(LiveBlocks())
      ensures Kept(old(lin.mem[..]), lin.mem[..], old(LiveBlocks()) - {(dst, d)})
      ensures dst + n <= lin.mem.Length && src + n <= lin.mem.Length
      ensures lin.mem[dst..dst + n] == old(lin.mem[..])[src..src + n]
    {
      hide Valid, LiveBlocks, Kept;
      ValidBasics();
      InMemory((dst, d));
      InMemory((src, s));
      LiveBlocksDisjoint((dst, d), (src, s));
      CopyRange(lin.mem, dst, src, n);
      WroteInside((dst, d));
      SameLive();
    }

    twostate lemma SameLive()
      requires |heaps| == HEAPS_SIZE && forall j :: 0 <= j < |heaps| ==> unchanged(heaps[j])
      ensures LiveBlocks() == old(LiveBlocks())
    {
      assert unchanged(heaps[0]) && unchanged(heaps[1]);
    }

    lemma InMemory(x: (nat, nat))
      requires Valid() && x in LiveBlocks()
      ensures 1 <= x.0 && x.0 + x.1 <= lin.mem.Length && 1 <= x.1
    {
      var i := if x in heaps[0].LiveBlocks() then 0 else 1;
      LiveInside(heaps[i].base, heaps[i].blocks, x);
      var k := LiveIndex(heaps[i].base, heaps[i].blocks, x);
      assert heaps[i].blocks[k].size % 2 == 1;
    }

    /** A store by the program into a block it holds. */
    method Store(ptr: nat, index: nat, w: Word, ghost s: nat)
      requires Valid() && (ptr, s) in LiveBlocks() && index < s
      modifies lin.mem
      ensures Valid() && LiveBlocks() == old(LiveBlocks())
      ensures Kept(old(lin.mem[..]), lin.mem[..], old(LiveBlocks()) - {(ptr, s)})
      ensures ptr + index < lin.mem.Length && lin.mem[ptr + index] == w
    {
      InMemory((ptr, s));
      lin.mem[ptr + index] := w;
      WroteInside((ptr, s));
    }

    method CopyAndFree(dst: nat, src: nat, n: nat, ghost d: nat, ghost s: nat) returns (ghost m2: seq<Word>)
      requires Valid() && (dst, d) in LiveBlocks() && (src, s) in LiveBlocks() && (dst, d) != (src, s)
      requires n <= d && n <= s
      modifies lin.mem, heaps[0], heaps[1]
      ensures Valid() && LiveBlocks() == old(LiveBlocks()) - {(src, s)}
      ensures |m2| == lin.mem.Length && dst + n <= |m2| && src + n <= |m2|
      ensures m2[dst..dst + n] == old(lin.mem[..])[src..src + n]
      ensures Kept(old(lin.mem[..]), m2, old(LiveBlocks()) - {(dst, d)}) && Kept(m2, lin.mem[..], old(LiveBlocks()))
    {
      CopyWords(dst, src, n, d, s);
      m2 := lin.mem[..];
      InMemory((src, s));
      Free(src, s);
    }

    /** The contents of an old block go to a new one, and the old one is given back. */
    method Transfer(dst: nat, src: nat, n: nat, ghost d: nat, ghost s: nat, ghost m0: seq<Word>,
                    ghost live0: set<(nat, nat)>)
      requires Valid() && LiveBlocks() == live0 + {(dst, d)} && (src, s) in live0 && (dst, d) !in live0
      requires n <= d && n <= s && Kept(m0, lin.mem[..], live0)
      modifies lin.mem, heaps[0], heaps[1]
      ensures Valid() && LiveBlocks() == live0 - {(src, s)} + {(dst, d)}
      ensures Kept(m0, lin.mem[..], live0 - {(src, s)}) && SameStart(m0, src, lin.mem[..], dst, n)
    {
      hide Valid, Kept, LiveBlocks, SameStart;
      ghost var m1 := lin.mem[..];
      ghost var m2 := CopyAndFree(dst, src, n, d, s);
      Moved(m0, m1, m2, lin.mem[..], live0, (src, s), (dst, d), n);
    }

    /** A new block for the contents of an old one, which is given back. */
    method Move(ptr: nat, n: nat, origSize: nat, ghost s: nat) returns (r: nat)
      requires Valid() && 0 < n < SIZE_T && Unwrapped(BlockWords(n))
      requires if origSize == 0 then (ptr, s) !in LiveBlocks() else origSize == s && (ptr, s) in LiveBlocks()
      modifies this, lin, lin.mem, heaps[0], heaps[1]
      ensures Valid()
      ensures r == 0 ==> LiveBlocks() == old(LiveBlocks()) && Kept(old(lin.mem[..]), lin.mem[..], old(LiveBlocks()))
      ensures r == 0 ==> Exhausted() && forall i :: 0 <= i < activeHeap ==> NoFitIn(i, BlockWords(n))
      ensures Found(BlockWords(n), r)
      ensures origSize != 0 ==> r != ptr
      ensures r != 0 ==>
                && (r, BlockWords(n)) !in old(LiveBlocks())
                && LiveBlocks() == old(LiveBlocks()) - {(ptr, s)} + {(r, BlockWords(n))}
                && Kept(old(lin.mem[..]), lin.mem[..], old(LiveBlocks()) - {(ptr, s)})
                && (origSize != 0 ==>
                      SameStart(old(lin.mem[..]), ptr, lin.mem[..], r, if BlockWords(n) < s then BlockWords(n) else s))
    {
      hide Valid, Kept, LiveBlocks, BumpResult, NoFitIn, Outcome, Unwrapped, BlockWords, AdjustToMemBlock, SameStart;
      ValidBasics();
      AdjustedAgain(n);
      ghost var m0, live0 := lin.mem[..], LiveBlocks();
      if origSize != 0 {
        InMemory((ptr, s));
      }
      r := Malloc(n);
      if r == 0 {
        return 0;
      }
      if origSize != 0 {
        LiveBlocksDisjoint((ptr, s), (r, BlockWords(n)));
      }
      var sz := AdjustToMemBlock(n) / 4;
      var copySize := if sz < origSize then sz else origSize;
      if copySize > 0 {
        Transfer(r, ptr, copySize, sz, s, m0, live0);
      } else {
        KeptSubset(m0, lin.mem[..], live0, live0 - {(ptr, s)});
      }
    }

    /** Find the heap of a block and resize the block there. */
    method TryInPlace(ptr: nat, sz: nat, ghost s: nat) returns (r: nat, origSize: nat)
      requires Valid() && (Foreign(ptr) || (ptr, s) in LiveBlocks()) && sz % 2 == 1 && sz < ADDRESS_SPACE
      modifies lin.mem, heaps[0], heaps[1]
      ensures Valid() <==> old(ResizeSafe(ptr, s, sz))
      ensures origSize == (if old(Foreign(ptr)) then 0 else s) && (r == 0 || (r == ptr && old(!Foreign(ptr))))
      ensures r == 0 ==> Valid() && LiveBlocks() == old(LiveBlocks()) && lin.mem[..] == old(lin.mem[..])
      ensures r != 0 <==> old(StaysPut(ptr, s, sz))
      ensures r == 0 ==> unchanged(heaps[0]) && unchanged(heaps[1])
      ensures r != 0 ==> forall u :: (ptr, u) in old(LiveBlocks()) ==> u == s
      ensures Valid() && r != 0 ==>
                && LiveBlocks() == old(LiveBlocks()) - {(ptr, s)} + {(ptr, if sz < s then s else sz)}
                && SameStart(old(lin.mem[..]), ptr, lin.mem[..], ptr, if sz < s then sz else s)
      ensures Valid() ==> Kept(old(lin.mem[..]), lin.mem[..], old(LiveBlocks()) - {(ptr, s)})
    {
      hide Live, Total, HeapOk, Kept, ZeroRange, InPlaceSafe, ResizeSafe, StaysPut, HeapTakes;
      ForeignNotLive(ptr, s, sz);
      if (ptr, s) in LiveBlocks() {
        InMemory((ptr, s));
        FoundHeapOwns(ptr, s);
        OneSize(ptr, s);
      }
      var found, i := FindHeap(ptr);
      if !found {
        KeptSame(lin.mem[..], LiveBlocks() - {(ptr, s)});
        return 0, 0;
      }
      ghost var k := LiveIndex(heaps[i].base, heaps[i].blocks, (ptr, s));
      SafeAt(i, k, ptr, s, sz);
      r, origSize := ResizeIn(i, ptr, sz, s, k);
    }

    /**
     `realloc`: the block keeps its place where it can, else its contents move. Without a result the
     old block is still there, untouched.
     */
    method Realloc(ptr: nat, n: nat, ghost s: nat) returns (r: nat, ghost s': nat)
      requires Valid() && n < SIZE_T && (n > 0 ==> Unwrapped(BlockWords(n)))
               && (Foreign(ptr) || (ptr, s) in LiveBlocks())
      modifies this, lin, lin.mem, heaps[0], heaps[1]
      ensures Valid() <==> n == 0 || old(ResizeSafe(ptr, s, BlockWords(n)))
      ensures n == 0 ==> r == 0 && LiveBlocks() == old(LiveBlocks()) - {(ptr, s)}
      ensures n > 0 && r == 0 ==>
                Valid() && LiveBlocks() == old(LiveBlocks()) && Kept(old(lin.mem[..]), lin.mem[..], old(LiveBlocks()))
      ensures n > 0 && r == 0 ==> Exhausted() && forall i :: 0 <= i < activeHeap ==> NoFitIn(i, BlockWords(n))
      ensures n > 0 && (ptr, s) in old(LiveBlocks()) ==> (r == ptr <==> old(StaysPut(ptr, s, BlockWords(n))))
      ensures n > 0 && old(!StaysPut(ptr, s, BlockWords(n))) ==> Found(BlockWords(n), r)
      ensures n > 0 ==> s' == if old(StaysPut(ptr, s, BlockWords(n))) && BlockWords(n) < s then s else BlockWords(n)
      ensures n > 0 && r != 0 ==> (r, s') !in old(LiveBlocks()) - {(ptr, s)}
      ensures n > 0 && r != 0 && Valid() ==>
                && BlockWords(n) <= s'
                && LiveBlocks() == old(LiveBlocks()) - {(ptr, s)} + {(r, s')}
                && (old(!Foreign(ptr)) ==>
                      SameStart(old(lin.mem[..]), ptr, lin.mem[..], r, if BlockWords(n) < s then BlockWords(n) else s))
      ensures Valid() ==> Kept(old(lin.mem[..]), lin.mem[..], old(LiveBlocks()) - {(ptr, s)})
    {
      hide Valid, ResizeSafe, LiveBlocks, Kept, BlockWords, SameStart, AdjustToMemBlock, Foreign, StaysPut;
      hide BumpResult, NoFitIn, Outcome, Unwrapped;
      ValidBasics();
      AdjustedAgain(n);
      s' := 0;
      ghost var m, live := lin.mem[..], LiveBlocks();
      if n == 0 {
        Free(ptr, s);
        KeptSubset(m, lin.mem[..], live, live - {(ptr, s)});
        return 0, 0;
      }
      var sz := AdjustToMemBlock(n) / 4;
      s' := BlockWords(n);
      ForeignNotLive(ptr, s, sz);
      var origSize := 0;
      if ptr != 0 {
        r, origSize := TryInPlace(ptr, sz, s);
        if r != 0 {
          s' := if sz < s then s else sz;
          return;
        }
        SameSupply(sz);
      }
      r := Move(ptr, AdjustToMemBlock(n), origSize, s);
      if r == 0 {
        KeptSubset(m, lin.mem[..], live, live - {(ptr, s)});
      }
    }
  }
}
