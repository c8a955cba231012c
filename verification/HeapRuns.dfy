/**
 Two runs of the allocator from the start, with the pointers it hands out.
 */
module HeapRuns {
  import opened LinearMemory
  import opened MemoryManager

  /** Bump allocation in the static heap, with `offset` words handed out and no page asked for. */
  ghost predicate InStaticHeap(m: Manager, host: nat -> bool, offset: nat)
    reads m, m.lin, m.lin.mem, m.heaps
  {
    && m.Valid() && !m.Exhausted() && m.activeHeap == 0 && m.heaps[0].offset == offset
    && m.initialHeap == 1024 && m.firstBreak == 2 * 16384
    && m.lin.pages == 2 && m.lin.limit == 100 && m.lin.asked == 0 && m.lin.host == host
  }

  /** A module of two pages. */
  method Begin(host: nat -> bool) returns (m: Manager)
    ensures fresh(m) && fresh(m.lin) && fresh(m.lin.mem) && fresh(set h | h in m.heaps)
    ensures InStaticHeap(m, host, 0)
  {
    var lin := new Linear(2, 100, host);
    m := new Manager(lin, 1024);
  }

  lemma {:induction false} Sizes()
    ensures BlockWords(8188) == 2047 && BlockWords(16380) == 4095
  {
  }

  /** What the second request takes: one page, at the break. */
  lemma {:induction false} SecondNeedsPage(m: Manager, host: nat -> bool)
    requires InStaticHeap(m, host, 2048)
    ensures m.Need(4095) == 1 && m.BumpPtr(4095) == 32769
    ensures m.BumpResult(4095) == if host(0) then 32769 else 0
  {
    assert MorePages(0, 16384, 4095) == 0;
  }

  lemma {:induction false} FirstFits(m: Manager, host: nat -> bool)
    requires InStaticHeap(m, host, 0)
    ensures m.Need(2047) == 0 && m.BumpPtr(2047) == 1025 && m.BumpResult(2047) == 1025
  {
  }

  /** The first 8188 bytes fill the static heap exactly. */
  method FillStaticHeap(m: Manager, host: nat -> bool) returns (p: nat)
    requires InStaticHeap(m, host, 0)
    modifies m, m.lin, m.lin.mem, m.heaps[0], m.heaps[1]
    ensures p == 1025 && InStaticHeap(m, host, 2048)
  {
    hide BlockWords, AdjustToMemBlock;
    Sizes();
    FirstFits(m, host);
    m.SmallRequest(8188);
    p := m.Malloc(8188);
  }

  /** The next 16380 come from the page after the break, if the host grants it; else bump allocation is over. */
  method FirstPage(host: nat -> bool) returns (p: nat, q: nat, pages: nat, asked: nat)
    ensures p == 1025 && asked == 1
    ensures host(0) ==> q == 32769 && pages == 3
    ensures !host(0) ==> pages == 2
  {
    var m := Begin(host);
    p := FillStaticHeap(m, host);
    q := AskForPage(m, host);
    pages, asked := m.lin.pages, m.lin.asked;
  }

  method AskForPage(m: Manager, host: nat -> bool) returns (q: nat)
    requires InStaticHeap(m, host, 2048)
    modifies m, m.lin, m.lin.mem, m.heaps[0], m.heaps[1]
    ensures m.lin.asked == 1 && m.lin.pages == (if host(0) then 3 else 2) && (host(0) ==> q == 32769)
  {
    hide BlockWords, AdjustToMemBlock;
    Sizes();
    SecondNeedsPage(m, host);
    m.SmallRequest(16380);
    q := m.Malloc(16380);
  }
}
