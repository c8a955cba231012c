/**
 The linear memory of the module, the host's page counter, and `sbrk` on top of it. Byte quantities
 are used here as in the program; `mem` is indexed by words.
 */
module LinearMemory {
  import opened HeapBlocks

  /** `NBBP`, the bytes of a page, also `wasm_page_size` */
  const PAGE: nat := 65536
  const PAGE_WORDS: nat := 16384
  const INT32_MAX: nat := 0x7FFF_FFFF
  const SIZE_T: nat := 0x1_0000_0000

  datatype Address = Null | At(bytes: nat)

  /** `(n + 7) & ~7` */
  function RoundUp8(n: nat): (r: nat)
    ensures n <= r < n + 8 && r % 8 == 0
  {
    (n + 7) / 8 * 8
  }

  /** The pages that hold so many bytes. */
  function PagesFor(bytes: nat): (w: nat)
    ensures bytes <= w * PAGE && (w > 0 ==> (w - 1) * PAGE < bytes)
  {
    (bytes + PAGE - 1) / PAGE
  }

  /** The sum does not wrap below 4 GiB. */
  lemma {:induction false} PagesWanted(brk: nat, num: nat)
    ensures brk + num + PAGE - 1 < SIZE_T ==> ((brk + num + PAGE - 1) % SIZE_T) / PAGE == PagesFor(brk + num)
  {
  }

  class Linear {
    const mem: array<Word>
    /** The most pages the host will ever grant. */
    const limit: nat
    /** The host's answer to each request for more memory, in the order in which they are made. */
    const host: nat -> bool
    /** How often the host has been asked. */
    var asked: nat
    var pages: nat
    var initialized: bool
    var sbrkBytes: nat

    /** Bit 31 of a header is the allocation flag, so the memory has to stay below 2 GiB. */
    ghost predicate Valid()
      reads this
    {
      && limit < 32768 && mem.Length == limit * PAGE_WORDS
      && pages <= limit
      && (initialized ==> sbrkBytes <= pages * PAGE)
    }

    /** The break, also before the first call has recorded it. */
    ghost function Break(): nat
      reads this
    {
      if initialized then sbrkBytes else pages * PAGE
    }

    /** The host will grant `n` more pages when it is asked next. */
    predicate Grants(n: nat)
      reads this
    {
      pages + n <= limit && host(asked)
    }

    constructor (pages: nat, limit: nat, host: nat -> bool)
      requires pages <= limit < 32768
      ensures Valid() && this.pages == pages && this.limit == limit && !initialized
      ensures this.host == host && asked == 0
      ensures forall i :: 0 <= i < mem.Length ==> mem[i] == 0
      ensures fresh(mem)
    {
      this.pages, this.limit, this.host, asked := pages, limit, host, 0;
      initialized, sbrkBytes := false, 0;
      mem := new Word[limit * PAGE_WORDS](_ => 0);
    }

    /** `memory.grow`: the host may refuse at any time, and grants all pages or none. */
    method Grow(n: nat) returns (ok: bool)
      requires Valid()
      modifies this`pages, this`asked
      ensures Valid() && asked == old(asked) + 1
      ensures ok <==> old(Grants(n))
      ensures pages == old(pages) + if ok then n else 0
    {
      ok := Grants(n);
      asked := asked + 1;
      if ok {
        pages := pages + n;
      }
    }

    /** Moves the break up by `numBytes` rounded up, growing the memory by whole pages as needed. */
    method Sbrk(numBytes: nat) returns (r: Address)
      requires Valid() && numBytes < SIZE_T
      modifies this
      ensures Valid() && initialized
      ensures r.Null? ==> Break() == old(Break()) && pages == old(pages)
      ensures r.At? ==> r.bytes == old(Break()) && Break() == old(Break()) + RoundUp8(numBytes)
      ensures var more := old(PagesFor(Break() + RoundUp8(numBytes)) - pages);
              if numBytes > 0x7FFF_FFFF then r.Null? && asked == old(asked)
              else if more <= 0 then r.At? && asked == old(asked) && pages == old(pages)
              else asked == old(asked) + 1 && if old(Grants(more)) then r.At? && pages == old(pages) + more else r.Null?
    {
      if !initialized {
        sbrkBytes := pages * PAGE;
        initialized := true;
      }
      if numBytes > INT32_MAX {
        return Null;
      }
      hide RoundUp8, PagesFor;
      var prev, currentPages := sbrkBytes, pages;
      var num := RoundUp8(numBytes);
      PagesWanted(sbrkBytes, num);
      var desired := ((sbrkBytes + num + PAGE - 1) % SIZE_T) / PAGE;
      if desired > currentPages {
        var ok := Grow(desired - currentPages);
        if !ok {
          return Null;
        }
      }
      sbrkBytes := sbrkBytes + num;
      return At(prev);
    }
  }
}
