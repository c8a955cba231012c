/**
 The block structure that the allocator keeps inside its heaps.

 Everything here is counted in words of `sizeof(size_t)` = 4 bytes: `_size_marker` is one word,
 `_mem_block` is two words, and an address is a word index into the linear memory. The header word
 itself holds what the program stores, a size in bytes with the allocation flag in bit 31.
 */
module HeapBlocks {

  type Word = w: nat | w < 0x1_0000_0000

  /** `_alloc_memory_mask` */
  const ALLOC_MASK: nat := 0x8000_0000

  /** Sizes from here on (in words) would run into the flag bit. */
  const SIZE_LIMIT: nat := 0x2000_0000

  /** Address and size arithmetic on wasm32 wraps at 2^32 bytes. */
  const ADDRESS_SPACE: nat := 0x4000_0000

  datatype Block = Block(size: nat, alloc: bool)

  function Header(b: Block): (w: Word)
    requires b.size < SIZE_LIMIT
    ensures HeaderSize(w) == b.size && HeaderIsAlloc(w) == b.alloc
  {
    4 * b.size + if b.alloc then ALLOC_MASK else 0
  }

  function HeaderSize(w: Word): nat {
    (w % ALLOC_MASK) / 4
  }

  predicate HeaderIsAlloc(w: Word) {
    w >= ALLOC_MASK
  }

  function Foot(b: Block): nat {
    b.size + 1
  }

  /** The words a list of blocks covers, headers included. */
  function Total(bs: seq<Block>): nat {
    if bs == [] then 0 else Foot(bs[0]) + Total(bs[1..])
  }

  /** Reading headers from address `at` on finds exactly the blocks `bs`, end to end. */
  ghost predicate Tiles(m: seq<Word>, at: nat, bs: seq<Block>)
    decreases |bs|
  {
    bs == [] ||
    (at < |m| && bs[0].size < SIZE_LIMIT && m[at] == Header(bs[0]) && Tiles(m, at + Foot(bs[0]), bs[1..]))
  }

  /** `size + _size_marker` is a multiple of `_mem_block` */
  predicate Aligned(bs: seq<Block>) {
    forall i :: 0 <= i < |bs| ==> bs[i].size % 2 == 1
  }

  predicate AllFree(bs: seq<Block>) {
    forall i :: 0 <= i < |bs| ==> !bs[i].alloc
  }

  /** The (pointer, size) pairs of the allocated blocks. */
  function Live(at: nat, bs: seq<Block>): set<(nat, nat)>
    decreases |bs|
  {
    if bs == [] then {}
    else (if bs[0].alloc then {(at + 1, bs[0].size)} else {}) + Live(at + Foot(bs[0]), bs[1..])
  }

  // ----- concatenation laws -----

  lemma {:induction false} TotalConcat(a: seq<Block>, b: seq<Block>)
    ensures Total(a + b) == Total(a) + Total(b)
  {
    if a == [] {
      assert a + b == b;
    } else {
      assert (a + b)[1..] == a[1..] + b;
      TotalConcat(a[1..], b);
    }
  }

  lemma TotalNone()
    ensures Total([]) == 0
  {
  }

  lemma TotalOne(b: Block)
    ensures Total([b]) == Foot(b)
  {
    assert [b][1..] == [];
  }

  lemma {:induction false} TilesConcat(m: seq<Word>, at: nat, a: seq<Block>, b: seq<Block>)
    ensures Tiles(m, at, a + b) <==> Tiles(m, at, a) && Tiles(m, at + Total(a), b)
    decreases |a|
  {
    if a == [] {
      assert a + b == b;
    } else {
      assert (a + b)[1..] == a[1..] + b;
      TilesConcat(m, at + Foot(a[0]), a[1..], b);
    }
  }

  lemma {:induction false} TilesOne(m: seq<Word>, at: nat, b: Block)
    requires at < |m| && b.size < SIZE_LIMIT && m[at] == Header(b)
    ensures Tiles(m, at, [b])
  {
    assert [b][1..] == [];
  }

  lemma {:induction false} LiveConcat(at: nat, a: seq<Block>, b: seq<Block>)
    ensures Live(at, a + b) == Live(at, a) + Live(at + Total(a), b)
    decreases |a|
  {
    if a == [] {
      assert a + b == b;
    } else {
      assert (a + b)[1..] == a[1..] + b;
      LiveConcat(at + Foot(a[0]), a[1..], b);
    }
  }

  /** Headers outside the covered range do not matter. */
  lemma {:induction false} TilesFrame(m: seq<Word>, m': seq<Word>, at: nat, bs: seq<Block>)
    requires Tiles(m, at, bs) && |m'| == |m|
    requires forall i :: at <= i < at + Total(bs) && i < |m| ==> m'[i] == m[i]
    ensures Tiles(m', at, bs)
    decreases |bs|
  {
    if bs != [] {
      TilesFrame(m, m', at + Foot(bs[0]), bs[1..]);
    }
  }

  /** The rewriting step behind every operation: a stretch of blocks gives way to others over the same words. */
  lemma {:induction false} TilesReplace(m: seq<Word>, m': seq<Word>, at: nat, pre: seq<Block>, mid: seq<Block>,
                                        mid': seq<Block>, post: seq<Block>)
    requires Tiles(m, at, pre + mid + post) && |m'| == |m|
    requires Total(mid') == Total(mid)
    requires forall i :: at <= i < |m| && !(at + Total(pre) <= i < at + Total(pre) + Total(mid)) ==> m'[i] == m[i]
    requires Tiles(m', at + Total(pre), mid')
    ensures Tiles(m', at, pre + mid' + post)
    ensures Total(pre + mid' + post) == Total(pre + mid + post)
  {
    assert Tiles(m, at, pre) && Tiles(m, at + Total(pre) + Total(mid), post) by {
      TilesConcat(m, at, pre + mid, post);
      TilesConcat(m, at, pre, mid);
      TotalConcat(pre, mid);
    }
    TilesFrame(m, m', at, pre);
    TilesFrame(m, m', at + Total(pre) + Total(mid), post);
    TilesJoin(m', at, pre, mid', post);
    TotalConcat(pre, mid);
    TotalConcat(pre + mid, post);
  }

  lemma {:induction false} TilesJoin(m: seq<Word>, at: nat, pre: seq<Block>, mid: seq<Block>, post: seq<Block>)
    requires Tiles(m, at, pre) && Tiles(m, at + Total(pre), mid) && Tiles(m, at + Total(pre) + Total(mid), post)
    ensures Tiles(m, at, pre + mid + post)
    ensures Total(pre + mid + post) == Total(pre) + Total(mid) + Total(post)
  {
    TotalConcat(pre, mid);
    TotalConcat(pre + mid, post);
    TilesConcat(m, at, pre, mid);
    TilesConcat(m, at, pre + mid, post);
  }

  /** Two readings of the same headers agree: the shorter one is a prefix of the longer one. */
  lemma {:induction false} TilesDeterministic(m: seq<Word>, at: nat, bs: seq<Block>, cs: seq<Block>)
    requires Tiles(m, at, bs) && Tiles(m, at, cs) && |bs| <= |cs|
    ensures bs <= cs
    decreases |bs|
  {
    if bs != [] {
      assert HeaderSize(Header(bs[0])) == bs[0].size && HeaderSize(Header(cs[0])) == cs[0].size;
      assert HeaderIsAlloc(Header(bs[0])) == bs[0].alloc && HeaderIsAlloc(Header(cs[0])) == cs[0].alloc;
      TilesDeterministic(m, at + Foot(bs[0]), bs[1..], cs[1..]);
    }
  }

  // ----- live blocks -----

  lemma {:induction false} LiveInside(at: nat, bs: seq<Block>, x: (nat, nat))
    requires x in Live(at, bs)
    ensures at < x.0 && x.0 + x.1 <= at + Total(bs)
    decreases |bs|
  {
    if !(bs[0].alloc && x == (at + 1, bs[0].size)) {
      LiveInside(at + Foot(bs[0]), bs[1..], x);
    }
  }

  /** Two live blocks share no word, not even each other's header. */
  lemma {:induction false} LiveDisjoint(at: nat, bs: seq<Block>, x: (nat, nat), y: (nat, nat))
    requires x in Live(at, bs) && y in Live(at, bs) && x != y
    ensures x.0 + x.1 < y.0 || y.0 + y.1 < x.0
    decreases |bs|
  {
    var at', rest := at + Foot(bs[0]), bs[1..];
    if x in Live(at', rest) {
      LiveInside(at', rest, x);
      if y in Live(at', rest) {
        LiveDisjoint(at', rest, x, y);
      }
    } else {
      LiveInside(at', rest, y);
    }
  }

  /** The address just past `pre` belongs to no live block before it or after it. */
  lemma {:induction false} LiveApart(base: nat, pre: seq<Block>, after: nat, post: seq<Block>, x: (nat, nat), at: nat)
    requires at == base + Total(pre) && x.0 == at + 1
    ensures x !in Live(base, pre)
    ensures at < after ==> x !in Live(after, post)
  {
    if x in Live(base, pre) {
      LiveInside(base, pre, x);
    }
    if at < after && x in Live(after, post) {
      LiveInside(after, post, x);
    }
  }

  /** A live pointer names one block of the list. */
  lemma {:induction false} LiveIndex(at: nat, bs: seq<Block>, x: (nat, nat)) returns (k: nat)
    requires x in Live(at, bs)
    ensures k < |bs| && bs[k] == Block(x.1, true) && x.0 == at + Total(bs[..k]) + 1
    decreases |bs|
  {
    if bs[0].alloc && x == (at + 1, bs[0].size) {
      k := 0;
    } else {
      k := LiveIndex(at + Foot(bs[0]), bs[1..], x);
      assert bs[..k + 1][1..] == bs[1..][..k];
      k := k + 1;
    }
  }

  lemma {:induction false} LiveAppend(at: nat, bs: seq<Block>, b: Block)
    ensures Live(at, bs + [b]) == Live(at, bs) + if b.alloc then {(at + Total(bs) + 1, b.size)} else {}
  {
    LiveConcat(at, bs, [b]);
    LiveOne(at + Total(bs), b);
  }

  lemma LiveNone(at: nat)
    ensures Live(at, []) == {}
  {
  }

  lemma {:induction false} LiveOne(at: nat, b: Block)
    ensures Live(at, [b]) == if b.alloc then {(at + 1, b.size)} else {}
  {
    assert [b][1..] == [];
  }

  // ----- merging a block with the free blocks after it -----

  /** How many of the blocks after a block of `size` words are taken to reach `needed`. */
  function Absorbed(size: nat, rest: seq<Block>, needed: nat): (k: nat)
    ensures k <= |rest| && forall l :: 0 <= l < k ==> !rest[l].alloc
    decreases |rest|
  {
    if size >= needed || rest == [] || rest[0].alloc then 0
    else 1 + Absorbed(size + Foot(rest[0]), rest[1..], needed)
  }

  /** The size of a block together with the blocks it takes. */
  function Gathered(size: nat, rest: seq<Block>, needed: nat): nat {
    size + Total(rest[..Absorbed(size, rest, needed)])
  }

  /** What the merge leaves of a block: itself, grown or cut to `needed`, and a free remainder if any. */
  function Merged(b: Block, rest: seq<Block>, needed: nat): seq<Block> {
    var got := Gathered(b.size, rest, needed);
    if got > needed then [Block(needed, b.alloc), Block(got - needed - 1, false)] else [Block(got, b.alloc)]
  }

  lemma {:induction false} MergedKeepsWords(b: Block, rest: seq<Block>, needed: nat)
    ensures var k := Absorbed(b.size, rest, needed);
            Total(Merged(b, rest, needed)) == Total([b] + rest[..k])
  {
    var k := Absorbed(b.size, rest, needed);
    TotalConcat([b], rest[..k]);
    TotalOne(b);
    var got := Gathered(b.size, rest, needed);
    if got > needed {
      var r := Block(got - needed - 1, false);
      TotalOne(r);
      assert Merged(b, rest, needed)[1..] == [r];
    } else {
      TotalOne(Block(got, b.alloc));
    }
  }

  /** Taking blocks stops early only at an allocated block or at the end. */
  lemma {:induction false} AbsorbedStops(size: nat, rest: seq<Block>, needed: nat)
    ensures var k := Absorbed(size, rest, needed);
            Gathered(size, rest, needed) < needed ==> k == |rest| || rest[k].alloc
    decreases |rest|
  {
    if !(size >= needed || rest == [] || rest[0].alloc) {
      GatheredStep(size, rest, needed);
      AbsorbedStops(size + Foot(rest[0]), rest[1..], needed);
    }
  }

  lemma {:induction false} GatheredStep(size: nat, rest: seq<Block>, needed: nat)
    requires !(size >= needed || rest == [] || rest[0].alloc)
    ensures Gathered(size, rest, needed) == Gathered(size + Foot(rest[0]), rest[1..], needed)
  {
    var k := Absorbed(size + Foot(rest[0]), rest[1..], needed);
    assert rest[..1 + k][1..] == rest[1..][..k];
  }

  /** If some stretch of free blocks suffices, the merge finds enough. */
  lemma {:induction false} GatheredSuffices(size: nat, rest: seq<Block>, needed: nat, j: nat)
    requires j <= |rest| && AllFree(rest[..j]) && size + Total(rest[..j]) >= needed
    ensures Gathered(size, rest, needed) >= needed
    decreases |rest|
  {
    if size < needed {
      assert j > 0 && !rest[..j][0].alloc;
      assert rest[..j][1..] == rest[1..][..j - 1];
      GatheredStep(size, rest, needed);
      var tail := rest[1..][..j - 1];
      assert AllFree(tail) by {
        forall i | 0 <= i < |tail| ensures !tail[i].alloc { assert tail[i] == rest[..j][i + 1]; }
      }
      GatheredSuffices(size + Foot(rest[0]), rest[1..], needed, j - 1);
    }
  }

  // ----- maximal free runs: what "enough contiguous memory" means -----

  /** Blocks i..j are free and no free block touches them on either side. */
  ghost predicate MaximalRun(bs: seq<Block>, i: nat, j: nat) {
    && i < j <= |bs|
    && (forall l :: i <= l < j ==> !bs[l].alloc)
    && (i == 0 || bs[i - 1].alloc)
    && (j == |bs| || bs[j].alloc)
  }

  ghost predicate Fits(bs: seq<Block>, i: nat, j: nat, needed: nat) {
    MaximalRun(bs, i, j) && Total(bs[i..j]) >= needed + 1
  }

  ghost predicate NoFitBelow(bs: seq<Block>, n: nat, needed: nat) {
    forall i: nat, j: nat :: i < n ==> !Fits(bs, i, j, needed)
  }

  /** The blocks of a heap once the `rest` words that are left of it are free. */
  function Filled(bs: seq<Block>, rest: int): seq<Block> {
    if rest <= 0 then bs else bs + [Block(rest - 1, false)]
  }

  /** `p` is the pointer at the start of the lowest run that fits. */
  ghost predicate FirstFit(base: nat, bs: seq<Block>, needed: nat, p: nat) {
    exists i: nat, j: nat :: Fits(bs, i, j, needed) && NoFitBelow(bs, i, needed) && p == base + Total(bs[..i]) + 1
  }

  lemma {:induction false} RunEnd(bs: seq<Block>, i: nat) returns (j: nat)
    requires i < |bs| && !bs[i].alloc
    ensures i < j <= |bs| && (forall l :: i <= l < j ==> !bs[l].alloc) && (j == |bs| || bs[j].alloc)
    decreases |bs| - i
  {
    j := i + 1;
    if j < |bs| && !bs[j].alloc {
      j := RunEnd(bs, j);
    }
  }

  lemma {:induction false} RunTotal(bs: seq<Block>, i: nat, j: nat)
    requires i < j <= |bs|
    ensures Total(bs[i..j]) == Foot(bs[i]) + Total(bs[i + 1..][..j - i - 1])
  {
    assert bs[i..j][1..] == bs[i + 1..][..j - i - 1];
  }

  /** A run that starts at free block `i` fits exactly when the merge from `i` succeeds. */
  lemma {:induction false} MergeDecidesFit(bs: seq<Block>, i: nat, needed: nat) returns (j: nat)
    requires i < |bs| && !bs[i].alloc && (i == 0 || bs[i - 1].alloc)
    ensures MaximalRun(bs, i, j)
    ensures Fits(bs, i, j, needed) <==> Gathered(bs[i].size, bs[i + 1..], needed) >= needed
    ensures !Fits(bs, i, j, needed) ==> j == i + 1 + Absorbed(bs[i].size, bs[i + 1..], needed)
  {
    j := RunEnd(bs, i);
    var rest := bs[i + 1..];
    var n := j - i - 1;
    var k := Absorbed(bs[i].size, rest, needed);
    RunTotal(bs, i, j);
    assert j < |bs| ==> rest[n] == bs[j];
    assert k <= n;
    assert rest[..n] == rest[..k] + rest[k..n];
    TotalConcat(rest[..k], rest[k..n]);
    AbsorbedStops(bs[i].size, rest, needed);
    assert k < n ==> rest[k] == bs[i + 1 + k];
    assert k == n ==> rest[k..n] == [];
  }

  // ----- payloads -----

  /** The payload words of the listed blocks are the same in both memories. */
  ghost predicate Kept(m: seq<Word>, m': seq<Word>, live: set<(nat, nat)>) {
    |m'| == |m| && forall x, i :: x in live && x.0 <= i < x.0 + x.1 && i < |m| ==> m'[i] == m[i]
  }

  /** Writing inside one stretch of blocks keeps the payloads of all others. */
  lemma {:induction false} KeptOutside(m: seq<Word>, m': seq<Word>, at: nat, pre: seq<Block>, mid: seq<Block>,
                                       post: seq<Block>)
    requires |m'| == |m|
    requires forall i :: at <= i < |m| && !(at + Total(pre) <= i < at + Total(pre) + Total(mid)) ==> m'[i] == m[i]
    ensures Kept(m, m', Live(at, pre) + Live(at + Total(pre) + Total(mid), post))
  {
    forall x, i | x in Live(at, pre) + Live(at + Total(pre) + Total(mid), post) && x.0 <= i < x.0 + x.1 && i < |m|
      ensures m'[i] == m[i]
    {
      if x in Live(at, pre) {
        LiveInside(at, pre, x);
      } else {
        LiveInside(at + Total(pre) + Total(mid), post, x);
      }
    }
  }

  lemma {:induction false} LiveSplit(at: nat, pre: seq<Block>, mid: seq<Block>, post: seq<Block>)
    ensures Live(at, pre + mid + post) ==
            Live(at, pre) + Live(at + Total(pre), mid) + Live(at + Total(pre) + Total(mid), post)
  {
    LiveConcat(at, pre + mid, post);
    LiveConcat(at, pre, mid);
    TotalConcat(pre, mid);
  }

  lemma {:induction false} LiveAllFree(at: nat, bs: seq<Block>)
    requires AllFree(bs)
    ensures Live(at, bs) == {}
    decreases |bs|
  {
    if bs != [] {
      LiveAllFree(at + Foot(bs[0]), bs[1..]);
    }
  }
}
