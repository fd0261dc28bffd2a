/** The first-fit coalescing heap of unit_tests/base/heap.c.

    The memory of the heap is seen through the block headers it holds: `headers` maps an address to the
    header stored there. The methods walk and relink those headers as the C code does; the ghost field
    `blocks` is the sequence of allocated and free blocks that tile the heap, and every method says what
    it does to that tiling. The laws of the tiling operations are lemmas about sequences of blocks. */
module Heap {
  import opened Words

  // Sizes on the 32-bit target: two 4-byte fields in a header, size_t modulo 2^32.
  const ALIGNMENT := 8
  const HEADER_SIZE := 8
  const MINIMUM_BLOCK_SIZE := 2 * HEADER_SIZE
  const ALLOCATED_BIT := 0x8000_0000
  const SIZE_LIMIT := 0x1_0000_0000
  const NULL := 0
  const TOTAL_HEAP_SIZE := 1024 * 1024

  datatype BlockLink = BlockLink(next: int, size: int)

  datatype Block = Block(addr: int, size: int, free: bool)

  // ---------- Tilings ----------

  function End(b: Block): int {
    b.addr + b.size
  }

  predicate WellSized(b: Block) {
    b.addr % ALIGNMENT == 0 && b.size % ALIGNMENT == 0 && MINIMUM_BLOCK_SIZE <= b.size
  }

  /** The blocks lie end to end and cover [lo, hi) exactly. */
  ghost predicate Tiling(bs: seq<Block>, lo: int, hi: int) {
    if bs == [] then lo == hi
    else bs[0].addr == lo && WellSized(bs[0]) && Tiling(bs[1..], End(bs[0]), hi)
  }

  /** No two neighbours are both free. */
  ghost predicate Coalesced(bs: seq<Block>) {
    forall i, j | 0 <= i < |bs| && j == i + 1 && j < |bs| :: !(bs[i].free && bs[j].free)
  }

  /** The blocks that are free, or those that are not, in address order. */
  function Select(bs: seq<Block>, free: bool): seq<Block> {
    if bs == [] then [] else (if bs[0].free == free then [bs[0]] else []) + Select(bs[1..], free)
  }

  function FreeBlocks(bs: seq<Block>): seq<Block> {
    Select(bs, true)
  }

  function LiveBlocks(bs: seq<Block>): seq<Block> {
    Select(bs, false)
  }

  function TotalSize(bs: seq<Block>): int {
    if bs == [] then 0 else bs[0].size + TotalSize(bs[1..])
  }

  function FreeBytes(bs: seq<Block>): int {
    TotalSize(FreeBlocks(bs))
  }

  lemma {:induction false} TilingConcat(a: seq<Block>, b: seq<Block>, lo: int, hi: int)
    ensures Tiling(a + b, lo, hi) <==>
            (Tiling(a, lo, if b == [] then hi else b[0].addr) && Tiling(b, if b == [] then hi else b[0].addr, hi))
  {
    if a == [] {
      assert a + b == b;
    } else {
      assert (a + b)[1..] == a[1..] + b;
      TilingConcat(a[1..], b, End(a[0]), hi);
    }
  }

  lemma {:induction false} SelectConcat(a: seq<Block>, b: seq<Block>, free: bool)
    ensures Select(a + b, free) == Select(a, free) + Select(b, free)
  {
    if a == [] {
      assert a + b == b;
    } else {
      assert (a + b)[1..] == a[1..] + b;
      SelectConcat(a[1..], b, free);
      var first := if a[0].free == free then [a[0]] else [];
      assert first + (Select(a[1..], free) + Select(b, free)) == (first + Select(a[1..], free)) + Select(b, free);
    }
  }

  lemma FreeBlocksConcat(a: seq<Block>, b: seq<Block>)
    ensures FreeBlocks(a + b) == FreeBlocks(a) + FreeBlocks(b)
    ensures LiveBlocks(a + b) == LiveBlocks(a) + LiveBlocks(b)
  {
    hide Select;
    SelectConcat(a, b, true);
    SelectConcat(a, b, false);
  }

  lemma {:induction false} TotalSizeConcat(a: seq<Block>, b: seq<Block>)
    ensures TotalSize(a + b) == TotalSize(a) + TotalSize(b)
  {
    if a == [] {
      assert a + b == b;
    } else {
      assert (a + b)[1..] == a[1..] + b;
      TotalSizeConcat(a[1..], b);
    }
  }

  lemma FilterOne(b: Block)
    ensures FreeBlocks([]) == LiveBlocks([]) == []
    ensures FreeBlocks([b]) == if b.free then [b] else []
    ensures LiveBlocks([b]) == if b.free then [] else [b]
  {
    assert [b][1..] == [];
  }

  lemma TilingCons(b: Block, c: seq<Block>, hi: int)
    ensures Tiling([b] + c, b.addr, hi) <==> WellSized(b) && Tiling(c, End(b), hi)
  {
    assert ([b] + c)[1..] == c;
  }

  lemma TilingFirst(bs: seq<Block>, lo: int, hi: int)
    requires Tiling(bs, lo, hi)
    ensures bs != [] ==> bs[0].addr == lo && WellSized(bs[0])
  {
  }

  lemma TilingSnoc(a: seq<Block>, b: Block, lo: int, hi: int)
    ensures Tiling(a + [b], lo, hi) <==> Tiling(a, lo, b.addr) && WellSized(b) && End(b) == hi
  {
    TilingConcat(a, [b], lo, hi);
  }

  lemma TilingAround(a: seq<Block>, m: Block, c: seq<Block>, lo: int, hi: int)
    requires Tiling(a, lo, m.addr) && WellSized(m) && Tiling(c, End(m), hi)
    ensures Tiling(a + [m] + c, lo, hi)
  {
    hide Tiling;
    TilingCons(m, c, hi);
    TilingConcat(a, [m] + c, lo, hi);
    assert a + [m] + c == a + ([m] + c);
  }

  /** A tiling cut at a block: what lies before it, the block, what lies after it. */
  lemma TilingAt(bs: seq<Block>, lo: int, hi: int, k: nat)
    requires Tiling(bs, lo, hi) && k < |bs|
    ensures bs == bs[..k] + [bs[k]] + bs[k + 1..]
    ensures Tiling(bs[..k], lo, bs[k].addr)
    ensures WellSized(bs[k])
    ensures Tiling(bs[k + 1..], End(bs[k]), hi)
    ensures FreeBlocks(bs) == FreeBlocks(bs[..k]) + FreeBlocks([bs[k]]) + FreeBlocks(bs[k + 1..])
    ensures LiveBlocks(bs) == LiveBlocks(bs[..k]) + LiveBlocks([bs[k]]) + LiveBlocks(bs[k + 1..])
  {
    assert bs == bs[..k] + bs[k..];
    assert bs[k..][1..] == bs[k + 1..];
    TilingConcat(bs[..k], bs[k..], lo, hi);
    assert bs == bs[..k] + [bs[k]] + bs[k + 1..];
    FreeBlocksConcat(bs[..k], [bs[k]]);
    FreeBlocksConcat(bs[..k] + [bs[k]], bs[k + 1..]);
  }

  /** Blocks sit between the two bounds and in increasing address order. */
  ghost predicate Sorted(fl: seq<Block>, lo: int, hi: int) {
    && (forall i | 0 <= i < |fl| :: WellSized(fl[i]) && lo <= fl[i].addr && End(fl[i]) <= hi)
    && (forall i, j | 0 <= i < j < |fl| :: End(fl[i]) <= fl[j].addr)
  }

  lemma {:induction false} TilingSorted(bs: seq<Block>, lo: int, hi: int)
    requires Tiling(bs, lo, hi)
    ensures lo <= hi && Sorted(bs, lo, hi)
  {
    if bs == [] {
    } else {
      TilingSorted(bs[1..], End(bs[0]), hi);
      assert forall i | 0 < i < |bs| :: bs[i] == bs[1..][i - 1];
    }
  }

  lemma {:induction false} FilteredBlocks(bs: seq<Block>)
    ensures forall b | b in FreeBlocks(bs) :: b.free && b in bs
    ensures forall b | b in LiveBlocks(bs) :: !b.free && b in bs
    ensures forall b | b in bs :: b in (if b.free then FreeBlocks(bs) else LiveBlocks(bs))
  {
    if bs == [] {
    } else {
      FilteredBlocks(bs[1..]);
      assert bs == [bs[0]] + bs[1..];
    }
  }

  lemma {:induction false} FilteredSorted(bs: seq<Block>, lo: int, hi: int)
    requires Tiling(bs, lo, hi)
    ensures Sorted(FreeBlocks(bs), lo, hi) && Sorted(LiveBlocks(bs), lo, hi)
  {
    if bs == [] {
    } else {
      TilingSorted(bs[1..], End(bs[0]), hi);
      FilteredSorted(bs[1..], End(bs[0]), hi);
    }
  }

  // ---------- What the operations do to a tiling ----------

  /** `b`, now free, between the blocks `a` and `c`, joined with the last of `a` and the first of `c` on demand. */
  function Join(a: seq<Block>, b: Block, c: seq<Block>, left: bool, right: bool): seq<Block>
    requires left ==> a != []
    requires right ==> c != []
  {
    a[..|a| - One(left)]
    + [Block(if left then a[|a| - 1].addr else b.addr,
             (if left then a[|a| - 1].size else 0) + b.size + (if right then c[0].size else 0), true)]
    + c[One(right)..]
  }

  predicate TouchesLeft(fl: seq<Block>, p: nat, b: Block)
    requires p <= |fl|
  {
    p > 0 && End(fl[p - 1]) == b.addr
  }

  predicate TouchesRight(fl: seq<Block>, p: nat, b: Block)
    requires p <= |fl|
  {
    p < |fl| && End(b) == fl[p].addr
  }

  /** `b` enters the free list before position `p` and joins the neighbours it touches. */
  function InsertAt(fl: seq<Block>, p: nat, b: Block): seq<Block>
    requires p <= |fl|
  {
    Join(fl[..p], b, fl[p..], TouchesLeft(fl, p, b), TouchesRight(fl, p, b))
  }

  predicate FreeBefore(bs: seq<Block>, k: nat)
    requires k < |bs|
  {
    k > 0 && bs[k - 1].free
  }

  predicate FreeAfter(bs: seq<Block>, k: nat)
    requires k < |bs|
  {
    k + 1 < |bs| && bs[k + 1].free
  }

  /** Block `k` becomes free and joins its free neighbours. */
  function Release(bs: seq<Block>, k: nat): seq<Block>
    requires k < |bs|
  {
    Join(bs[..k], bs[k], bs[k + 1..], FreeBefore(bs, k), FreeAfter(bs, k))
  }

  /** The front `size` bytes of the free block `k` are allocated; the rest stays free when it is big enough. */
  function Carve(bs: seq<Block>, k: nat, size: int): seq<Block>
    requires k < |bs|
  {
    var b := bs[k];
    bs[..k]
    + (if b.size - size > MINIMUM_BLOCK_SIZE
       then [Block(b.addr, size, false), Block(b.addr + size, b.size - size, true)]
       else [Block(b.addr, b.size, false)])
    + bs[k + 1..]
  }

  /** A request with its header, rounded up to the alignment. */
  function Adjusted(wanted: int): (size: int)
  {
    var withHeader := wanted + HEADER_SIZE;
    withHeader + (if withHeader % ALIGNMENT != 0 then ALIGNMENT - withHeader % ALIGNMENT else 0)
  }

  /** `k` is the lowest-address free block that holds `size` bytes. */
  ghost predicate FirstFit(bs: seq<Block>, size: int, k: nat) {
    k < |bs| && bs[k].free && size <= bs[k].size && forall i | 0 <= i < k && bs[i].free :: bs[i].size < size
  }

  // ---------- Release: the tiling and its free list ----------

  lemma SnocBlock(a: seq<Block>)
    requires a != []
    ensures FreeBlocks(a) == FreeBlocks(a[..|a| - 1]) + FreeBlocks([a[|a| - 1]])
    ensures LiveBlocks(a) == LiveBlocks(a[..|a| - 1]) + LiveBlocks([a[|a| - 1]])
  {
    assert a == a[..|a| - 1] + [a[|a| - 1]];
    FreeBlocksConcat(a[..|a| - 1], [a[|a| - 1]]);
  }

  /** Blocks before a cut end at or below it; only an adjoining block ends at it. */
  lemma BeforeCut(a: seq<Block>, lo: int, cut: int)
    requires Tiling(a, lo, cut)
    ensures forall b | b in FreeBlocks(a) :: lo <= b.addr < End(b) <= cut
    ensures forall b | b in LiveBlocks(a) :: lo <= b.addr < End(b) <= cut
    ensures FreeBlocks(a) != [] ==>
              (End(FreeBlocks(a)[|FreeBlocks(a)| - 1]) == cut <==> a[|a| - 1].free)
    ensures FreeBlocks(a) != [] && a[|a| - 1].free ==> FreeBlocks(a)[|FreeBlocks(a)| - 1] == a[|a| - 1]
    ensures FreeBlocks(a) == [] ==> a == [] || !a[|a| - 1].free
  {
    hide Select, Tiling, FreeBlocks, LiveBlocks;
    FilteredSorted(a, lo, cut);
    if a == [] {
      FilterOne(Block(0, 0, true));
    } else {
      SnocBlock(a);
      var n := |a| - 1;
      assert a == a[..n] + [a[n]];
      FilterOne(a[n]);
      TilingSnoc(a[..n], a[n], lo, cut);
      FilteredSorted(a[..n], lo, a[n].addr);
    }
  }

  lemma AfterCut(c: seq<Block>, cut: int, hi: int)
    requires Tiling(c, cut, hi)
    ensures forall b | b in FreeBlocks(c) :: cut <= b.addr < End(b) <= hi
    ensures forall b | b in LiveBlocks(c) :: cut <= b.addr < End(b) <= hi
    ensures FreeBlocks(c) != [] ==> (FreeBlocks(c)[0].addr == cut <==> c[0].free)
    ensures FreeBlocks(c) != [] && c[0].free ==> FreeBlocks(c)[0] == c[0]
    ensures FreeBlocks(c) == [] ==> c == [] || !c[0].free
  {
    FilteredSorted(c, cut, hi);
    if c != [] {
      FilteredSorted(c[1..], End(c[0]), hi);
    }
  }

  /** The position of block `k` in the free list is the number of free blocks before it. */
  lemma FreePosition(bs: seq<Block>, lo: int, hi: int, k: nat) returns (p: nat)
    requires Tiling(bs, lo, hi) && k < |bs|
    ensures p == |FreeBlocks(bs[..k])| <= |FreeBlocks(bs)|
    ensures !bs[k].free ==> FreeBlocks(bs)[..p] == FreeBlocks(bs[..k]) && FreeBlocks(bs)[p..] == FreeBlocks(bs[k + 1..])
    ensures bs[k].free ==> p < |FreeBlocks(bs)| && FreeBlocks(bs)[p] == bs[k]
    ensures forall t | 0 <= t < |FreeBlocks(bs)| :: t < p <==> FreeBlocks(bs)[t].addr < bs[k].addr
  {
    p := |FreeBlocks(bs[..k])|;
    TilingAt(bs, lo, hi, k);
    FilterOne(bs[k]);
    BeforeCut(bs[..k], lo, bs[k].addr);
    AfterCut(bs[k + 1..], End(bs[k]), hi);
    var before, after := FreeBlocks(bs[..k]), FreeBlocks(bs[k + 1..]);
    forall t | 0 <= t < |FreeBlocks(bs)|
      ensures t < p <==> FreeBlocks(bs)[t].addr < bs[k].addr
    {
      if t < p { assert before[t] in before; }
      else if t > p || !bs[k].free {
        var u := t - p - (if bs[k].free then 1 else 0);
        assert after[u] in after;
      }
    }
  }

  lemma FilterParts(a: seq<Block>, b: seq<Block>, c: seq<Block>)
    ensures FreeBlocks(a + b + c) == FreeBlocks(a) + FreeBlocks(b) + FreeBlocks(c)
    ensures LiveBlocks(a + b + c) == LiveBlocks(a) + LiveBlocks(b) + LiveBlocks(c)
  {
    FreeBlocksConcat(a, b);
    FreeBlocksConcat(a + b, c);
  }

  /** The three parts of a join, by name. */
  lemma JoinParts(a: seq<Block>, b: Block, c: seq<Block>, left: bool, right: bool)
    returns (a': seq<Block>, m: Block, c': seq<Block>)
    requires left ==> a != []
    requires right ==> c != []
    ensures Join(a, b, c, left, right) == a' + [m] + c'
    ensures a == a' + if left then [a[|a| - 1]] else []
    ensures c == (if right then [c[0]] else []) + c'
    ensures m == Block(if left then a[|a| - 1].addr else b.addr,
                       (if left then a[|a| - 1].size else 0) + b.size + (if right then c[0].size else 0), true)
  {
    a', c' := a[..|a| - One(left)], c[One(right)..];
    m := Join(a, b, c, left, right)[|a'|];
  }

  /** Joining commutes with looking at the free blocks only, and adds no live block. */
  lemma JoinFilters(a: seq<Block>, b: Block, c: seq<Block>, left: bool, right: bool)
    requires left ==> a != [] && a[|a| - 1].free
    requires right ==> c != [] && c[0].free
    ensures left ==> FreeBlocks(a) != []
    ensures right ==> FreeBlocks(c) != []
    ensures FreeBlocks(Join(a, b, c, left, right)) == Join(FreeBlocks(a), b, FreeBlocks(c), left, right)
    ensures LiveBlocks(Join(a, b, c, left, right)) == LiveBlocks(a) + LiveBlocks(c)
  {
    hide Join, FreeBlocks, LiveBlocks;
    var a', m, c' := JoinParts(a, b, c, left, right);
    FreeBlocksConcat(a', if left then [a[|a| - 1]] else []);
    FreeBlocksConcat(if right then [c[0]] else [], c');
    FilterParts(a', [m], c');
    FilterOne(m);
    if left { FilterOne(a[|a| - 1]); }
    if right { FilterOne(c[0]); }
    var fa', fm, fc' := JoinParts(FreeBlocks(a), b, FreeBlocks(c), left, right);
    assert FreeBlocks(a) == FreeBlocks(a') + if left then [a[|a| - 1]] else [];
    assert FreeBlocks(c) == (if right then [c[0]] else []) + FreeBlocks(c');
    assert fa' == FreeBlocks(a)[..|fa'|] == FreeBlocks(a');
    assert fc' == FreeBlocks(c)[|FreeBlocks(c)| - |fc'|..] == FreeBlocks(c');
  }

  lemma JoinBytes(a: seq<Block>, b: Block, c: seq<Block>, left: bool, right: bool)
    requires left ==> a != []
    requires right ==> c != []
    ensures TotalSize(Join(a, b, c, left, right)) == TotalSize(a) + b.size + TotalSize(c)
  {
    var a', m, c' := JoinParts(a, b, c, left, right);
    TotalSizeConcat(a', [m]);
    TotalSizeConcat(a' + [m], c');
    TotalSizeConcat(a', if left then [a[|a| - 1]] else []);
    TotalSizeConcat(if right then [c[0]] else [], c');
  }

  lemma JoinTiling(a: seq<Block>, b: Block, c: seq<Block>, left: bool, right: bool, lo: int, hi: int)
    requires left ==> a != []
    requires right ==> c != []
    requires Tiling(a, lo, b.addr) && WellSized(b) && Tiling(c, End(b), hi)
    ensures Tiling(Join(a, b, c, left, right), lo, hi)
  {
    hide Join, Tiling;
    TilingFirst(c, End(b), hi);
    var a', m, c' := JoinParts(a, b, c, left, right);
    if left { TilingSnoc(a', a[|a| - 1], lo, b.addr); } else { assert a' == a; }
    if right { TilingCons(c[0], c', hi); } else { assert c' == c; }
    TilingAround(a', m, c', lo, hi);
  }

  lemma {:induction false} TilingExtent(bs: seq<Block>, lo: int, hi: int)
    requires Tiling(bs, lo, hi)
    ensures hi - lo == TotalSize(bs) && TotalSize(bs) % ALIGNMENT == 0
    ensures bs != [] ==> lo % ALIGNMENT == 0 && MINIMUM_BLOCK_SIZE <= TotalSize(bs)
  {
    if bs == [] {
    } else {
      TilingExtent(bs[1..], End(bs[0]), hi);
    }
  }

  /** A free neighbour in the tiling is exactly a list neighbour that touches the block. */
  lemma FreeNeighboursTouch(bs: seq<Block>, lo: int, hi: int, k: nat)
    requires Tiling(bs, lo, hi) && k < |bs| && !bs[k].free
    ensures |FreeBlocks(bs[..k])| <= |FreeBlocks(bs)|
    ensures FreeBefore(bs, k) <==> TouchesLeft(FreeBlocks(bs), |FreeBlocks(bs[..k])|, bs[k])
    ensures FreeAfter(bs, k) <==> TouchesRight(FreeBlocks(bs), |FreeBlocks(bs[..k])|, bs[k])
  {
    hide Tiling, FreeBlocks, LiveBlocks;
    var fl := FreeBlocks(bs);
    var p := FreePosition(bs, lo, hi, k);
    TilingAt(bs, lo, hi, k);
    BeforeCut(bs[..k], lo, bs[k].addr);
    AfterCut(bs[k + 1..], End(bs[k]), hi);
    if p > 0 { assert fl[p - 1] == fl[..p][p - 1]; }
    if p < |fl| { assert fl[p] == fl[p..][0]; }
  }

  /** Releasing a block is inserting it into the free list at its position, and leaves the other live blocks. */
  lemma ReleaseIsInsert(bs: seq<Block>, lo: int, hi: int, k: nat)
    requires Tiling(bs, lo, hi) && k < |bs| && !bs[k].free
    ensures |FreeBlocks(bs[..k])| <= |FreeBlocks(bs)|
    ensures FreeBlocks(Release(bs, k)) == InsertAt(FreeBlocks(bs), |FreeBlocks(bs[..k])|, bs[k])
    ensures LiveBlocks(bs) == LiveBlocks(bs[..k]) + [bs[k]] + LiveBlocks(bs[k + 1..])
    ensures LiveBlocks(Release(bs, k)) == LiveBlocks(bs[..k]) + LiveBlocks(bs[k + 1..])
  {
    var p := FreePosition(bs, lo, hi, k);
    FreeNeighboursTouch(bs, lo, hi, k);
    JoinFilters(bs[..k], bs[k], bs[k + 1..], FreeBefore(bs, k), FreeAfter(bs, k));
    TilingAt(bs, lo, hi, k);
    FilterOne(bs[k]);
  }

  /** A released block keeps the tiling and leaves no two free neighbours. */
  lemma ReleaseKeepsTiling(bs: seq<Block>, lo: int, hi: int, k: nat)
    requires Tiling(bs, lo, hi) && Coalesced(bs) && k < |bs| && !bs[k].free
    ensures Tiling(Release(bs, k), lo, hi) && Coalesced(Release(bs, k))
  {
    TilingAt(bs, lo, hi, k);
    JoinTiling(bs[..k], bs[k], bs[k + 1..], FreeBefore(bs, k), FreeAfter(bs, k), lo, hi);
    ReleaseCoalesces(bs, k);
  }

  lemma ReleaseCoalesces(bs: seq<Block>, k: nat)
    requires Coalesced(bs) && k < |bs|
    ensures Coalesced(Release(bs, k))
  {
    var x, y := k - One(FreeBefore(bs, k)), k + 1 + One(FreeAfter(bs, k));
    var rs := Release(bs, k);
    assert |rs| == x + 1 + |bs| - y;
    assert forall i | 0 <= i < x :: rs[i] == bs[i];
    assert forall i | x < i < |rs| :: rs[i] == bs[i - x - 1 + y];
    assert x > 0 ==> !bs[x - 1].free;
    assert y < |bs| ==> !bs[y].free;
  }

  lemma ReleaseReturnsBytes(bs: seq<Block>, lo: int, hi: int, k: nat)
    requires Tiling(bs, lo, hi) && k < |bs| && !bs[k].free
    ensures FreeBytes(Release(bs, k)) == FreeBytes(bs) + bs[k].size
  {
    hide Join, FreeBlocks;
    var fl := FreeBlocks(bs);
    var p := FreePosition(bs, lo, hi, k);
    ReleaseIsInsert(bs, lo, hi, k);
    JoinBytes(fl[..p], bs[k], fl[p..], TouchesLeft(fl, p, bs[k]), TouchesRight(fl, p, bs[k]));
    assert fl == fl[..p] + fl[p..];
    TotalSizeConcat(fl[..p], fl[p..]);
  }

  // ---------- Carve: the tiling and its free list ----------

  function Allocated(b: Block, size: int): Block {
    Block(b.addr, if b.size - size > MINIMUM_BLOCK_SIZE then size else b.size, false)
  }

  /** What is left of `b` once its front is allocated. */
  function Remainder(b: Block, size: int): seq<Block> {
    if b.size - size > MINIMUM_BLOCK_SIZE then [Block(b.addr + size, b.size - size, true)] else []
  }

  lemma CarveParts(bs: seq<Block>, k: nat, size: int)
    requires k < |bs|
    ensures Carve(bs, k, size) == bs[..k] + [Allocated(bs[k], size)] + (Remainder(bs[k], size) + bs[k + 1..])
    ensures Carve(bs, k, size)[..k] == bs[..k] && Carve(bs, k, size)[k] == Allocated(bs[k], size)
    ensures Carve(bs, k, size)[k + 1..] == Remainder(bs[k], size) + bs[k + 1..]
  {
  }

  lemma CarveFilters(bs: seq<Block>, lo: int, hi: int, k: nat, size: int)
    requires Tiling(bs, lo, hi) && k < |bs| && bs[k].free
    ensures LiveBlocks(bs) == LiveBlocks(bs[..k]) + LiveBlocks(bs[k + 1..])
    ensures LiveBlocks(Carve(bs, k, size)) == LiveBlocks(bs[..k]) + [Allocated(bs[k], size)] + LiveBlocks(bs[k + 1..])
    ensures FreeBlocks(bs) == FreeBlocks(bs[..k]) + [bs[k]] + FreeBlocks(bs[k + 1..])
    ensures FreeBlocks(Carve(bs, k, size)) == FreeBlocks(bs[..k]) + Remainder(bs[k], size) + FreeBlocks(bs[k + 1..])
    ensures LiveBlocks(Remainder(bs[k], size) + bs[k + 1..]) == LiveBlocks(bs[k + 1..])
  {
    hide FreeBlocks, LiveBlocks, Carve, Tiling;
    TilingAt(bs, lo, hi, k);
    CarveParts(bs, k, size);
    var a, m, r, c := bs[..k], Allocated(bs[k], size), Remainder(bs[k], size), bs[k + 1..];
    FilterOne(bs[k]);
    RemainderFilters(bs[k], size);
    FilterOne(m);
    FreeBlocksConcat(r, c);
    FilterParts(a, [m], r + c);
    assert FreeBlocks(a) + [] + (r + FreeBlocks(c)) == FreeBlocks(a) + r + FreeBlocks(c);
    assert [] + LiveBlocks(c) == LiveBlocks(c) && LiveBlocks(a) + [] == LiveBlocks(a);
  }

  lemma RemainderFilters(b: Block, size: int)
    ensures FreeBlocks(Remainder(b, size)) == Remainder(b, size) && LiveBlocks(Remainder(b, size)) == []
  {
    FilterOne(Block(b.addr + size, b.size - size, true));
  }

  lemma CarveKeepsTiling(bs: seq<Block>, lo: int, hi: int, k: nat, size: int)
    requires Tiling(bs, lo, hi) && Coalesced(bs) && k < |bs| && bs[k].free
    requires size % ALIGNMENT == 0 && MINIMUM_BLOCK_SIZE <= size <= bs[k].size
    ensures Tiling(Carve(bs, k, size), lo, hi) && Coalesced(Carve(bs, k, size))
  {
    CarveCoalesces(bs, k, size);
    TilingAt(bs, lo, hi, k);
    hide *;
    CarveParts(bs, k, size);
    RemainderTiles(bs[k], size, bs[k + 1..], hi);
    TilingAround(bs[..k], Allocated(bs[k], size), Remainder(bs[k], size) + bs[k + 1..], lo, hi);
  }

  /** The front of a block and what is left of it take its place. */
  lemma RemainderTiles(b: Block, size: int, c: seq<Block>, hi: int)
    requires WellSized(b) && Tiling(c, End(b), hi) && size % ALIGNMENT == 0 && MINIMUM_BLOCK_SIZE <= size <= b.size
    ensures Allocated(b, size).addr == b.addr && WellSized(Allocated(b, size))
    ensures Tiling(Remainder(b, size) + c, End(Allocated(b, size)), hi)
  {
    hide Tiling;
    var r := Remainder(b, size);
    if r == [] {
      assert r + c == c;
    } else {
      TilingCons(r[0], c, hi);
      assert r == [r[0]];
    }
  }

  lemma CarveCoalesces(bs: seq<Block>, k: nat, size: int)
    requires Coalesced(bs) && k < |bs| && bs[k].free
    ensures Coalesced(Carve(bs, k, size))
  {
    var cs, n := Carve(bs, k, size), |Remainder(bs[k], size)|;
    assert forall i | 0 <= i < k :: cs[i] == bs[i];
    assert forall i | k + n < i < |cs| :: cs[i] == bs[i - n];
  }

  lemma CarveTakesBytes(bs: seq<Block>, lo: int, hi: int, k: nat, size: int)
    requires Tiling(bs, lo, hi) && k < |bs| && bs[k].free
    ensures FreeBytes(Carve(bs, k, size)) == FreeBytes(bs) - Allocated(bs[k], size).size
  {
    CarveFilters(bs, lo, hi, k, size);
    var a, c := FreeBlocks(bs[..k]), FreeBlocks(bs[k + 1..]);
    var r := Remainder(bs[k], size);
    hide FreeBlocks, Carve;
    TotalSizeConcat(a, [bs[k]]);
    TotalSizeConcat(a + [bs[k]], c);
    TotalSizeConcat(a, r);
    TotalSizeConcat(a + r, c);
  }

  // ---------- Laws over whole histories ----------

  /** The live blocks alone determine a coalesced tiling: the free blocks are the gaps. */
  lemma {:induction false} CoalescedTilingUnique(bs: seq<Block>, cs: seq<Block>, lo: int, hi: int)
    requires Tiling(bs, lo, hi) && Coalesced(bs)
    requires Tiling(cs, lo, hi) && Coalesced(cs)
    requires LiveBlocks(bs) == LiveBlocks(cs)
    ensures bs == cs
  {
    if bs != [] && cs != [] {
      FirstBlock(bs, lo, hi);
      FirstBlock(cs, lo, hi);
      assert bs[0] == cs[0];
      CoalescedTilingUnique(bs[1..], cs[1..], End(bs[0]), hi);
      assert bs == [bs[0]] + bs[1..] && cs == [cs[0]] + cs[1..];
    } else {
      TilingSorted(bs, lo, hi);
      TilingSorted(cs, lo, hi);
    }
  }

  /** A tiling starts free exactly when no live block starts it, and then up to the first live block. */
  lemma FirstBlock(bs: seq<Block>, lo: int, hi: int)
    requires Tiling(bs, lo, hi) && Coalesced(bs) && bs != []
    ensures Coalesced(bs[1..])
    ensures bs[0].free <==> LiveBlocks(bs) == [] || LiveBlocks(bs)[0].addr != lo
    ensures bs[0].free ==> End(bs[0]) == (if LiveBlocks(bs) == [] then hi else LiveBlocks(bs)[0].addr)
    ensures bs[0].free ==> LiveBlocks(bs[1..]) == LiveBlocks(bs)
    ensures !bs[0].free ==> LiveBlocks(bs)[0] == bs[0] && LiveBlocks(bs[1..]) == LiveBlocks(bs)[1..]
  {
    AfterCut(bs[1..], End(bs[0]), hi);
    if bs[0].free && LiveBlocks(bs) != [] { assert LiveBlocks(bs)[0] in LiveBlocks(bs[1..]); }
    if |bs| > 1 { assert bs[1..][0] == bs[1]; }
  }

  predicate LiveAt(bs: seq<Block>, addr: int, k: nat) {
    k < |bs| && !bs[k].free && bs[k].addr == addr
  }

  /** The index of the live block at an address, |bs| when there is none. */
  function LiveIndex(bs: seq<Block>, addr: int): (k: nat)
    ensures k <= |bs|
    ensures k < |bs| ==> LiveAt(bs, addr, k)
    ensures k == |bs| ==> forall b | b in LiveBlocks(bs) :: b.addr != addr
  {
    if bs == [] then 0
    else if !bs[0].free && bs[0].addr == addr then 0
    else 1 + LiveIndex(bs[1..], addr)
  }

  /** What a free of `ptr` does: only a live pointer has an effect. */
  function Disposed(bs: seq<Block>, ptr: int): seq<Block> {
    var k := LiveIndex(bs, ptr - HEADER_SIZE);
    if k < |bs| then Release(bs, k) else bs
  }

  /** Frees of the blocks at the given addresses, one after the other. */
  function ReleaseAll(bs: seq<Block>, order: seq<int>): seq<Block>
    decreases |order|
  {
    if order == [] then bs
    else ReleaseAll(Disposed(bs, order[0] + HEADER_SIZE), order[1..])
  }

  function Without(l: seq<Block>, addrs: set<int>): seq<Block> {
    if l == [] then [] else (if l[0].addr in addrs then [] else [l[0]]) + Without(l[1..], addrs)
  }

  lemma {:induction false} WithoutConcat(a: seq<Block>, b: seq<Block>, addrs: set<int>)
    ensures Without(a + b, addrs) == Without(a, addrs) + Without(b, addrs)
  {
    if a == [] {
      assert a + b == b;
    } else {
      assert (a + b)[1..] == a[1..] + b;
      WithoutConcat(a[1..], b, addrs);
    }
  }

  lemma {:induction false} WithoutStranger(l: seq<Block>, addr: int, addrs: set<int>)
    requires forall b | b in l :: b.addr != addr
    ensures Without(l, addrs + {addr}) == Without(l, addrs)
  {
    if l == [] {
    } else {
      WithoutStranger(l[1..], addr, addrs);
    }
  }

  function Addresses(order: seq<int>): set<int> {
    set a | a in order
  }

  /** Frees remove exactly the freed blocks, whatever their order, and keep the tiling coalesced. */
  lemma {:induction false} ReleaseAllRemoves(bs: seq<Block>, lo: int, hi: int, order: seq<int>)
    requires Tiling(bs, lo, hi) && Coalesced(bs)
    ensures Tiling(ReleaseAll(bs, order), lo, hi) && Coalesced(ReleaseAll(bs, order))
    ensures LiveBlocks(ReleaseAll(bs, order)) == Without(LiveBlocks(bs), Addresses(order))
    decreases |order|
  {
    if order == [] {
      assert Addresses(order) == {};
      WithoutNothing(LiveBlocks(bs));
    } else {
      var k := LiveIndex(bs, order[0]);
      assert Addresses(order) == Addresses(order[1..]) + {order[0]};
      if k < |bs| {
        ReleaseKeepsTiling(bs, lo, hi, k);
        ReleaseAllRemoves(Release(bs, k), lo, hi, order[1..]);
        ReleaseRemoves(bs, lo, hi, k, Addresses(order[1..]));
      } else {
        ReleaseAllRemoves(bs, lo, hi, order[1..]);
        WithoutStranger(LiveBlocks(bs), order[0], Addresses(order[1..]));
      }
    }
  }

  lemma {:induction false} WithoutNothing(l: seq<Block>)
    ensures Without(l, {}) == l
  {
    if l == [] {
    } else {
      WithoutNothing(l[1..]);
      assert l == [l[0]] + l[1..];
    }
  }

  lemma WithoutMiddle(a: seq<Block>, b: Block, c: seq<Block>, addrs: set<int>)
    requires forall x | x in a || x in c :: x.addr != b.addr
    ensures Without(a + [b] + c, addrs + {b.addr}) == Without(a + c, addrs)
  {
    WithoutStranger(a, b.addr, addrs);
    WithoutStranger(c, b.addr, addrs);
    WithoutConcat(a, c, addrs);
    WithoutConcat(a + [b], c, addrs + {b.addr});
    WithoutConcat(a, [b], addrs + {b.addr});
  }

  lemma ReleaseRemoves(bs: seq<Block>, lo: int, hi: int, k: nat, addrs: set<int>)
    requires Tiling(bs, lo, hi) && k < |bs| && !bs[k].free
    ensures Without(LiveBlocks(bs), addrs + {bs[k].addr}) == Without(LiveBlocks(Release(bs, k)), addrs)
  {
    TilingAt(bs, lo, hi, k);
    ReleaseIsInsert(bs, lo, hi, k);
    BeforeCut(bs[..k], lo, bs[k].addr);
    AfterCut(bs[k + 1..], End(bs[k]), hi);
    hide Tiling, LiveBlocks, FreeBlocks, Release, Without;
    WithoutMiddle(LiveBlocks(bs[..k]), bs[k], LiveBlocks(bs[k + 1..]), addrs);
  }

  /** The order of frees does not matter: the same addresses leave the same tiling. */
  lemma ReleaseOrderIrrelevant(bs: seq<Block>, lo: int, hi: int, order: seq<int>, other: seq<int>)
    requires Tiling(bs, lo, hi) && Coalesced(bs)
    requires Addresses(order) == Addresses(other)
    ensures ReleaseAll(bs, order) == ReleaseAll(bs, other)
  {
    ReleaseAllRemoves(bs, lo, hi, order);
    ReleaseAllRemoves(bs, lo, hi, other);
    CoalescedTilingUnique(ReleaseAll(bs, order), ReleaseAll(bs, other), lo, hi);
  }

  /** Freeing every live block, in any order, restores the single block the heap started with. */
  lemma ReleaseEverything(bs: seq<Block>, lo: int, hi: int, order: seq<int>)
    requires Tiling(bs, lo, hi) && Coalesced(bs) && bs != []
    requires forall b | b in LiveBlocks(bs) :: b.addr in order
    ensures ReleaseAll(bs, order) == [Block(lo, hi - lo, true)]
  {
    InOrder(LiveBlocks(bs), order);
    WholeTiles(bs, lo, hi);
    hide *;
    ReleaseAllRemoves(bs, lo, hi, order);
    WithoutAll(LiveBlocks(bs), Addresses(order));
    CoalescedTilingUnique(ReleaseAll(bs, order), [Block(lo, hi - lo, true)], lo, hi);
  }

  lemma InOrder(l: seq<Block>, order: seq<int>)
    requires forall b | b in l :: b.addr in order
    ensures forall b | b in l :: b.addr in Addresses(order)
  {
  }

  /** One free block tiles what any blocks tile. */
  lemma WholeTiles(bs: seq<Block>, lo: int, hi: int)
    requires Tiling(bs, lo, hi) && bs != []
    ensures var whole := [Block(lo, hi - lo, true)]; Tiling(whole, lo, hi) && Coalesced(whole) && LiveBlocks(whole) == []
  {
    TilingExtent(bs, lo, hi);
    FilterOne(Block(lo, hi - lo, true));
  }

  lemma {:induction false} WithoutAll(l: seq<Block>, addrs: set<int>)
    requires forall b | b in l :: b.addr in addrs
    ensures Without(l, addrs) == []
  {
    if l == [] {
    } else {
      WithoutAll(l[1..], addrs);
    }
  }

  // ---------- First fit ----------

  /** The lowest-address free block that holds `size` bytes, |bs| when there is none. */
  function FirstFitIndex(bs: seq<Block>, size: int): (k: nat)
    ensures k <= |bs|
    ensures k < |bs| ==> bs[k].free && size <= bs[k].size
    ensures forall i | 0 <= i < k :: bs[i].free ==> bs[i].size < size
  {
    if bs == [] || (bs[0].free && size <= bs[0].size) then 0 else 1 + FirstFitIndex(bs[1..], size)
  }

  /** Walking the free list finds the first fit of the tiling. */
  lemma FirstFitInList(bs: seq<Block>, lo: int, hi: int, size: int)
    requires Tiling(bs, lo, hi)
    ensures var k := FirstFitIndex(bs, size);
            if k == |bs| then forall b | b in FreeBlocks(bs) :: b.size < size
            else var p := |FreeBlocks(bs[..k])|;
                 p < |FreeBlocks(bs)| && FreeBlocks(bs)[p] == bs[k]
                 && forall t | 0 <= t < p :: FreeBlocks(bs)[t].size < size
  {
    var k := FirstFitIndex(bs, size);
    FilteredBlocks(bs);
    if k < |bs| {
      TilingAt(bs, lo, hi, k);
      FilteredBlocks(bs[..k]);
      var p := FreePosition(bs, lo, hi, k);
      forall t | 0 <= t < p ensures FreeBlocks(bs)[t].size < size {
        assert FreeBlocks(bs)[t] == FreeBlocks(bs[..k])[t];
      }
    }
  }

  lemma {:induction false} TotalBoundsEach(fl: seq<Block>, b: Block)
    requires b in fl && forall x | x in fl :: 0 <= x.size
    ensures b.size <= TotalSize(fl)
  {
    TotalNonNegative(fl[1..]);
    if b == fl[0] {
    } else {
      TotalBoundsEach(fl[1..], b);
    }
  }

  /** A block that fits is no larger than all the free bytes. */
  lemma FitNeedsBytes(bs: seq<Block>, lo: int, hi: int, size: int)
    requires Tiling(bs, lo, hi)
    ensures FirstFitIndex(bs, size) < |bs| ==> size <= FreeBytes(bs)
  {
    hide FreeBlocks, Tiling;
    var k := FirstFitIndex(bs, size);
    FirstFitInList(bs, lo, hi, size);
    FilteredSorted(bs, lo, hi);
    if k < |bs| { TotalBoundsEach(FreeBlocks(bs), bs[k]); }
  }

  lemma {:induction false} TotalNonNegative(fl: seq<Block>)
    requires forall x | x in fl :: 0 <= x.size
    ensures 0 <= TotalSize(fl)
  {
    if fl == [] {
    } else {
      TotalNonNegative(fl[1..]);
    }
  }

  /** Freeing what was just allocated restores the very same tiling. */
  lemma ReleaseUndoesCarve(bs: seq<Block>, lo: int, hi: int, k: nat, size: int)
    requires Tiling(bs, lo, hi) && Coalesced(bs) && k < |bs| && bs[k].free
    requires size % ALIGNMENT == 0 && MINIMUM_BLOCK_SIZE <= size <= bs[k].size
    ensures Release(Carve(bs, k, size), k) == bs
  {
    var cs := Carve(bs, k, size);
    CarveKeepsTiling(bs, lo, hi, k, size);
    CarveFilters(bs, lo, hi, k, size);
    CarveParts(bs, k, size);
    ReleaseKeepsTiling(cs, lo, hi, k);
    ReleaseIsInsert(cs, lo, hi, k);
    CoalescedTilingUnique(Release(cs, k), bs, lo, hi);
  }

  // ---------- Requests and runs ----------

  datatype Request = Alloc(size: int) | Dispose(ptr: int)

  /** Requests the allocator refuses whatever the tiling: nothing, or a size with the allocated bit. */
  predicate Refused(wanted: int) {
    wanted == 0 || wanted >= ALLOCATED_BIT
  }

  function Granted(bs: seq<Block>, wanted: int): int {
    var k := FirstFitIndex(bs, Adjusted(wanted));
    if Refused(wanted) || k == |bs| then NULL else bs[k].addr + HEADER_SIZE
  }

  function Allotted(bs: seq<Block>, wanted: int): seq<Block> {
    var k := FirstFitIndex(bs, Adjusted(wanted));
    if Refused(wanted) || k == |bs| then bs else Carve(bs, k, Adjusted(wanted))
  }

  function Serve(bs: seq<Block>, r: Request): seq<Block> {
    match r
    case Alloc(wanted) => Allotted(bs, wanted)
    case Dispose(ptr) => Disposed(bs, ptr)
  }

  function ServeAll(bs: seq<Block>, rs: seq<Request>): seq<Block> {
    if rs == [] then bs else Serve(ServeAll(bs, rs[..|rs| - 1]), rs[|rs| - 1])
  }

  /** Over any run of requests the blocks tile the heap without free neighbours, and no byte is lost. */
  lemma {:induction false} RunsKeepTiling(bs: seq<Block>, rs: seq<Request>, lo: int, hi: int)
    requires Tiling(bs, lo, hi) && Coalesced(bs)
    requires forall r | r in rs && r.Alloc? :: 0 <= r.size
    ensures Tiling(ServeAll(bs, rs), lo, hi) && Coalesced(ServeAll(bs, rs))
    ensures FreeBytes(ServeAll(bs, rs)) + TotalSize(LiveBlocks(ServeAll(bs, rs))) == hi - lo
    decreases |rs|
  {
    hide Serve, Tiling, Coalesced;
    if rs == [] {
    } else {
      RunsKeepTiling(bs, rs[..|rs| - 1], lo, hi);
      ServeKeepsTiling(ServeAll(bs, rs[..|rs| - 1]), rs[|rs| - 1], lo, hi);
    }
    TilingBytes(ServeAll(bs, rs), lo, hi);
  }

  lemma ServeKeepsTiling(bs: seq<Block>, r: Request, lo: int, hi: int)
    requires Tiling(bs, lo, hi) && Coalesced(bs) && (r.Alloc? ==> 0 <= r.size)
    ensures Tiling(Serve(bs, r), lo, hi) && Coalesced(Serve(bs, r))
  {
    hide Carve, Release, Tiling, Coalesced, Adjusted, FirstFitIndex, LiveIndex;
    match r {
      case Alloc(wanted) =>
        GrantedAligned(bs, wanted, lo, hi);
        var k := FirstFitIndex(bs, Adjusted(wanted));
        if !Refused(wanted) && k < |bs| { CarveKeepsTiling(bs, lo, hi, k, Adjusted(wanted)); }
      case Dispose(ptr) =>
        var k := LiveIndex(bs, ptr - HEADER_SIZE);
        if k < |bs| { ReleaseKeepsTiling(bs, lo, hi, k); }
    }
  }

  /** The least number of free bytes at any time of a run, from its start on. */
  function LeastFree(bs: seq<Block>, rs: seq<Request>): int {
    if rs == [] then FreeBytes(bs) else Min(LeastFree(bs, rs[..|rs| - 1]), FreeBytes(ServeAll(bs, rs)))
  }

  /** It is below the free bytes after every prefix of the run, and those after some prefix. */
  lemma {:induction false} LeastFreeOverPrefixes(bs: seq<Block>, rs: seq<Request>) returns (least: nat)
    ensures forall k | 0 <= k <= |rs| :: LeastFree(bs, rs) <= FreeBytes(ServeAll(bs, rs[..k]))
    ensures least <= |rs| && LeastFree(bs, rs) == FreeBytes(ServeAll(bs, rs[..least]))
  {
    hide Serve, FreeBytes;
    assert rs[..|rs|] == rs;
    if rs == [] {
      least := 0;
    } else {
      var front := rs[..|rs| - 1];
      least := LeastFreeOverPrefixes(bs, front);
      forall k | 0 <= k <= |rs| ensures LeastFree(bs, rs) <= FreeBytes(ServeAll(bs, rs[..k])) {
        if k < |rs| { assert rs[..k] == front[..k]; }
      }
      assert rs[..least] == front[..least];
      if LeastFree(bs, rs) != LeastFree(bs, front) { least := |rs|; }
    }
  }

  lemma OneMoreServed(bs: seq<Block>, rs: seq<Request>, r: Request)
    ensures ServeAll(bs, rs + [r]) == Serve(ServeAll(bs, rs), r)
    ensures LeastFree(bs, rs + [r]) == Min(LeastFree(bs, rs), FreeBytes(Serve(ServeAll(bs, rs), r)))
    ensures LeastFree(bs, rs) <= FreeBytes(ServeAll(bs, rs))
  {
    hide Serve, FreeBytes;
    assert (rs + [r])[..|rs|] == rs;
  }

  lemma NoneServed(bs: seq<Block>)
    ensures ServeAll(bs, []) == bs && LeastFree(bs, []) == FreeBytes(bs)
  {
    hide FreeBytes;
  }

  /** A free never lowers the number of free bytes. */
  lemma DisposeKeepsBytes(bs: seq<Block>, ptr: int, lo: int, hi: int)
    requires Tiling(bs, lo, hi)
    ensures FreeBytes(Disposed(bs, ptr)) >= FreeBytes(bs)
  {
    hide Tiling, FreeBytes, Release;
    var k := LiveIndex(bs, ptr - HEADER_SIZE);
    if k < |bs| {
      ReleaseReturnsBytes(bs, lo, hi, k);
      TilingSorted(bs, lo, hi);
    }
  }

  lemma {:induction false} TilingBytes(bs: seq<Block>, lo: int, hi: int)
    requires Tiling(bs, lo, hi)
    ensures FreeBytes(bs) + TotalSize(LiveBlocks(bs)) == hi - lo
  {
    if bs == [] {
    } else {
      TilingBytes(bs[1..], End(bs[0]), hi);
      FreeBlocksConcat([bs[0]], bs[1..]);
      assert bs == [bs[0]] + bs[1..];
      FilterOne(bs[0]);
      TotalSizeConcat(FreeBlocks([bs[0]]), FreeBlocks(bs[1..]));
      TotalSizeConcat(LiveBlocks([bs[0]]), LiveBlocks(bs[1..]));
    }
  }

  /** NULL exactly for refused requests and when no free block is large enough; else the lowest one serves. */
  lemma GrantedExactly(bs: seq<Block>, wanted: int, lo: int, hi: int)
    requires Tiling(bs, lo, hi) && 0 < lo
    ensures Granted(bs, wanted) == NULL <==>
            wanted == 0 || wanted >= 0x8000_0000 || forall b | b in bs && b.free :: b.size < Adjusted(wanted)
    ensures Granted(bs, wanted) != NULL ==>
              exists k: nat | k < |bs| :: FirstFit(bs, Adjusted(wanted), k) && Granted(bs, wanted) == bs[k].addr + HEADER_SIZE
    ensures Granted(bs, wanted) == NULL ==> Allotted(bs, wanted) == bs
  {
    hide Adjusted, Tiling;
    var k := FirstFitIndex(bs, Adjusted(wanted));
    TilingSorted(bs, lo, hi);
    if k < |bs| {
      assert bs[k] in bs && FirstFit(bs, Adjusted(wanted), k);
    }
  }

  /** How many bytes of a free block a request takes: what it needs, or all of them if at most 16 would be left. */
  function Taken(b: Block, wanted: int): int {
    if b.size - Adjusted(wanted) > 16 then Adjusted(wanted) else b.size
  }

  /**
    * The lowest block that fits gives up exactly that many bytes from its start; what is left stays free directly
    * behind, and no other block changes.
    */
  lemma AllocTakes(bs: seq<Block>, wanted: int, lo: int, hi: int, k: nat)
    requires Tiling(bs, lo, hi) && 0 < wanted < 0x8000_0000 && FirstFit(bs, Adjusted(wanted), k)
    ensures var cs, taken := Allotted(bs, wanted), Taken(bs[k], wanted);
            && |cs| == |bs| + (if taken < bs[k].size then 1 else 0)
            && cs[..k] == bs[..k] && cs[k] == Block(bs[k].addr, taken, false)
            && (taken < bs[k].size ==> cs[k + 1] == Block(bs[k].addr + taken, bs[k].size - taken, true) && cs[k + 2..] == bs[k + 1..])
            && (taken == bs[k].size ==> cs[k + 1..] == bs[k + 1..])
    ensures FreeBytes(Allotted(bs, wanted)) == FreeBytes(bs) - Taken(bs[k], wanted)
    ensures wanted + HEADER_SIZE <= Taken(bs[k], wanted) <= Adjusted(wanted) + 16 && Taken(bs[k], wanted) <= bs[k].size
  {
    assert FirstFitIndex(bs, Adjusted(wanted)) == k;
    AdjustedSize(wanted);
    hide FreeBytes, Adjusted, FirstFitIndex, Tiling;
    CarveTakesBytes(bs, lo, hi, k, Adjusted(wanted));
  }

  /** A request too small to use up the heap leaves room for the next one directly behind it. */
  lemma NextRequestFits(lo: int, hi: int, wanted: int, next: int)
    requires lo % ALIGNMENT == hi % ALIGNMENT == 0 && 0 < lo && 0 < wanted && 0 < next
    requires Adjusted(wanted) + Adjusted(next) + 16 <= hi - lo < 0x8000_0000
    ensures var bs := Allotted([Block(lo, hi - lo, true)], wanted);
            Granted(bs, next) == lo + Adjusted(wanted) + HEADER_SIZE
  {
    var whole := Block(lo, hi - lo, true);
    AdjustedSize(wanted);
    AdjustedSize(next);
    hide Adjusted;
    OneBlockTiles(whole);
    AllocTakes([whole], wanted, lo, hi, 0);
    var bs := Allotted([whole], wanted);
    assert bs[0] == Block(lo, Adjusted(wanted), false) && bs[1] == Block(lo + Adjusted(wanted), hi - lo - Adjusted(wanted), true);
    hide Allotted;
    SecondFits(bs, Adjusted(next));
  }

  lemma SecondFits(bs: seq<Block>, size: int)
    requires |bs| == 2 && !bs[0].free && bs[1].free && size <= bs[1].size
    ensures FirstFitIndex(bs, size) == 1
  {
    assert bs[1..] == [bs[1]];
  }

  /** Granted pointers are aligned, and an adjusted size is the least aligned size with room for the header. */
  lemma GrantedAligned(bs: seq<Block>, wanted: int, lo: int, hi: int)
    requires Tiling(bs, lo, hi) && 0 <= wanted
    ensures Granted(bs, wanted) % ALIGNMENT == 0 && Adjusted(wanted) % ALIGNMENT == 0
    ensures wanted + HEADER_SIZE <= Adjusted(wanted) < wanted + HEADER_SIZE + ALIGNMENT
  {
    hide Tiling, FirstFitIndex;
    AdjustedSize(wanted);
    hide Adjusted;
    TilingSorted(bs, lo, hi);
    var k := FirstFitIndex(bs, Adjusted(wanted));
    if k < |bs| { AlignedSum(bs[k].addr); }
  }

  lemma AdjustedSize(wanted: int)
    requires 0 <= wanted
    ensures Adjusted(wanted) % ALIGNMENT == 0 && wanted + HEADER_SIZE <= Adjusted(wanted) < wanted + HEADER_SIZE + ALIGNMENT
  {
  }

  lemma AlignedSum(addr: int)
    requires addr % ALIGNMENT == 0
    ensures (addr + HEADER_SIZE) % ALIGNMENT == 0
  {
  }

  lemma DisposeUndoesCarve(bs: seq<Block>, k: nat, size: int, lo: int, hi: int)
    requires Tiling(bs, lo, hi) && Coalesced(bs) && k < |bs| && bs[k].free
    requires size % ALIGNMENT == 0 && MINIMUM_BLOCK_SIZE <= size <= bs[k].size
    ensures Disposed(Carve(bs, k, size), bs[k].addr + HEADER_SIZE) == bs
  {
    hide Carve, Tiling, Coalesced, Release, LiveIndex;
    ReleaseUndoesCarve(bs, lo, hi, k, size);
    CarveParts(bs, k, size);
    CarveKeepsTiling(bs, lo, hi, k, size);
    LiveIndexUnique(Carve(bs, k, size), lo, hi, k);
  }

  /** Freeing the pointer just granted restores the very same tiling, hence free list and free count. */
  lemma DisposeUndoesAlloc(bs: seq<Block>, wanted: int, lo: int, hi: int)
    requires Tiling(bs, lo, hi) && Coalesced(bs) && 0 < lo && 0 <= wanted
    ensures Disposed(Allotted(bs, wanted), Granted(bs, wanted)) == bs
  {
    hide Carve, Tiling, Coalesced, Adjusted, FirstFitIndex, Disposed;
    GrantedAligned(bs, wanted, lo, hi);
    NoBlockAtNull(bs, lo, hi);
    var size := Adjusted(wanted);
    var k := FirstFitIndex(bs, size);
    if !Refused(wanted) && k < |bs| {
      DisposeUndoesCarve(bs, k, size, lo, hi);
    }
  }

  lemma NoBlockAtNull(bs: seq<Block>, lo: int, hi: int)
    requires Tiling(bs, lo, hi) && 0 < lo
    ensures Disposed(bs, NULL) == bs
  {
    TilingSorted(bs, lo, hi);
  }

  lemma LiveIndexUnique(bs: seq<Block>, lo: int, hi: int, k: nat)
    requires Tiling(bs, lo, hi) && k < |bs| && !bs[k].free
    ensures LiveIndex(bs, bs[k].addr) == k
  {
    TilingSorted(bs, lo, hi);
    FilteredBlocks(bs);
    assert bs[k] in bs;
  }

  // ---------- The headers in memory ----------

  function Starts(fl: seq<Block>): set<int> {
    set b | b in fl :: b.addr
  }

  function NextAddr(fl: seq<Block>, i: nat, end: int): int {
    if i < |fl| then fl[i].addr else end
  }

  predicate LinkAt(headers: map<int, BlockLink>, fl: seq<Block>, i: nat, end: int)
    requires i < |fl|
  {
    fl[i].addr in headers && headers[fl[i].addr] == BlockLink(NextAddr(fl, i + 1, end), fl[i].size)
  }

  /** From xStart the headers link exactly the blocks of `fl`, in order, up to pxEnd. */
  ghost predicate Linked(headers: map<int, BlockLink>, fl: seq<Block>, xStart: int, end: int) {
    && xStart in headers && headers[xStart] == BlockLink(NextAddr(fl, 0, end), 0)
    && end in headers && headers[end] == BlockLink(NULL, 0)
    && forall i | 0 <= i < |fl| :: LinkAt(headers, fl, i, end)
  }

  /** Address `a` holds the header it held before, or still none. */
  predicate SameAt(before: map<int, BlockLink>, after: map<int, BlockLink>, a: int) {
    (a in after <==> a in before) && (a in before ==> after[a] == before[a])
  }

  /** Nothing is written inside the blocks of `live`, behind their first address. */
  ghost predicate PayloadsKept(before: map<int, BlockLink>, after: map<int, BlockLink>, live: seq<Block>) {
    forall b, a | b in live && b.addr < a < End(b) :: SameAt(before, after, a)
  }

  /** Writing to the list head, to free headers, and within a free block or to a live header keeps all payloads. */
  lemma PayloadFrame(before: map<int, BlockLink>, after: map<int, BlockLink>, bs: seq<Block>, lo: int, hi: int, k: nat, xStart: int)
    requires Tiling(bs, lo, hi) && k < |bs| && !(lo <= xStart <= hi)
    requires forall a | a != xStart && a !in Starts(FreeBlocks(bs))
                        && !(bs[k].addr <= a < if bs[k].free then End(bs[k]) else bs[k].addr + 1) :: SameAt(before, after, a)
    ensures PayloadsKept(before, after, LiveBlocks(bs))
  {
    TilingSorted(bs, lo, hi);
    FilteredBlocks(bs);
    hide Tiling, FreeBlocks, LiveBlocks, SameAt;
    forall b, a | b in LiveBlocks(bs) && b.addr < a < End(b) ensures SameAt(before, after, a) {
      assert b in bs && bs[k] in bs;
      assert forall c | c in FreeBlocks(bs) :: c in bs && c.free;
    }
  }

  /** The header of every live block carries the allocated bit and no link. */
  ghost predicate Tagged(headers: map<int, BlockLink>, live: seq<Block>) {
    forall b | b in live :: b.addr in headers && headers[b.addr] == BlockLink(NULL, b.size + ALLOCATED_BIT)
  }

  function AlignUp(addr: int): int {
    (addr + (ALIGNMENT - 1)) / ALIGNMENT * ALIGNMENT
  }

  function AlignDown(addr: int): int {
    addr / ALIGNMENT * ALIGNMENT
  }

  /** The heap starts as a single free block. */
  lemma OneFreeBlock(heapStart: int)
    requires 0 < heapStart && heapStart + TOTAL_HEAP_SIZE <= SIZE_LIMIT
    ensures var lo, hi := AlignUp(heapStart), AlignDown(heapStart + TOTAL_HEAP_SIZE - HEADER_SIZE);
            Tiling([Block(lo, hi - lo, true)], lo, hi) && Coalesced([Block(lo, hi - lo, true)])
  {
    hide AlignUp, AlignDown;
    AlignedAddress(heapStart + (ALIGNMENT - 1));
    AlignedAddress(heapStart + TOTAL_HEAP_SIZE - HEADER_SIZE);
    Alignments(heapStart);
    var lo, hi := AlignUp(heapStart), AlignDown(heapStart + TOTAL_HEAP_SIZE - HEADER_SIZE);
    OneBlockTiles(Block(lo, hi - lo, true));
  }

  lemma AlignedAddress(addr: int)
    ensures AlignDown(addr) % ALIGNMENT == 0 && addr - ALIGNMENT < AlignDown(addr) <= addr
  {
  }

  lemma Alignments(addr: int)
    ensures AlignUp(addr) == AlignDown(addr + (ALIGNMENT - 1))
  {
  }

  /** The two steps of rounding an address up, and the one of rounding it down. */
  lemma AlignmentSteps(addr: int)
    ensures AlignUp(addr) == if addr % ALIGNMENT != 0 then addr + (ALIGNMENT - 1) - (addr + (ALIGNMENT - 1)) % ALIGNMENT else addr
    ensures AlignDown(addr) == addr - addr % ALIGNMENT && addr <= AlignUp(addr) < addr + ALIGNMENT
  {
  }

  lemma OneBlockTiles(b: Block)
    requires WellSized(b) && b.addr % ALIGNMENT == 0
    ensures Tiling([b], b.addr, End(b)) && Coalesced([b])
  {
    assert [b][1..] == [];
  }

  class Allocator {
    const heapStart: int                   // address of ucHeap
    const xStart: int                      // address of the list head, outside ucHeap
    const lo := AlignUp(heapStart)
    const hi := AlignDown(heapStart + TOTAL_HEAP_SIZE - HEADER_SIZE)
    var headers: map<int, BlockLink>       // the headers in memory, by address
    var pxEnd: int                         // NULL until the first allocation
    var freeBytesRemaining: int
    var minimumEverFreeBytesRemaining: int
    ghost var blocks: seq<Block>           // the tiling of [lo, hi)
    ghost var served: seq<Request>         // all requests so far

    /** The single free block the heap starts with. */
    ghost function Whole(): seq<Block> {
      [Block(lo, hi - lo, true)]
    }

    ghost predicate Valid()
      reads this
    {
      && Sound() && blocks == ServeAll(Whole(), served)
      && LeastFree(Whole(), served) == if pxEnd == NULL then FreeBytes(Whole()) else minimumEverFreeBytesRemaining
    }

    /** The headers and the free count agree with the blocks. */
    ghost predicate Sound()
      reads this
    {
      && 0 < heapStart && heapStart + TOTAL_HEAP_SIZE <= SIZE_LIMIT
      && !(heapStart <= xStart <= heapStart + TOTAL_HEAP_SIZE)
      && blocks != [] && Tiling(blocks, lo, hi) && Coalesced(blocks)
      && if pxEnd == NULL then blocks == Whole()
         else
           && pxEnd == hi
           && Linked(headers, FreeBlocks(blocks), xStart, pxEnd)
           && Tagged(headers, LiveBlocks(blocks))
           && freeBytesRemaining == FreeBytes(blocks)
    }

    constructor (heapStart: int, xStart: int, memory: map<int, BlockLink>)
      requires 0 < heapStart && heapStart + TOTAL_HEAP_SIZE <= SIZE_LIMIT
      requires !(heapStart <= xStart <= heapStart + TOTAL_HEAP_SIZE)
      ensures Valid() && pxEnd == NULL && headers == memory
      ensures this.heapStart == heapStart && this.xStart == xStart
      ensures blocks == Whole() && served == []
    {
      hide Tiling, Coalesced, FreeBytes, ServeAll, LeastFree;
      OneFreeBlock(heapStart);
      NoneServed([Block(AlignUp(heapStart), AlignDown(heapStart + TOTAL_HEAP_SIZE - HEADER_SIZE) - AlignUp(heapStart), true)]);
      this.heapStart, this.xStart := heapStart, xStart;
      headers, pxEnd := memory, NULL;
      freeBytesRemaining, minimumEverFreeBytesRemaining := 0, 0;
      served := [];
      blocks := [Block(AlignUp(heapStart), AlignDown(heapStart + TOTAL_HEAP_SIZE - HEADER_SIZE) - AlignUp(heapStart), true)];
    }

    method HeapInit()
      requires Valid() && pxEnd == NULL
      modifies this
      ensures Valid() && pxEnd != NULL && blocks == old(blocks) && served == old(served)
      ensures freeBytesRemaining == minimumEverFreeBytesRemaining == hi - lo
    {
      hide Tiling, Coalesced, ServeAll, LeastFree, AlignUp, AlignDown;
      AlignmentSteps(heapStart);
      AlignmentSteps(heapStart + TOTAL_HEAP_SIZE - HEADER_SIZE);
      AlignedAddress(heapStart + TOTAL_HEAP_SIZE - HEADER_SIZE);
      var totalHeapSize := TOTAL_HEAP_SIZE;
      var address := heapStart;
      if address % ALIGNMENT != 0 {
        address := address + (ALIGNMENT - 1);
        address := address - address % ALIGNMENT;
        totalHeapSize := totalHeapSize - (address - heapStart);
      }
      var alignedHeap := address;
      headers := headers[xStart := BlockLink(alignedHeap, 0)];
      address := alignedHeap + totalHeapSize;
      address := address - HEADER_SIZE;
      address := address - address % ALIGNMENT;
      pxEnd := address;
      headers := headers[pxEnd := BlockLink(NULL, 0)];
      headers := headers[alignedHeap := BlockLink(pxEnd, address - alignedHeap)];
      minimumEverFreeBytesRemaining := headers[alignedHeap].size;
      freeBytesRemaining := headers[alignedHeap].size;
      FilterOne(blocks[0]);
      assert alignedHeap == lo && address == hi;
      assert FreeBytes(blocks) == blocks[0].size + TotalSize([]);
    }

    /** A request that cannot be served changes nothing; any other takes the front of the lowest block that fits. */
    method Malloc(wantedSize: int) returns (pv: int)
      requires Valid() && 0 <= wantedSize < SIZE_LIMIT
      modifies this
      ensures Valid() && pxEnd != NULL && served == old(served) + [Alloc(wantedSize)]
      ensures pv == Granted(old(blocks), wantedSize) && blocks == Allotted(old(blocks), wantedSize)
      ensures PayloadsKept(old(headers), headers, LiveBlocks(old(blocks)))
    {
      hide FreeBlocks, LiveBlocks, Tiling, TotalSize, Carve, Coalesced, Linked, Tagged, FreeBytes, FirstFitIndex, ServeAll, LeastFree,
           PayloadsKept;
      OneMoreServed(Whole(), served, Alloc(wantedSize));
      pv := NULL;
      NothingKept(headers, blocks);
      if pxEnd == NULL {
        HeapInit();
      }
      NothingKept(headers, blocks);
      if wantedSize < ALLOCATED_BIT {
        var wanted := wantedSize;
        if wanted > 0 {
          wanted := wanted + HEADER_SIZE;
          if wanted % ALIGNMENT != 0 {
            wanted := wanted + (ALIGNMENT - wanted % ALIGNMENT);
          }
          FitNeedsBytes(blocks, lo, hi, wanted);
        }
        if wanted > 0 && wanted <= freeBytesRemaining {
          pv := Allocate(wanted);
        }
      }
      served := served + [Alloc(wantedSize)];
    }

    /** The search for an adjusted size, and what is done with the block it finds. */
    method Allocate(wanted: int) returns (pv: int)
      requires Sound() && pxEnd != NULL && wanted % ALIGNMENT == 0 && MINIMUM_BLOCK_SIZE <= wanted
      modifies this
      ensures Sound() && pxEnd != NULL && served == old(served)
      ensures minimumEverFreeBytesRemaining == Min(old(minimumEverFreeBytesRemaining), FreeBytes(blocks))
           || (blocks == old(blocks) && minimumEverFreeBytesRemaining == old(minimumEverFreeBytesRemaining))
      ensures var k := FirstFitIndex(old(blocks), wanted);
              if k == |old(blocks)| then pv == NULL && blocks == old(blocks)
              else pv == old(blocks)[k].addr + HEADER_SIZE && blocks == Carve(old(blocks), k, wanted)
      ensures PayloadsKept(old(headers), headers, LiveBlocks(old(blocks)))
    {
      hide FreeBlocks, LiveBlocks, Tiling, TotalSize, Carve, Coalesced;
      pv := NULL;
      ghost var k := FirstFitIndex(blocks, wanted);
      FirstFitInList(blocks, lo, hi, wanted);
      FilteredSorted(blocks, lo, hi);
      var previous, block, i := FindBlock(wanted, FreeBlocks(blocks));
      if block != pxEnd {
        pv := headers[previous].next + HEADER_SIZE;
        TakeBlock(previous, block, wanted, i, k);
      }
    }

    /** Freeing a live pointer releases its block; NULL, and a header without the allocated bit, change nothing. */
    method Free(pv: int)
      requires Valid()
      requires pv != NULL ==> pv - HEADER_SIZE in headers
      requires pv != NULL && headers[pv - HEADER_SIZE].size >= ALLOCATED_BIT ==> LiveIndex(blocks, pv - HEADER_SIZE) < |blocks|
      modifies this
      ensures Valid() && pxEnd == old(pxEnd) && served == old(served) + [Dispose(pv)]
      ensures blocks == Disposed(old(blocks), pv) && minimumEverFreeBytesRemaining == old(minimumEverFreeBytesRemaining)
      ensures PayloadsKept(old(headers), headers, LiveBlocks(old(blocks)))
    {
      hide FreeBlocks, LiveBlocks, Tiling, TotalSize, Release, Coalesced, LiveIndex, Linked, FreeBytes, ServeAll, LeastFree;
      OneMoreServed(Whole(), served, Dispose(pv));
      DisposeKeepsBytes(blocks, pv, lo, hi);
      ghost var k := LiveIndex(blocks, pv - HEADER_SIZE);
      LivePointer(blocks, lo, hi, pv - HEADER_SIZE);
      if pv != NULL {
        var link := pv - HEADER_SIZE;
        if headers[link].size >= ALLOCATED_BIT {
          if headers[link].next == NULL {
            headers := headers[link := headers[link].(size := headers[link].size - ALLOCATED_BIT)];
            freeBytesRemaining := freeBytesRemaining + headers[link].size;
            UntaggedFrame(old(headers), headers, blocks, lo, hi, k, xStart);
            ReturnBlock(link, k);
            PayloadFrame(old(headers), headers, old(blocks), lo, hi, k, xStart);
          }
        }
      }
      served := served + [Dispose(pv)];
    }

    /** The free-list half of Free, once the header is untagged and the bytes are counted. */
    method ReturnBlock(link: int, ghost k: nat)
      requires 0 < heapStart && heapStart + TOTAL_HEAP_SIZE <= SIZE_LIMIT && pxEnd == hi
      requires !(heapStart <= xStart <= heapStart + TOTAL_HEAP_SIZE)
      requires Tiling(blocks, lo, hi) && Coalesced(blocks)
      requires LiveAt(blocks, link, k) && link in headers && headers[link].size == blocks[k].size
      requires Linked(headers, FreeBlocks(blocks), xStart, pxEnd)
      requires Tagged(headers, LiveBlocks(Release(blocks, k)))
      requires freeBytesRemaining == FreeBytes(blocks) + blocks[k].size
      modifies this`headers, this`blocks
      ensures Sound() && blocks == Release(old(blocks), k)
      ensures forall a | a != xStart && a != link && a !in Starts(FreeBlocks(old(blocks))) :: SameAt(old(headers), headers, a)
    {
      hide FreeBlocks, LiveBlocks, Tiling, TotalSize, Release, Coalesced, Linked, InsertAt;
      ghost var fl, p := FreeBlocks(blocks), |FreeBlocks(blocks[..k])|;
      ReleaseReady(blocks, lo, hi, k);
      InsertBlockIntoFreeList(link, fl, p, blocks[k]);
      blocks := Release(blocks, k);
    }

    /** The walk: from the lowest address to the first block that is large enough, or to pxEnd. */
    method FindBlock(wanted: int, ghost fl: seq<Block>) returns (previous: int, block: int, ghost i: nat)
      requires Linked(headers, fl, xStart, pxEnd) && wanted > 0
      requires forall t | 0 <= t < |fl| :: fl[t].addr != NULL && fl[t].addr != pxEnd
      requires pxEnd != NULL
      ensures i <= |fl| && block == NextAddr(fl, i, pxEnd) && (block == pxEnd <==> i == |fl|)
      ensures previous == (if i == 0 then xStart else fl[i - 1].addr)
      ensures previous in headers && headers[previous].next == block
      ensures i < |fl| ==> wanted <= fl[i].size
      ensures forall t | 0 <= t < i :: fl[t].size < wanted
    {
      previous := xStart;
      block := headers[xStart].next;
      i := 0;
      assert fl != [] ==> LinkAt(headers, fl, 0, pxEnd);
      while headers[block].size < wanted && headers[block].next != NULL
        invariant i <= |fl| && block == NextAddr(fl, i, pxEnd) && block in headers
        invariant i < |fl| ==> LinkAt(headers, fl, i, pxEnd)
        invariant previous == (if i == 0 then xStart else fl[i - 1].addr)
        invariant previous in headers && headers[previous].next == block
        invariant forall t | 0 <= t < i :: fl[t].size < wanted
        decreases |fl| - i
      {
        previous := block;
        block := headers[block].next;
        i := i + 1;
        assert i < |fl| ==> LinkAt(headers, fl, i, pxEnd);
      }
      assert i + 1 < |fl| ==> LinkAt(headers, fl, i + 1, pxEnd);
    }

    /** The block the walk found is taken out and handed over. */
    method TakeBlock(previous: int, block: int, wanted: int, ghost i: nat, ghost k: nat)
      requires Sound() && pxEnd != NULL && k < |blocks| && blocks[k].free
      requires wanted % ALIGNMENT == 0 && MINIMUM_BLOCK_SIZE <= wanted <= blocks[k].size
      requires i == |FreeBlocks(blocks[..k])| < |FreeBlocks(blocks)| && block == blocks[k].addr
      requires previous == if i == 0 then xStart else FreeBlocks(blocks)[i - 1].addr
      modifies this`headers, this`freeBytesRemaining, this`minimumEverFreeBytesRemaining, this`blocks
      ensures Sound() && blocks == Carve(old(blocks), k, wanted)
      ensures minimumEverFreeBytesRemaining == Min(old(minimumEverFreeBytesRemaining), FreeBytes(blocks))
      ensures PayloadsKept(old(headers), headers, LiveBlocks(old(blocks)))
    {
      hide FreeBlocks, LiveBlocks, Tiling, TotalSize, Carve, Coalesced;
      DetachBlock(previous, block, wanted, i, k);
      freeBytesRemaining := freeBytesRemaining - headers[block].size;
      if freeBytesRemaining < minimumEverFreeBytesRemaining {
        minimumEverFreeBytesRemaining := freeBytesRemaining;
      }
      ghost var split := headers;
      headers := headers[block := BlockLink(NULL, headers[block].size + ALLOCATED_BIT)];
      blocks := Carve(blocks, k, wanted);
      CarveKeepsTiling(old(blocks), lo, hi, k, wanted);
      CarveTakesBytes(old(blocks), lo, hi, k, wanted);
      CarveParts(old(blocks), k, wanted);
      TakenHeaders(old(blocks), lo, hi, k, wanted, split, headers, xStart);
      PayloadFrame(old(headers), headers, old(blocks), lo, hi, k, xStart);
    }

    /** The block leaves the free list and its unused rest re-enters it. */
    method DetachBlock(previous: int, block: int, wanted: int, ghost i: nat, ghost k: nat)
      requires Sound() && pxEnd != NULL && k < |blocks| && blocks[k].free
      requires wanted % ALIGNMENT == 0 && MINIMUM_BLOCK_SIZE <= wanted <= blocks[k].size
      requires i == |FreeBlocks(blocks[..k])| < |FreeBlocks(blocks)| && block == blocks[k].addr
      requires previous == if i == 0 then xStart else FreeBlocks(blocks)[i - 1].addr
      modifies this`headers
      ensures Linked(headers, FreeBlocks(Carve(blocks, k, wanted)), xStart, pxEnd)
      ensures Tagged(headers, LiveBlocks(blocks))
      ensures block in headers && headers[block].size == Allocated(blocks[k], wanted).size
      ensures forall a | a != xStart && !(block <= a < End(blocks[k])) && a !in Starts(FreeBlocks(blocks)) ::
                SameAt(old(headers), headers, a)
    {
      hide FreeBlocks, LiveBlocks, Tiling, TotalSize, Carve, Coalesced, Linked, Sorted;
      ghost var fl := FreeBlocks(blocks);
      DetachReady(blocks, lo, hi, k, wanted);
      Unlink(previous, block, fl, i);
      SplitRest(block, wanted, fl, i);
    }

    /** On the list: block `i` is skipped. */
    method Unlink(previous: int, block: int, ghost fl: seq<Block>, ghost i: nat)
      requires Linked(headers, fl, xStart, pxEnd) && Sorted(fl, lo, pxEnd) && !(lo <= xStart <= pxEnd)
      requires i < |fl| && block == fl[i].addr && previous == if i == 0 then xStart else fl[i - 1].addr
      modifies this`headers
      ensures Linked(headers, fl[..i] + fl[i + 1..], xStart, pxEnd)
      ensures old(headers).Keys == headers.Keys && block in headers && headers[block].size == fl[i].size
      ensures forall a | a in old(headers) && a != xStart && a !in Starts(fl) :: headers[a] == old(headers)[a]
    {
      assert LinkAt(headers, fl, i, pxEnd);
      assert i > 0 ==> LinkAt(headers, fl, i - 1, pxEnd) && fl[i - 1] in fl;
      headers := headers[previous := headers[previous].(next := headers[block].next)];
      UnlinkLinks(old(headers), headers, fl, i, xStart, pxEnd);
    }

    /** On the list without block `i`: the rest of that block, which touches no neighbour, enters in its place. */
    method SplitRest(block: int, wanted: int, ghost fl: seq<Block>, ghost i: nat)
      requires i < |fl| && Sorted(fl, lo, pxEnd) && !(lo <= xStart <= pxEnd)
      requires Linked(headers, fl[..i] + fl[i + 1..], xStart, pxEnd)
      requires block == fl[i].addr && block in headers && headers[block].size == fl[i].size
      requires i > 0 ==> End(fl[i - 1]) < fl[i].addr
      requires i + 1 < |fl| ==> End(fl[i]) < fl[i + 1].addr
      requires 0 < wanted <= fl[i].size
      modifies this`headers
      ensures Linked(headers, fl[..i] + Remainder(fl[i], wanted) + fl[i + 1..], xStart, pxEnd)
      ensures old(headers).Keys <= headers.Keys
      ensures block in headers && headers[block].size == Allocated(fl[i], wanted).size
      ensures forall a | a != xStart && !(block <= a < End(fl[i])) && a !in Starts(fl) :: SameAt(old(headers), headers, a)
    {
      hide InsertAt, Sorted, Linked;
      ghost var rest := fl[..i] + fl[i + 1..];
      if headers[block].size - wanted > MINIMUM_BLOCK_SIZE {
        var newBlock := block + wanted;
        var garbage: int := *;
        headers := headers[newBlock := BlockLink(garbage, headers[block].size - wanted)];
        headers := headers[block := headers[block].(size := wanted)];
        ghost var b := Remainder(fl[i], wanted)[0];
        RestSorted(fl, i, b, lo, pxEnd);
        RestFrame(old(headers), headers, fl, i, block, newBlock, lo, xStart, pxEnd);
        InsertUntouched(fl, i, b);
        InsertBlockIntoFreeList(newBlock, rest, i, b);
      } else {
        assert fl[..i] + Remainder(fl[i], wanted) + fl[i + 1..] == rest;
      }
    }

    method InsertBlockIntoFreeList(blockToInsert: int, ghost fl: seq<Block>, ghost p: nat, ghost b: Block)
      requires Sorted(fl, lo, pxEnd) && Linked(headers, fl, xStart, pxEnd) && !(lo <= xStart <= pxEnd)
      requires p <= |fl| && forall t | 0 <= t < |fl| :: t < p <==> fl[t].addr < blockToInsert
      requires blockToInsert == b.addr && b.addr in headers && headers[blockToInsert].size == b.size
      requires lo <= b.addr < End(b) <= NextAddr(fl, p, pxEnd) && (p > 0 ==> End(fl[p - 1]) <= b.addr)
      modifies this`headers
      ensures Linked(headers, InsertAt(fl, p, b), xStart, pxEnd)
      ensures old(headers).Keys == headers.Keys
      ensures forall a | a in old(headers) && a != xStart && a != blockToInsert && a !in Starts(fl) ::
                headers[a] == old(headers)[a]
    {
      hide InsertAt;
      var pxIterator := WalkTo(blockToInsert, fl, p);
      Apart(fl, p, b);
      hide *;
      RelinkAround(pxIterator, blockToInsert, fl, p, b);
    }

    /** The walk to the block that the new one follows. */
    method WalkTo(blockToInsert: int, ghost fl: seq<Block>, ghost p: nat) returns (pxIterator: int)
      requires Linked(headers, fl, xStart, pxEnd)
      requires p <= |fl| && blockToInsert <= NextAddr(fl, p, pxEnd) && forall t | 0 <= t < p :: fl[t].addr < blockToInsert
      ensures pxIterator == if p == 0 then xStart else fl[p - 1].addr
    {
      pxIterator := xStart;
      ghost var j := 0;
      while headers[pxIterator].next < blockToInsert
        invariant j <= p && pxIterator == (if j == 0 then xStart else fl[j - 1].addr)
        invariant pxIterator in headers && headers[pxIterator].next == NextAddr(fl, j, pxEnd)
        decreases p - j
      {
        assert LinkAt(headers, fl, j, pxEnd);
        pxIterator := headers[pxIterator].next;
        j := j + 1;
      }
    }

    lemma Apart(fl: seq<Block>, p: nat, b: Block)
      requires Sorted(fl, lo, pxEnd) && !(lo <= xStart <= pxEnd)
      requires p <= |fl| && forall t | 0 <= t < |fl| :: t < p <==> fl[t].addr < b.addr
      requires lo <= b.addr < End(b) <= NextAddr(fl, p, pxEnd) && (p > 0 ==> End(fl[p - 1]) <= b.addr)
      ensures Separate(fl, p, b)
    {
    }

    /** The part of the insertion after the walk, with `p` the position the walk found. */
    method RelinkAround(pxIterator: int, blockToInsert: int, ghost fl: seq<Block>, ghost p: nat, ghost b: Block)
      requires blockToInsert == b.addr && b.addr in headers && headers[b.addr].size == b.size
      requires p <= |fl| && pxIterator == (if p == 0 then xStart else fl[p - 1].addr)
      requires Linked(headers, fl, xStart, pxEnd)
      requires Separate(fl, p, b)
      modifies this`headers
      ensures Linked(headers, InsertAt(fl, p, b), xStart, pxEnd)
      ensures old(headers).Keys == headers.Keys
      ensures forall a | a in old(headers) && a != xStart && a != b.addr && a !in Starts(fl) ::
                headers[a] == old(headers)[a]
    {
      assert p > 0 ==> LinkAt(headers, fl, p - 1, pxEnd);
      assert p < |fl| ==> LinkAt(headers, fl, p, pxEnd);
      var block := blockToInsert;
      if pxIterator + headers[pxIterator].size == blockToInsert {
        headers := headers[pxIterator := headers[pxIterator].(size := headers[pxIterator].size + headers[blockToInsert].size)];
        block := pxIterator;
      }
      assert block != blockToInsert <==> TouchesLeft(fl, p, b);
      var next := headers[pxIterator].next;
      if block + headers[block].size == next {
        if next != pxEnd {
          headers := headers[block := BlockLink(headers[next].next, headers[block].size + headers[next].size)];
        } else {
          headers := headers[block := headers[block].(next := pxEnd)];
        }
      } else {
        headers := headers[block := headers[block].(next := next)];
      }
      if pxIterator != block {
        headers := headers[pxIterator := headers[pxIterator].(next := block)];
      }
      InsertLinks(old(headers), headers, fl, p, b, xStart, pxEnd);
    }

    /** All the addresses an insertion looks at are different, and `b` may only touch its list neighbours. */
    ghost predicate Separate(fl: seq<Block>, p: nat, b: Block)
      reads this`pxEnd
    {
      && p <= |fl| && b.size > 0 && xStart != pxEnd && b.addr != xStart && b.addr != pxEnd
      && (forall i | 0 <= i < |fl| :: fl[i].addr != xStart && fl[i].addr != pxEnd && fl[i].addr != b.addr)
      && (forall i, j | 0 <= i < j < |fl| :: fl[i].addr != fl[j].addr)
    }
  }

  /** Around the free block `k`: its list neighbours keep away from it and no live block shares its addresses. */
  lemma FreeListAround(bs: seq<Block>, lo: int, hi: int, k: nat)
    requires Tiling(bs, lo, hi) && Coalesced(bs) && k < |bs| && bs[k].free
    ensures var fl, p := FreeBlocks(bs), |FreeBlocks(bs[..k])|;
            && p < |fl| && fl[p] == bs[k]
            && (p > 0 ==> End(fl[p - 1]) < bs[k].addr)
            && (p + 1 < |fl| ==> End(bs[k]) < fl[p + 1].addr)
            && fl[..p] == FreeBlocks(bs[..k]) && fl[p + 1..] == FreeBlocks(bs[k + 1..])
    ensures forall b | b in LiveBlocks(bs) :: b.addr < bs[k].addr || End(bs[k]) <= b.addr
  {
    hide FreeBlocks, LiveBlocks, Tiling;
    var fl := FreeBlocks(bs);
    TilingAt(bs, lo, hi, k);
    FilterOne(bs[k]);
    BeforeCut(bs[..k], lo, bs[k].addr);
    AfterCut(bs[k + 1..], End(bs[k]), hi);
    var p := FreePosition(bs, lo, hi, k);
    assert fl[..p] == FreeBlocks(bs[..k]) && fl[p + 1..] == FreeBlocks(bs[k + 1..]);
    if p > 0 { assert fl[p - 1] == fl[..p][p - 1] && fl[p - 1] in fl[..p]; }
    if p + 1 < |fl| { assert fl[p + 1] == fl[p + 1..][0] && fl[p + 1] in fl[p + 1..]; }
  }

  /** What taking the free block `k` relies on. */
  lemma DetachReady(bs: seq<Block>, lo: int, hi: int, k: nat, size: int)
    requires Tiling(bs, lo, hi) && Coalesced(bs) && k < |bs| && bs[k].free
    ensures var fl, p := FreeBlocks(bs), |FreeBlocks(bs[..k])|;
            && p < |fl| && fl[p] == bs[k] && Sorted(fl, lo, hi)
            && (p > 0 ==> End(fl[p - 1]) < bs[k].addr)
            && (p + 1 < |fl| ==> End(bs[k]) < fl[p + 1].addr)
            && FreeBlocks(Carve(bs, k, size)) == fl[..p] + Remainder(bs[k], size) + fl[p + 1..]
    ensures forall b | b in LiveBlocks(bs) ::
              !(bs[k].addr <= b.addr < End(bs[k])) && b.addr !in Starts(FreeBlocks(bs)) && lo <= b.addr < hi
  {
    hide FreeBlocks, LiveBlocks, Tiling, Carve, Coalesced, Sorted;
    FreeListAround(bs, lo, hi, k);
    FilteredSorted(bs, lo, hi);
    LiveApartFromFree(bs, lo, hi);
    FilteredBlocks(bs);
    CarveFilters(bs, lo, hi, k, size);
  }

  lemma LiveApartFromFree(bs: seq<Block>, lo: int, hi: int)
    requires Tiling(bs, lo, hi)
    ensures forall b | b in LiveBlocks(bs) :: b.addr !in Starts(FreeBlocks(bs))
    ensures forall b | b in bs :: lo <= b.addr < hi
  {
    TilingSorted(bs, lo, hi);
    FilteredBlocks(bs);
  }

  /** Tagging the taken block completes the headers of the carved tiling. */
  lemma TakenHeaders(bs: seq<Block>, lo: int, hi: int, k: nat, wanted: int,
                     split: map<int, BlockLink>, after: map<int, BlockLink>, xStart: int)
    requires Tiling(bs, lo, hi) && Coalesced(bs) && k < |bs| && bs[k].free && !(lo <= xStart <= hi)
    requires wanted % ALIGNMENT == 0 && MINIMUM_BLOCK_SIZE <= wanted <= bs[k].size
    requires Linked(split, FreeBlocks(Carve(bs, k, wanted)), xStart, hi) && Tagged(split, LiveBlocks(bs))
    requires after == split[bs[k].addr := BlockLink(NULL, Allocated(bs[k], wanted).size + ALLOCATED_BIT)]
    ensures Linked(after, FreeBlocks(Carve(bs, k, wanted)), xStart, hi) && Tagged(after, LiveBlocks(Carve(bs, k, wanted)))
  {
    hide FreeBlocks, LiveBlocks, Tiling, TotalSize, Carve, Coalesced, Linked;
    var cs := Carve(bs, k, wanted);
    CarveKeepsTiling(bs, lo, hi, k, wanted);
    CarveFilters(bs, lo, hi, k, wanted);
    CarveParts(bs, k, wanted);
    LiveApartFromFree(bs, lo, hi);
    LiveApartFromFree(cs, lo, hi);
    FilteredBlocks(cs);
    assert cs[k] in cs;
    FreeListAround(bs, lo, hi, k);
    LinkedFrame(split, after, FreeBlocks(cs), xStart, hi);
    forall b | b in LiveBlocks(cs) ensures b == cs[k] || b in LiveBlocks(bs) {
    }
  }

  /** Inserting the rest of block `i` in its old place joins nothing. */
  lemma InsertUntouched(fl: seq<Block>, i: nat, b: Block)
    requires i < |fl| && b.free
    requires i > 0 ==> End(fl[i - 1]) < b.addr
    requires i + 1 < |fl| ==> End(b) < fl[i + 1].addr
    ensures InsertAt(fl[..i] + fl[i + 1..], i, b) == fl[..i] + [b] + fl[i + 1..]
  {
    var rest := fl[..i] + fl[i + 1..];
    assert rest[..i] == fl[..i] && rest[i..] == fl[i + 1..];
  }

  /** The list without block `i` is ready to take back a part of it. */
  lemma RestSorted(fl: seq<Block>, i: nat, b: Block, lo: int, end: int)
    requires i < |fl| && Sorted(fl, lo, end) && fl[i].addr < b.addr < End(b) == End(fl[i])
    ensures var rest := fl[..i] + fl[i + 1..];
            && Sorted(rest, lo, end)
            && (forall t | 0 <= t < |rest| :: t < i <==> rest[t].addr < b.addr)
            && lo <= b.addr && End(b) <= NextAddr(rest, i, end) && (i > 0 ==> End(rest[i - 1]) <= b.addr)
  {
    var rest := fl[..i] + fl[i + 1..];
    assert forall t | 0 <= t < |rest| :: rest[t] == fl[if t < i then t else t + 1];
  }

  /** Headers written inside block `i` leave the links around it alone. */
  lemma RestFrame(before: map<int, BlockLink>, after: map<int, BlockLink>, fl: seq<Block>, i: nat,
                  block: int, newBlock: int, lo: int, xStart: int, end: int)
    requires i < |fl| && Sorted(fl, lo, end) && !(lo <= xStart <= end)
    requires Linked(before, fl[..i] + fl[i + 1..], xStart, end)
    requires fl[i].addr == block < newBlock < End(fl[i])
    requires before.Keys <= after.Keys && forall a | a in before && a != block && a != newBlock :: after[a] == before[a]
    ensures Linked(after, fl[..i] + fl[i + 1..], xStart, end)
    ensures Starts(fl[..i] + fl[i + 1..]) <= Starts(fl)
    ensures block !in Starts(fl[..i] + fl[i + 1..]) && block != xStart
  {
    var rest := fl[..i] + fl[i + 1..];
    assert forall t | 0 <= t < |rest| :: rest[t] == fl[if t < i then t else t + 1];
    LinkedFrame(before, after, rest, xStart, end);
  }

  /** An address is that of a live block exactly when its index says so. */
  lemma LivePointer(bs: seq<Block>, lo: int, hi: int, addr: int)
    requires Tiling(bs, lo, hi)
    ensures var k := LiveIndex(bs, addr); k < |bs| ==> lo <= addr < hi && bs[k] in LiveBlocks(bs) && bs[k].size > 0
  {
    TilingSorted(bs, lo, hi);
    FilteredBlocks(bs);
  }

  /** The other live blocks survive a release, and the free list leaves room for the block. */
  lemma LiveApart(bs: seq<Block>, lo: int, hi: int, k: nat)
    requires Tiling(bs, lo, hi) && k < |bs| && !bs[k].free
    ensures forall b | b in LiveBlocks(Release(bs, k)) :: b in LiveBlocks(bs) && b.addr != bs[k].addr
    ensures var fl, p := FreeBlocks(bs), |FreeBlocks(bs[..k])|;
            p <= |fl| && End(bs[k]) <= NextAddr(fl, p, hi) && (p > 0 ==> End(fl[p - 1]) <= bs[k].addr)
    ensures lo <= bs[k].addr < End(bs[k]) <= hi
  {
    hide FreeBlocks, LiveBlocks, Tiling, Release;
    TilingAt(bs, lo, hi, k);
    ReleaseIsInsert(bs, lo, hi, k);
    BeforeCut(bs[..k], lo, bs[k].addr);
    AfterCut(bs[k + 1..], End(bs[k]), hi);
    TilingSorted(bs, lo, hi);
    var p := FreePosition(bs, lo, hi, k);
    var fl := FreeBlocks(bs);
    if p > 0 { assert fl[p - 1] == fl[..p][p - 1] && fl[p - 1] in fl[..p]; }
    if p < |fl| { assert fl[p] == fl[p..][0] && fl[p] in fl[p..]; }
  }

  /** Untagging the header of live block `k` touches neither the free list nor the other live headers. */
  lemma UntaggedFrame(before: map<int, BlockLink>, after: map<int, BlockLink>, bs: seq<Block>, lo: int, hi: int,
                      k: nat, xStart: int)
    requires Tiling(bs, lo, hi) && k < |bs| && !bs[k].free && !(lo <= xStart <= hi)
    requires Linked(before, FreeBlocks(bs), xStart, hi) && Tagged(before, LiveBlocks(bs))
    requires before.Keys <= after.Keys && forall a | a in before && a != bs[k].addr :: after[a] == before[a]
    ensures Linked(after, FreeBlocks(bs), xStart, hi) && Tagged(after, LiveBlocks(Release(bs, k)))
  {
    hide FreeBlocks, LiveBlocks, Tiling, Release;
    LiveApartFromFree(bs, lo, hi);
    LiveApart(bs, lo, hi, k);
    FilteredBlocks(bs);
    assert bs[k] in LiveBlocks(bs);
    LinkedFrame(before, after, FreeBlocks(bs), xStart, hi);
  }

  /** Everything a release relies on, and what it leaves. */
  lemma ReleaseReady(bs: seq<Block>, lo: int, hi: int, k: nat)
    requires Tiling(bs, lo, hi) && Coalesced(bs) && k < |bs| && !bs[k].free
    ensures var fl, p := FreeBlocks(bs), |FreeBlocks(bs[..k])|;
            && p <= |fl| && Sorted(fl, lo, hi) && (forall t | 0 <= t < |fl| :: t < p <==> fl[t].addr < bs[k].addr)
            && lo <= bs[k].addr < End(bs[k]) <= NextAddr(fl, p, hi) && (p > 0 ==> End(fl[p - 1]) <= bs[k].addr)
            && FreeBlocks(Release(bs, k)) == InsertAt(fl, p, bs[k])
    ensures Release(bs, k) != [] && Tiling(Release(bs, k), lo, hi) && Coalesced(Release(bs, k))
    ensures FreeBytes(Release(bs, k)) == FreeBytes(bs) + bs[k].size && bs[k].size > 0
    ensures forall b | b in LiveBlocks(Release(bs, k)) ::
              b.addr != bs[k].addr && b.addr !in Starts(FreeBlocks(bs)) && lo <= b.addr < hi
  {
    var p := FreePosition(bs, lo, hi, k);
    ReleaseIsInsert(bs, lo, hi, k);
    ReleaseKeepsTiling(bs, lo, hi, k);
    ReleaseReturnsBytes(bs, lo, hi, k);
    FilteredSorted(bs, lo, hi);
    LiveApartFromFree(bs, lo, hi);
    FilteredBlocks(bs);
    LiveApart(bs, lo, hi, k);
    hide FreeBlocks, LiveBlocks, Tiling, TotalSize, Coalesced, InsertAt;
  }

  lemma NothingKept(headers: map<int, BlockLink>, bs: seq<Block>)
    ensures PayloadsKept(headers, headers, LiveBlocks(bs))
    ensures |bs| == 1 && bs[0].free ==> LiveBlocks(bs) == [] && forall before, after :: PayloadsKept(before, after, LiveBlocks(bs))
  {
    if |bs| == 1 {
      FilterOne(bs[0]);
      assert bs == [bs[0]];
    }
  }

  /** Links survive writes to headers outside the list. */
  lemma LinkedFrame(before: map<int, BlockLink>, after: map<int, BlockLink>, fl: seq<Block>, xStart: int, end: int)
    requires Linked(before, fl, xStart, end)
    requires before.Keys <= after.Keys && before[xStart] == after[xStart] && before[end] == after[end]
    requires forall i | 0 <= i < |fl| && fl[i].addr in before :: after[fl[i].addr] == before[fl[i].addr]
    ensures Linked(after, fl, xStart, end)
  {
    forall i | 0 <= i < |fl| ensures LinkAt(after, fl, i, end) {
      assert LinkAt(before, fl, i, end);
    }
  }

  /** Skipping a block unlinks it. */
  lemma UnlinkLinks(before: map<int, BlockLink>, after: map<int, BlockLink>, fl: seq<Block>, i: nat, xStart: int, end: int)
    requires i < |fl| && Linked(before, fl, xStart, end)
    requires forall x, y | 0 <= x < y < |fl| :: fl[x].addr != fl[y].addr
    requires forall x | 0 <= x < |fl| :: fl[x].addr != xStart && fl[x].addr != end
    requires xStart != end
    requires var prev := if i == 0 then xStart else fl[i - 1].addr;
             prev in before && after == before[prev := before[prev].(next := NextAddr(fl, i + 1, end))]
    ensures Linked(after, fl[..i] + fl[i + 1..], xStart, end)
  {
    var gl := fl[..i] + fl[i + 1..];
    forall x | 0 <= x < |gl| ensures LinkAt(after, gl, x, end) {
      assert LinkAt(before, fl, if x < i then x else x + 1, end);
    }
  }

  /** The header writes of an insertion relink the list as InsertAt says. */
  lemma InsertLinks(before: map<int, BlockLink>, after: map<int, BlockLink>, fl: seq<Block>, p: nat, b: Block,
                    xStart: int, end: int)
    requires p <= |fl| && Linked(before, fl, xStart, end)
    requires forall i | 0 <= i < |fl| :: fl[i].addr != xStart && fl[i].addr != end && fl[i].addr != b.addr
    requires forall i, j | 0 <= i < j < |fl| :: fl[i].addr != fl[j].addr
    requires b.addr != xStart && b.addr != end && xStart != end
    requires var left, right := TouchesLeft(fl, p, b), TouchesRight(fl, p, b);
             var m := InsertAt(fl, p, b)[p - One(left)];
             var prev := if p == 0 then xStart else fl[p - 1].addr;
             var link := BlockLink(NextAddr(fl, p + One(right), end), m.size);
             prev in before && after == if left then before[m.addr := link]
                      else before[b.addr := link][prev := before[prev].(next := b.addr)]
    ensures Linked(after, InsertAt(fl, p, b), xStart, end)
  {
    var left, right := TouchesLeft(fl, p, b), TouchesRight(fl, p, b);
    var gl := InsertAt(fl, p, b);
    forall i | 0 <= i < |gl| ensures LinkAt(after, gl, i, end) {
      var x := p - One(left);
      var k := i - 1 - x + p + One(right);
      if i < x {
        assert LinkAt(before, fl, i, end) && gl[i] == fl[i];
      } else {
        assert i > x ==> gl[i] == fl[k] && LinkAt(before, fl, k, end);
        assert i + 1 < |gl| ==> gl[i + 1] == fl[k + 1];
      }
    }
  }
}
