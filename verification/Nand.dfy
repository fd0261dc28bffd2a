/** The NAND chunk driver: geometry and slices (libs/storage/nand_calculator.cpp), chunk reads and writes
    (libs/storage/nand_driver.cpp) on a page device that repairs with the code of module Ecc. */
module Nand {
  import opened Words
  import opened Ecc

  // ---------- Geometry and slices ----------

  class Geometry {
    var baseOffset: nat
    var pageSize: nat
    var pagesPerBlock: nat
    var spareAreaPerPage: nat
    var pagesPerChunk: nat
    var chunkSize: nat
    var blockSize: nat
    var chunksPerBlock: nat

    /** The fields as numbers of their C types, with sizes that can be divided by. */
    predicate Valid()
      reads this
    {
      && baseOffset < WORD_LIMIT && 0 < pageSize < 65536 && pagesPerBlock < 256
      && 0 < spareAreaPerPage < 256 && 0 < pagesPerChunk < 256
    }

    method Calculate()
      requires Valid()
      modifies this`chunkSize, this`blockSize, this`chunksPerBlock
      ensures Valid() && Calculated()
    {
      chunkSize := pageSize * pagesPerChunk;
      blockSize := pageSize * pagesPerBlock;
      chunksPerBlock := pagesPerBlock / pagesPerChunk;
    }

    predicate Calculated()
      requires Valid()
      reads this
    {
      && chunkSize == pageSize * pagesPerChunk && blockSize == pageSize * pagesPerBlock
      && chunksPerBlock == pagesPerBlock / pagesPerChunk
    }

    function PageOffsetFromChunk(chunkNo: nat): nat
      reads this
    {
      (baseOffset + chunkNo * chunkSize) % WORD_LIMIT
    }

    function BlockOffset(blockNo: nat): nat
      reads this
    {
      (baseOffset + blockNo * blockSize) % WORD_LIMIT
    }
  }

  /** Chunk `k` of block `b`, counted through all blocks, lies within the block that an erasure of `b` clears. */
  predicate InBlock(g: Geometry, b: nat, k: nat)
    reads g
  {
    && g.BlockOffset(b) <= g.PageOffsetFromChunk(b * g.chunksPerBlock + k)
    && g.PageOffsetFromChunk(b * g.chunksPerBlock + k) + g.chunkSize <= g.BlockOffset(b) + g.blockSize
  }

  /** The addresses of a block have 32 bits. */
  predicate Addressable(g: Geometry, b: nat)
    reads g
  {
    g.baseOffset + (b + 1) * g.blockSize <= WORD_LIMIT
  }

  lemma BlockLayout(pageSize: nat, pagesPerBlock: nat, pagesPerChunk: nat)
    requires 0 < pageSize && 0 < pagesPerChunk
    ensures var fill := pagesPerBlock / pagesPerChunk * (pageSize * pagesPerChunk);
            && fill <= pageSize * pagesPerBlock
            && (fill == pageSize * pagesPerBlock <==> pagesPerBlock % pagesPerChunk == 0)
  {
    var n, rest := pagesPerBlock / pagesPerChunk, pagesPerBlock % pagesPerChunk;
    assert pageSize * pagesPerBlock == pageSize * (n * pagesPerChunk) + pageSize * rest;
    assert pageSize * (n * pagesPerChunk) == n * (pageSize * pagesPerChunk);
    if rest > 0 { MulLe(1, rest, pageSize); }
  }

  lemma ChunkPlace(b: nat, n: nat, k: nat, size: nat)
    requires k < n
    ensures (b * n + k) * size == b * (n * size) + k * size
    ensures k * size + size <= n * size && (b + 1) * (n * size) == b * (n * size) + n * size
  {
    assert b * n * size == b * (n * size);
    assert (b * n + k) * size == b * n * size + k * size;
    MulLe(k + 1, n, size);
  }

  lemma Below(x: nat, y: nat)
    requires x + y < WORD_LIMIT
    ensures x % WORD_LIMIT == x && (x + y) % WORD_LIMIT == x % WORD_LIMIT + y
  {
  }

  /** The chunks of a block follow each other from its start, and the last ends within it. */
  lemma ChunkInBlock(g: Geometry, b: nat, k: nat)
    requires g.Valid() && g.Calculated() && g.pagesPerBlock % g.pagesPerChunk == 0
    requires k < g.chunksPerBlock && Addressable(g, b)
    ensures g.PageOffsetFromChunk(b * g.chunksPerBlock + k) == g.BlockOffset(b) + k * g.chunkSize && InBlock(g, b, k)
  {
    BlockLayout(g.pageSize, g.pagesPerBlock, g.pagesPerChunk);
    ChunkPlace(b, g.chunksPerBlock, k, g.chunkSize);
    assert g.blockSize == g.chunksPerBlock * g.chunkSize;
    assert g.chunkSize > 0;
    InPlace(g, b, k, b * g.blockSize, k * g.chunkSize);
  }

  lemma InPlace(g: Geometry, b: nat, k: nat, start: nat, within: nat)
    requires b * g.blockSize == start && (b * g.chunksPerBlock + k) * g.chunkSize == start + within
    requires g.baseOffset + start + g.blockSize <= WORD_LIMIT && within + g.chunkSize <= g.blockSize && g.chunkSize > 0
    ensures g.PageOffsetFromChunk(b * g.chunksPerBlock + k) == g.BlockOffset(b) + within && InBlock(g, b, k)
  {
    Below(g.baseOffset + start, within);
  }

  /** Otherwise the first chunk of the second block starts in the block before it. */
  lemma SecondBlockStarts(g: Geometry)
    requires g.Valid() && g.Calculated() && g.pagesPerBlock % g.pagesPerChunk != 0 && Addressable(g, 1)
    ensures !InBlock(g, 1, 0)
  {
    BlockLayout(g.pageSize, g.pagesPerBlock, g.pagesPerChunk);
    StartsEarly(g, g.chunksPerBlock * g.chunkSize);
  }

  lemma StartsEarly(g: Geometry, first: nat)
    requires g.chunksPerBlock * g.chunkSize == first < g.blockSize && g.baseOffset + 2 * g.blockSize <= WORD_LIMIT
    ensures !InBlock(g, 1, 0)
  {
    assert 1 * g.chunksPerBlock + 0 == g.chunksPerBlock;
  }

  /** Chunks stay within their blocks exactly when whole chunks fill a block. */
  lemma ChunksFillBlocks(g: Geometry)
    requires g.Valid() && g.Calculated() && g.chunksPerBlock > 0 && Addressable(g, 1)
    ensures (forall b: nat, k: nat | k < g.chunksPerBlock && Addressable(g, b) :: InBlock(g, b, k))
       <==> g.pagesPerBlock % g.pagesPerChunk == 0
  {
    if g.pagesPerBlock % g.pagesPerChunk == 0 {
      forall b: nat, k: nat | k < g.chunksPerBlock && Addressable(g, b) ensures InBlock(g, b, k) { ChunkInBlock(g, b, k); }
    } else {
      SecondBlockStarts(g);
    }
  }

  /** Three pages to a chunk and 32 to a block: the tenth chunk should be the first of block 1 and starts in block 0. */
  method MisfitArises() returns (g: Geometry)
    ensures g.Valid() && g.Calculated() && g.pagesPerChunk == 3 && g.pagesPerBlock == 32 && g.chunksPerBlock == 10
    ensures g.PageOffsetFromChunk(10) == 15360 && g.BlockOffset(1) == 16384 && !InBlock(g, 1, 0)
  {
    g := new Geometry;
    g.baseOffset, g.pageSize, g.spareAreaPerPage, g.pagesPerBlock, g.pagesPerChunk := 0, 512, 16, 32, 3;
    g.Calculate();
  }

  /** An operation: where it starts and how many bytes of data and spare it moves. */
  datatype Operation = Operation(offset: nat, dataSize: nat, spareSize: nat)

  /** A slice: page offset, and the part of each buffer it covers. NULL and size 0 is `start == 0, size == 0`. */
  datatype Slice = Slice(offset: nat, dataStart: nat, dataSize: nat, spareStart: nat, spareSize: nat)

  /** Pages of `size` bytes that `total` bytes touch, as the code divides. */
  function PagesFor(total: nat, size: nat): nat
    requires size > 0
  {
    var pages := total / size;
    if size * pages % WORD_LIMIT < total then pages + 1 else pages
  }

  function NeededPages(pageSize: nat, spareSize: nat, op: Operation): nat
    requires pageSize > 0 && spareSize > 0
  {
    var dataPages, sparePages := PagesFor(op.dataSize, pageSize), PagesFor(op.spareSize, spareSize);
    if dataPages > sparePages then dataPages else sparePages
  }

  /** The count is returned as uint16_t. */
  function AffectedPagesCount(pageSize: nat, spareSize: nat, op: Operation): nat
    requires pageSize > 0 && spareSize > 0
  {
    NeededPages(pageSize, spareSize, op) % 65536
  }

  function Signed(w: int): int {
    if w % WORD_LIMIT < WORD_LIMIT / 2 then w % WORD_LIMIT else w % WORD_LIMIT - WORD_LIMIT
  }

  /** The size of a slice that starts at `offset` of `total` bytes; the difference is tested as int32_t. */
  function SliceSize(total: nat, offset: nat, size: nat): nat {
    if Signed(total - offset) > 0 then
      var rest := (total - offset) % WORD_LIMIT;
      if rest > size then size else rest
    else 0
  }

  function OperationSlice(pageSize: nat, spareSize: nat, op: Operation, pageNo: nat): Slice {
    var pageOffset := pageNo * pageSize % WORD_LIMIT;
    var spareOffset := pageNo * spareSize % WORD_LIMIT;
    var dataSize := SliceSize(op.dataSize, pageOffset, pageSize);
    var spare := SliceSize(op.spareSize, spareOffset, spareSize);
    Slice((op.offset + pageOffset) % WORD_LIMIT,
          if dataSize > 0 then pageOffset else 0, dataSize,
          if spare > 0 then spareOffset else 0, spare)
  }

  // ---------- When the slices partition the operation ----------

  /** The sizes are numbers of their C types. */
  predicate Typed(pageSize: nat, spareSize: nat, op: Operation) {
    && 0 < pageSize < 65536 && 0 < spareSize < 256
    && op.offset < WORD_LIMIT && op.dataSize < WORD_LIMIT && op.spareSize < WORD_LIMIT
  }

  function DataBefore(pageSize: nat, spareSize: nat, op: Operation, n: nat): nat {
    if n == 0 then 0 else DataBefore(pageSize, spareSize, op, n - 1) + OperationSlice(pageSize, spareSize, op, n - 1).dataSize
  }

  function SpareBefore(pageSize: nat, spareSize: nat, op: Operation, n: nat): nat {
    if n == 0 then 0 else SpareBefore(pageSize, spareSize, op, n - 1) + OperationSlice(pageSize, spareSize, op, n - 1).spareSize
  }

  /** The slices of page 0 to the affected page count cover both ranges, in order and without gap or overlap. */
  ghost predicate Partitions(pageSize: nat, spareSize: nat, op: Operation)
    requires pageSize > 0 && spareSize > 0
  {
    var n := AffectedPagesCount(pageSize, spareSize, op);
    && (forall k: nat | k < n ::
          var s := OperationSlice(pageSize, spareSize, op, k);
          && (s.dataSize > 0 ==> s.dataStart == DataBefore(pageSize, spareSize, op, k))
          && (s.spareSize > 0 ==> s.spareStart == SpareBefore(pageSize, spareSize, op, k)))
    && DataBefore(pageSize, spareSize, op, n) == op.dataSize
    && SpareBefore(pageSize, spareSize, op, n) == op.spareSize
  }

  /** Neither the page count nor the signed differences overflow. */
  predicate Representable(pageSize: nat, spareSize: nat, op: Operation)
    requires pageSize > 0 && spareSize > 0
  {
    var n := NeededPages(pageSize, spareSize, op);
    n < 65536 && op.dataSize < WORD_LIMIT / 2 && (n > 0 ==> (n - 1) * pageSize <= op.dataSize + WORD_LIMIT / 2)
  }

  /** What is left of `total` after k pages of `size`, at most one page. */
  function Rest(total: nat, k: nat, size: nat): nat {
    Max(0, Min(size, total - k * size))
  }

  lemma PagesForBounds(total: nat, size: nat)
    requires 0 < size && total < WORD_LIMIT
    ensures var n := PagesFor(total, size); total <= n * size && (n > 0 ==> (n - 1) * size < total)
  {
    var q, r := total / size, total % size;
    assert total == q * size + r;
    assert size * q == q * size <= total;
  }

  lemma ProductBelowWord(k: nat, size: nat)
    requires k < 65536 && size < 65536
    ensures k * size < WORD_LIMIT
  {
    MulLe(k, 65535, size);
  }

  lemma SmallMod(x: nat)
    requires x < WORD_LIMIT
    ensures x % WORD_LIMIT == x
  {
  }

  lemma SliceSizePlain(total: nat, offset: nat, size: nat)
    requires total < WORD_LIMIT / 2 && offset < WORD_LIMIT && offset <= total + WORD_LIMIT / 2
    ensures SliceSize(total, offset, size) == Max(0, Min(size, total - offset))
  {
    SignedDifference(total, offset);
  }

  lemma SliceSizeIs(total: nat, k: nat, size: nat)
    requires k < 65536 && 0 < size < 65536 && total < WORD_LIMIT / 2 && k * size <= total + WORD_LIMIT / 2
    ensures SliceSize(total, k * size % WORD_LIMIT, size) == Rest(total, k, size) && k * size % WORD_LIMIT == k * size
  {
    hide SliceSize;
    ProductBelowWord(k, size);
    SmallMod(k * size);
    SliceSizePlain(total, k * size, size);
  }

  lemma SignedDifference(total: nat, offset: nat)
    requires total < WORD_LIMIT / 2 && offset < WORD_LIMIT && offset <= total + WORD_LIMIT / 2
    ensures Signed(total - offset) > 0 <==> total > offset
    ensures total > offset ==> (total - offset) % WORD_LIMIT == total - offset
  {
  }

  lemma NeededBounds(pageSize: nat, spareSize: nat, op: Operation)
    requires Typed(pageSize, spareSize, op)
    ensures var n := NeededPages(pageSize, spareSize, op);
            op.dataSize <= n * pageSize && op.spareSize <= n * spareSize
  {
    var n := NeededPages(pageSize, spareSize, op);
    PagesForBounds(op.dataSize, pageSize);
    PagesForBounds(op.spareSize, spareSize);
    MulLe(PagesFor(op.dataSize, pageSize), n, pageSize);
    MulLe(PagesFor(op.spareSize, spareSize), n, spareSize);
  }

  /** Within the limits every slice is the plain k-th part of both ranges. */
  lemma SliceIs(pageSize: nat, spareSize: nat, op: Operation, k: nat)
    requires Typed(pageSize, spareSize, op) && Representable(pageSize, spareSize, op)
    requires k < NeededPages(pageSize, spareSize, op)
    ensures var s := OperationSlice(pageSize, spareSize, op, k);
            && s.dataSize == Rest(op.dataSize, k, pageSize) && s.spareSize == Rest(op.spareSize, k, spareSize)
            && (s.dataSize > 0 ==> s.dataStart == k * pageSize) && (s.spareSize > 0 ==> s.spareStart == k * spareSize)
            && s.offset == (op.offset + k * pageSize) % WORD_LIMIT
  {
    hide NeededPages, SliceSize, Rest;
    var n := NeededPages(pageSize, spareSize, op);
    NeededBounds(pageSize, spareSize, op);
    MulLe(n, 65535, spareSize);
    MulLe(k, n - 1, pageSize);
    MulLe(k, 65535, spareSize);
    SliceSizeIs(op.dataSize, k, pageSize);
    SliceSizeIs(op.spareSize, k, spareSize);
  }

  lemma {:induction false} BeforeIs(pageSize: nat, spareSize: nat, op: Operation, k: nat)
    requires Typed(pageSize, spareSize, op) && Representable(pageSize, spareSize, op)
    requires k <= NeededPages(pageSize, spareSize, op)
    ensures DataBefore(pageSize, spareSize, op, k) == Min(k * pageSize, op.dataSize)
    ensures SpareBefore(pageSize, spareSize, op, k) == Min(k * spareSize, op.spareSize)
  {
    hide OperationSlice, Representable, NeededPages;
    if k == 0 {
    } else {
      BeforeIs(pageSize, spareSize, op, k - 1);
      SliceIs(pageSize, spareSize, op, k - 1);
      assert k * pageSize == (k - 1) * pageSize + pageSize && k * spareSize == (k - 1) * spareSize + spareSize;
    }
  }

  lemma RepresentablePartitions(pageSize: nat, spareSize: nat, op: Operation)
    requires Typed(pageSize, spareSize, op) && Representable(pageSize, spareSize, op)
    ensures Partitions(pageSize, spareSize, op)
  {
    hide OperationSlice, DataBefore, SpareBefore, NeededPages;
    var n := NeededPages(pageSize, spareSize, op);
    NeededBounds(pageSize, spareSize, op);
    BeforeIs(pageSize, spareSize, op, n);
    forall k: nat | k < n
      ensures var s := OperationSlice(pageSize, spareSize, op, k);
              && (s.dataSize > 0 ==> s.dataStart == DataBefore(pageSize, spareSize, op, k))
              && (s.spareSize > 0 ==> s.spareStart == SpareBefore(pageSize, spareSize, op, k))
    {
      SliceIs(pageSize, spareSize, op, k);
      BeforeIs(pageSize, spareSize, op, k);
    }
  }

  lemma {:induction false} BeforeBounds(pageSize: nat, spareSize: nat, op: Operation, k: nat, n: nat)
    requires k <= n
    ensures DataBefore(pageSize, spareSize, op, n) <= DataBefore(pageSize, spareSize, op, k) + (n - k) * pageSize
    ensures DataBefore(pageSize, spareSize, op, k) <= DataBefore(pageSize, spareSize, op, n)
    ensures SpareBefore(pageSize, spareSize, op, n) <= SpareBefore(pageSize, spareSize, op, k) + (n - k) * spareSize
    decreases n
  {
    if k >= n {
    } else {
      BeforeBounds(pageSize, spareSize, op, k, n - 1);
      assert (n - k) * pageSize == (n - 1 - k) * pageSize + pageSize && (n - k) * spareSize == (n - 1 - k) * spareSize + spareSize;
    }
  }

  lemma FewerPages(total: nat, n: nat, size: nat)
    requires 0 < size && total < WORD_LIMIT && total <= n * size
    ensures PagesFor(total, size) <= n
  {
    PagesForBounds(total, size);
    var m := PagesFor(total, size);
    if m > n {
      MulLe(n, m - 1, size);
      assert false;
    }
  }

  /** A data size that is negative as int32_t leaves the first slice empty, so no later one can continue it. */
  lemma {:induction false} NothingBefore(pageSize: nat, spareSize: nat, op: Operation, k: nat)
    requires Typed(pageSize, spareSize, op) && op.dataSize >= WORD_LIMIT / 2
    requires Partitions(pageSize, spareSize, op) && k <= AffectedPagesCount(pageSize, spareSize, op)
    ensures DataBefore(pageSize, spareSize, op, k) == 0
  {
    hide Partitions, SliceSize;
    if k == 0 {
    } else {
      NothingBefore(pageSize, spareSize, op, k - 1);
      PartitionStart(pageSize, spareSize, op, k - 1);
      FirstSliceEmpty(pageSize, spareSize, op);
    }
  }

  lemma PartitionStart(pageSize: nat, spareSize: nat, op: Operation, k: nat)
    requires Typed(pageSize, spareSize, op) && Partitions(pageSize, spareSize, op)
    requires k < AffectedPagesCount(pageSize, spareSize, op) && DataBefore(pageSize, spareSize, op, k) == 0
    ensures OperationSlice(pageSize, spareSize, op, k).dataSize > 0 ==> k == 0
  {
    hide OperationSlice, NeededPages;
    SliceStart(pageSize, spareSize, op, k);
    if k > 0 { MulLe(1, k, pageSize); }
  }

  lemma SliceStart(pageSize: nat, spareSize: nat, op: Operation, k: nat)
    requires k < 65536 && pageSize < 65536
    ensures OperationSlice(pageSize, spareSize, op, k).dataSize > 0 ==>
              OperationSlice(pageSize, spareSize, op, k).dataStart == k * pageSize
  {
    hide SliceSize;
    ProductBelowWord(k, pageSize);
    SmallMod(k * pageSize);
  }

  lemma FirstSliceEmpty(pageSize: nat, spareSize: nat, op: Operation)
    requires Typed(pageSize, spareSize, op) && op.dataSize >= WORD_LIMIT / 2
    ensures OperationSlice(pageSize, spareSize, op, 0).dataSize == 0
  {
  }

  /** The slices partition the operation exactly when nothing in their computation overflows. */
  lemma PartitionsExactly(pageSize: nat, spareSize: nat, op: Operation)
    requires Typed(pageSize, spareSize, op)
    ensures Partitions(pageSize, spareSize, op) <==> Representable(pageSize, spareSize, op)
  {
    hide OperationSlice, NeededPages, DataBefore, SpareBefore;
    if Representable(pageSize, spareSize, op) {
      RepresentablePartitions(pageSize, spareSize, op);
    } else if Partitions(pageSize, spareSize, op) {
      var n, c := NeededPages(pageSize, spareSize, op), AffectedPagesCount(pageSize, spareSize, op);
      CountReaches(pageSize, spareSize, op);
      if op.dataSize >= WORD_LIMIT / 2 {
        NothingBefore(pageSize, spareSize, op, n);
      } else {
        LastSliceBogus(pageSize, spareSize, op, n - 1);
        PastTheEnd(pageSize, spareSize, op, n - 1);
      }
      assert false;
    }
  }

  /** The slices of 65536 pages of 512 bytes are not a partition of them: their number is returned as 0. */
  lemma OverflowArises()
    ensures var op := Operation(0, 33554432, 0);
            Typed(512, 16, op) && AffectedPagesCount(512, 16, op) == 0 && !Partitions(512, 16, op)
  {
    hide Partitions;
    assert PagesFor(33554432, 512) == 65536 && PagesFor(0, 16) == 0;
    PartitionsExactly(512, 16, Operation(0, 33554432, 0));
  }

  /** Slices that add up to the whole operation are as many as it needs. */
  lemma CountReaches(pageSize: nat, spareSize: nat, op: Operation)
    requires Typed(pageSize, spareSize, op) && Partitions(pageSize, spareSize, op)
    ensures AffectedPagesCount(pageSize, spareSize, op) == NeededPages(pageSize, spareSize, op)
  {
    hide OperationSlice;
    var c := AffectedPagesCount(pageSize, spareSize, op);
    BeforeBounds(pageSize, spareSize, op, 0, c);
    FewerPages(op.dataSize, c, pageSize);
    FewerPages(op.spareSize, c, spareSize);
  }

  lemma LastSliceBogus(pageSize: nat, spareSize: nat, op: Operation, k: nat)
    requires Typed(pageSize, spareSize, op) && k < 65536
    requires op.dataSize < WORD_LIMIT / 2 && k * pageSize > op.dataSize + WORD_LIMIT / 2
    ensures OperationSlice(pageSize, spareSize, op, k).dataSize > 0
    ensures OperationSlice(pageSize, spareSize, op, k).dataStart == k * pageSize
  {
    hide SliceSize;
    ProductBelowWord(k, pageSize);
    WrappedDifference(op.dataSize, k * pageSize, pageSize);
  }

  lemma WrappedDifference(total: nat, offset: nat, size: nat)
    requires total < WORD_LIMIT / 2 && total + WORD_LIMIT / 2 < offset < WORD_LIMIT && 0 < size
    ensures SliceSize(total, offset, size) > 0
  {
    assert (total - offset) % WORD_LIMIT == total - offset + WORD_LIMIT;
  }

  lemma PastTheEnd(pageSize: nat, spareSize: nat, op: Operation, k: nat)
    requires Typed(pageSize, spareSize, op) && Partitions(pageSize, spareSize, op)
    requires k + 1 == AffectedPagesCount(pageSize, spareSize, op)
    requires OperationSlice(pageSize, spareSize, op, k).dataSize > 0
    ensures OperationSlice(pageSize, spareSize, op, k).dataStart < op.dataSize
  {
    hide OperationSlice, NeededPages;
    assert DataBefore(pageSize, spareSize, op, k + 1) == op.dataSize;
  }

  /** Chunk operations of any geometry stay within the limits. */
  lemma ChunksRepresentable(pageSize: nat, spareSize: nat, pagesPerChunk: nat, op: Operation)
    requires Typed(pageSize, spareSize, op) && pagesPerChunk < 256
    requires op.dataSize <= pagesPerChunk * pageSize && op.spareSize <= pagesPerChunk * spareSize
    ensures Representable(pageSize, spareSize, op) && NeededPages(pageSize, spareSize, op) <= pagesPerChunk
  {
    FewerPages(op.dataSize, pagesPerChunk, pageSize);
    FewerPages(op.spareSize, pagesPerChunk, spareSize);
    hide PagesFor;
    MulLe(pagesPerChunk, 255, pageSize);
    var n := NeededPages(pageSize, spareSize, op);
    if n > 0 { MulLe(n - 1, 255, pageSize); }
  }

  // ---------- The page device ----------

  datatype FlashStatus = StatusOK | ErrorCorrected | ErrorNotCorrected | ChecksumCorrupted
                       | InvalidDevice | WriteError | ReadError

  datatype Page = Page(data: seq<byte>, spare: seq<byte>, ecc: nat)

  /** A code word read as all ones marks a page without one; the device then corrects nothing. */
  const BLANK_ECC := 0x00FFFFFF

  function StatusOf(r: EccResult): FlashStatus {
    match r
    case NoError => StatusOK
    case Corrected => ErrorCorrected
    case NotCorrected => ErrorNotCorrected
    case Corrupted => ChecksumCorrupted
  }

  /** What reading a whole page yields. */
  ghost function PageOutcome(page: Page): (FlashStatus, seq<byte>)
    requires ValidLength(|page.data|) && |page.data| > 0
  {
    if page.ecc == BLANK_ECC then (StatusOK, page.data)
    else
      var (result, data) := Repair(EccWord(page.data), page.ecc, page.data);
      (StatusOf(result), data)
  }

  /** A page programmed with new data and its code word. */
  function WithData(pages: map<nat, Page>, offset: nat, bytes: seq<byte>): map<nat, Page>
    requires offset in pages && |bytes| > 0
  {
    pages[offset := Page(bytes, pages[offset].spare, EccWord(bytes))]
  }

  /** A page with the front of its spare area programmed. */
  function WithSpare(pages: map<nat, Page>, offset: nat, bytes: seq<byte>): map<nat, Page>
    requires offset in pages && |bytes| <= |pages[offset].spare|
  {
    pages[offset := pages[offset].(spare := bytes + pages[offset].spare[|bytes|..])]
  }

  /** How the calls for a page and for its spare area fail, if they do. */
  datatype Fault = Fault(page: FlashStatus, spare: FlashStatus)

  /** The pages without an entry work. */
  function FaultAt(faults: map<nat, Fault>, offset: nat): Fault {
    if offset in faults then faults[offset] else Fault(StatusOK, StatusOK)
  }

  /** All pages but one are the same. */
  ghost predicate SameBut(before: map<nat, Page>, after: map<nat, Page>, offset: int) {
    after.Keys == before.Keys && forall o | o in before && o != offset :: after[o] == before[o]
  }

  class Device {
    const pageSize: nat
    const spareSize: nat
    var pages: map<nat, Page>
    var faults: map<nat, Fault>

    ghost predicate Valid()
      reads this
    {
      && pageSize > 0 && ValidLength(pageSize)
      && (forall o | o in faults :: faults[o].page in {StatusOK, InvalidDevice, WriteError, ReadError})
      && forall o | o in pages :: |pages[o].data| == pageSize && |pages[o].spare| == spareSize
    }

    method ReadPage(offset: nat, buffer: array<byte>, start: nat, length: nat) returns (status: FlashStatus)
      requires Valid() && offset in pages && length == pageSize && start + length <= buffer.Length
      modifies buffer
      ensures var fault := FaultAt(faults, offset).page;
              && (fault != StatusOK ==> status == fault && buffer[..] == old(buffer[..]))
              && (fault == StatusOK ==> (status, buffer[start..start + length]) == PageOutcome(pages[offset]))
      ensures buffer[..start] == old(buffer[..start]) && buffer[start + length..] == old(buffer[start + length..])
    {
      var fault := FaultAt(faults, offset).page;
      if fault != StatusOK {
        return fault;
      }
      var page := pages[offset];
      for i := 0 to length
        invariant buffer[..start] == old(buffer[..start]) && buffer[start + length..] == old(buffer[start + length..])
        invariant buffer[start..start + i] == page.data[..i]
      {
        buffer[start + i] := page.data[i];
      }
      assert buffer[start..start + length] == page.data;
      var generated := EccCalc(buffer, start, length);
      if page.ecc == BLANK_ECC {
        return StatusOK;
      }
      var correction := EccCorrect(generated, page.ecc, buffer, start, length);
      status := StatusOf(correction);
    }

    method WritePage(offset: nat, buffer: array<byte>, start: nat, length: nat) returns (status: FlashStatus)
      requires Valid() && offset in pages && length == pageSize && start + length <= buffer.Length
      modifies this`pages
      ensures Valid() && SameBut(old(pages), pages, offset)
      ensures status == FaultAt(faults, offset).page
      ensures status == StatusOK ==> pages == WithData(old(pages), offset, buffer[start..start + length])
    {
      var fault := FaultAt(faults, offset).page;
      if fault != StatusOK {
        Garble(offset);
        return fault;
      }
      var ecc := EccCalc(buffer, start, length);
      pages := pages[offset := Page(buffer[start..start + length], pages[offset].spare, ecc)];
      return StatusOK;
    }

    /** A page whose programming fails may hold anything. */
    method Garble(offset: nat)
      requires Valid() && offset in pages
      modifies this`pages
      ensures Valid() && SameBut(old(pages), pages, offset)
    {
      var data, spare := new byte[pageSize], new byte[spareSize];
      var ecc: nat := *;
      pages := pages[offset := Page(data[..], spare[..], ecc)];
    }

    method ReadSpare(offset: nat, buffer: array<byte>, start: nat, length: nat) returns (status: FlashStatus)
      requires Valid() && offset in pages && length <= spareSize && start + length <= buffer.Length
      modifies buffer
      ensures status == FaultAt(faults, offset).spare
      ensures status == StatusOK ==> buffer[start..start + length] == pages[offset].spare[..length]
      ensures buffer[..start] == old(buffer[..start]) && buffer[start + length..] == old(buffer[start + length..])
    {
      var fault := FaultAt(faults, offset).spare;
      if fault != StatusOK {
        return fault;
      }
      for i := 0 to length
        invariant buffer[..start] == old(buffer[..start]) && buffer[start + length..] == old(buffer[start + length..])
        invariant buffer[start..start + i] == pages[offset].spare[..i]
      {
        buffer[start + i] := pages[offset].spare[i];
      }
      return StatusOK;
    }

    method WriteSpare(offset: nat, buffer: array<byte>, start: nat, length: nat) returns (status: FlashStatus)
      requires Valid() && offset in pages && length <= spareSize && start + length <= buffer.Length
      modifies this`pages
      ensures Valid() && SameBut(old(pages), pages, offset)
      ensures status == FaultAt(faults, offset).spare
      ensures status == StatusOK ==> pages == WithSpare(old(pages), offset, buffer[start..start + length])
    {
      var fault := FaultAt(faults, offset).spare;
      if fault != StatusOK {
        Garble(offset);
        return fault;
      }
      pages := pages[offset := pages[offset].(spare := buffer[start..start + length] + pages[offset].spare[length..])];
      return StatusOK;
    }
  }

  // ---------- Chunks ----------

  datatype YaffsResult = YaffsOk | YaffsFail

  datatype EccOutcome = EccNoError | EccFixed | EccUnfixed

  datatype Progress = Progress(ok: bool, ecc: EccOutcome, data: seq<byte>, spare: seq<byte>)

  /** The sizes of a chunk operation: whole pages of data, any number of spare bytes, all within one chunk. */
  predicate ChunkSized(pageSize: nat, spareSize: nat, pagesPerChunk: nat, op: Operation)
    requires pageSize > 0
  {
    && Typed(pageSize, spareSize, op) && pagesPerChunk < 256
    && op.dataSize % pageSize == 0 && op.dataSize <= pagesPerChunk * pageSize
    && op.spareSize <= pagesPerChunk * spareSize
    && op.offset + pagesPerChunk * pageSize <= WORD_LIMIT
  }

  /** The pages of a chunk are on the device. */
  ghost predicate ChunkPresent(pages: map<nat, Page>, pageSize: nat, spareSize: nat, op: Operation, n: nat) {
    forall k: nat | k < n :: PagePresent(pages, pageSize, spareSize, op, k)
  }

  ghost predicate PagePresent(pages: map<nat, Page>, pageSize: nat, spareSize: nat, op: Operation, k: nat) {
    var o := op.offset + k * pageSize;
    o in pages && |pages[o].data| == pageSize && |pages[o].spare| == spareSize
  }

  /** One page of a read: a data slice through the page outcome, then a spare slice. */
  ghost function ReadPageStep(p: Progress, page: Page, fault: Fault, dataSize: nat, spareSize: nat): Progress
    requires ValidLength(|page.data|) && |page.data| > 0 && spareSize <= |page.spare|
  {
    if !p.ok then p
    else if dataSize > 0 && fault.page != StatusOK then p.(ok := false)
    else
      var (status, bytes) := PageOutcome(page);
      if dataSize > 0 && status in {ErrorNotCorrected, ChecksumCorrupted} then p.(ok := false, ecc := EccUnfixed)
      else
        var ecc := if dataSize > 0 && status == ErrorCorrected then EccFixed else p.ecc;
        if spareSize > 0 && fault.spare != StatusOK then p.(ok := false, ecc := ecc)
        else Progress(true, ecc, p.data + (if dataSize > 0 then bytes else []), p.spare + page.spare[..spareSize])
  }

  /** The first n pages of a chunk read. */
  ghost function ReadUpTo(pages: map<nat, Page>, faults: map<nat, Fault>, pageSize: nat, spareSize: nat, op: Operation, n: nat): Progress
    requires 0 < pageSize && ValidLength(pageSize) && ChunkPresent(pages, pageSize, spareSize, op, n)
  {
    if n == 0 then Progress(true, EccNoError, [], [])
    else
      var p := ReadUpTo(pages, faults, pageSize, spareSize, op, n - 1);
      assert PagePresent(pages, pageSize, spareSize, op, n - 1);
      ReadPageStep(p, pages[op.offset + (n - 1) * pageSize], FaultAt(faults, op.offset + (n - 1) * pageSize),
                   Rest(op.dataSize, n - 1, pageSize), Rest(op.spareSize, n - 1, spareSize))
  }

  /** A whole-page operation has full data slices or none. */
  lemma WholeSlices(pageSize: nat, spareSize: nat, pagesPerChunk: nat, op: Operation, k: nat)
    requires 0 < pageSize && ChunkSized(pageSize, spareSize, pagesPerChunk, op)
    ensures Rest(op.dataSize, k, pageSize) == if k * pageSize < op.dataSize then pageSize else 0
    ensures Min((k + 1) * pageSize, op.dataSize) == Min(k * pageSize, op.dataSize) + Rest(op.dataSize, k, pageSize)
    ensures Min((k + 1) * spareSize, op.spareSize) == Min(k * spareSize, op.spareSize) + Rest(op.spareSize, k, spareSize)
    ensures Rest(op.spareSize, k, spareSize) <= spareSize
  {
    var q := op.dataSize / pageSize;
    assert op.dataSize == q * pageSize;
    assert (k + 1) * pageSize == k * pageSize + pageSize && (k + 1) * spareSize == k * spareSize + spareSize;
    if k < q { MulLe(k + 1, q, pageSize); } else { MulLe(q, k, pageSize); }
  }

  /** What ChunkSized gives the loops over pages. */
  lemma ChunkSlice(pageSize: nat, spareSize: nat, pagesPerChunk: nat, op: Operation, k: nat)
    requires 0 < pageSize && 0 < spareSize && ChunkSized(pageSize, spareSize, pagesPerChunk, op)
    requires k < AffectedPagesCount(pageSize, spareSize, op)
    ensures AffectedPagesCount(pageSize, spareSize, op) == NeededPages(pageSize, spareSize, op) <= pagesPerChunk
    ensures var s := OperationSlice(pageSize, spareSize, op, k);
            && s.offset == op.offset + k * pageSize
            && s.dataSize == Rest(op.dataSize, k, pageSize) && s.spareSize == Rest(op.spareSize, k, spareSize)
            && (s.dataSize > 0 ==> s.dataStart == k * pageSize) && (s.spareSize > 0 ==> s.spareStart == k * spareSize)
  {
    hide OperationSlice, NeededPages, Rest, Representable;
    ChunksRepresentable(pageSize, spareSize, pagesPerChunk, op);
    CountIsNeeded(pageSize, spareSize, op);
    SliceIs(pageSize, spareSize, op, k);
    PageFits(pageSize, pagesPerChunk, op.offset, k);
    SmallMod(op.offset + k * pageSize);
  }

  lemma PageFits(pageSize: nat, pagesPerChunk: nat, offset: nat, k: nat)
    requires 0 < pageSize && k < pagesPerChunk && offset + pagesPerChunk * pageSize <= WORD_LIMIT
    ensures offset + k * pageSize < WORD_LIMIT
  {
    MulLe(k + 1, pagesPerChunk, pageSize);
    assert (k + 1) * pageSize == k * pageSize + pageSize;
  }

  lemma CountIsNeeded(pageSize: nat, spareSize: nat, op: Operation)
    requires 0 < pageSize && 0 < spareSize && Representable(pageSize, spareSize, op)
    ensures AffectedPagesCount(pageSize, spareSize, op) == NeededPages(pageSize, spareSize, op)
  {
    hide NeededPages;
  }

  /** While all is well the bytes read so far are as many as the pages done. */
  lemma {:induction false} ReadLengths(pages: map<nat, Page>, faults: map<nat, Fault>, pageSize: nat, spareSize: nat,
                                       pagesPerChunk: nat, op: Operation, n: nat)
    requires 0 < pageSize && ValidLength(pageSize) && ChunkPresent(pages, pageSize, spareSize, op, n)
    requires ChunkSized(pageSize, spareSize, pagesPerChunk, op)
    ensures var p := ReadUpTo(pages, faults, pageSize, spareSize, op, n);
            p.ok ==> |p.data| == Min(n * pageSize, op.dataSize) && |p.spare| == Min(n * spareSize, op.spareSize)
  {
    hide ReadPageStep, ChunkSized, Rest, Min, ValidLength;
    if n == 0 {
      NothingRead(pageSize, spareSize, op);
    } else {
      ReadLengths(pages, faults, pageSize, spareSize, pagesPerChunk, op, n - 1);
      assert PagePresent(pages, pageSize, spareSize, op, n - 1);
      WholeSlices(pageSize, spareSize, pagesPerChunk, op, n - 1);
      var o := op.offset + (n - 1) * pageSize;
      StepLengths(ReadUpTo(pages, faults, pageSize, spareSize, op, n - 1), pages[o], FaultAt(faults, o),
                  Rest(op.dataSize, n - 1, pageSize), Rest(op.spareSize, n - 1, spareSize));
    }
  }

  lemma NothingRead(pageSize: nat, spareSize: nat, op: Operation)
    ensures Min(0 * pageSize, op.dataSize) == 0 && Min(0 * spareSize, op.spareSize) == 0
  {
  }

  /** A page read successfully adds its slices to what was read. */
  lemma StepLengths(p: Progress, page: Page, fault: Fault, dataSize: nat, spareSize: nat)
    requires ValidLength(|page.data|) && |page.data| > 0 && spareSize <= |page.spare| && dataSize in {0, |page.data|}
    ensures var q := ReadPageStep(p, page, fault, dataSize, spareSize);
            && (q.ok ==> p.ok && |q.data| == |p.data| + dataSize && |q.spare| == |p.spare| + spareSize)
  {
    hide EccWord, ValidLength, Clean, OneOfEachPair, Weight, Address;
  }

  /** A failed read stays failed with the outcome it failed with. */
  lemma {:induction false} ReadStuck(pages: map<nat, Page>, faults: map<nat, Fault>, pageSize: nat, spareSize: nat,
                                     op: Operation, k: nat, n: nat)
    requires 0 < pageSize && ValidLength(pageSize) && k <= n && ChunkPresent(pages, pageSize, spareSize, op, n)
    requires !ReadUpTo(pages, faults, pageSize, spareSize, op, k).ok
    ensures ReadUpTo(pages, faults, pageSize, spareSize, op, n) == ReadUpTo(pages, faults, pageSize, spareSize, op, k)
    decreases n
  {
    if k >= n {
    } else {
      ReadStuck(pages, faults, pageSize, spareSize, op, k, n - 1);
    }
  }

  function ChunkOperation(offset: nat, hasData: bool, dataLen: nat, hasSpare: bool, oobLen: nat): Operation {
    Operation(offset, if hasData then dataLen else 0, if hasSpare then oobLen else 0)
  }

  ghost predicate ChunkReady(g: Geometry, dev: Device, op: Operation)
    reads g, dev
  {
    && g.Valid() && g.Calculated() && dev.Valid() && dev.pageSize == g.pageSize && dev.spareSize == g.spareAreaPerPage
    && ChunkSized(g.pageSize, g.spareAreaPerPage, g.pagesPerChunk, op)
    && ChunkPresent(dev.pages, g.pageSize, g.spareAreaPerPage, op, AffectedPagesCount(g.pageSize, g.spareAreaPerPage, op))
  }

  method ReadChunk(g: Geometry, dev: Device, chunkNo: nat, data: array?<byte>, dataLen: nat, oob: array?<byte>, oobLen: nat)
    returns (result: YaffsResult, eccResult: EccOutcome)
    requires data != null ==> dataLen <= data.Length
    requires oob != null ==> oobLen <= oob.Length && oob != data
    requires ChunkReady(g, dev, ChunkOperation(g.PageOffsetFromChunk(chunkNo % 65536), data != null, dataLen, oob != null, oobLen))
    modifies data, oob
    ensures var op := ChunkOperation(g.PageOffsetFromChunk(chunkNo % 65536), data != null, dataLen, oob != null, oobLen);
            var p := ReadUpTo(dev.pages, dev.faults, g.pageSize, g.spareAreaPerPage, op,
                              AffectedPagesCount(g.pageSize, g.spareAreaPerPage, op));
            && (result == YaffsOk <==> p.ok) && eccResult == p.ecc
            && (p.ok && data != null ==> data[..dataLen] == p.data)
            && (p.ok && oob != null ==> oob[..oobLen] == p.spare)
  {
    hide ReadUpTo, OperationSlice, AffectedPagesCount, Repair, EccWord, ChunkSized;
    eccResult := EccNoError;
    var op := ChunkOperation(g.PageOffsetFromChunk(chunkNo % 65536), data != null, dataLen, oob != null, oobLen);
    var pagesCount := AffectedPagesCount(g.pageSize, g.spareAreaPerPage, op);
    ghost var p := Progress(true, EccNoError, [], []);
    ReadNothing(dev.pages, dev.faults, g.pageSize, g.spareAreaPerPage, op);
    for page := 0 to pagesCount
      invariant p == ReadUpTo(dev.pages, dev.faults, g.pageSize, g.spareAreaPerPage, op, page)
      invariant p.ok && p.ecc == eccResult
      invariant |p.data| == Min(page * g.pageSize, op.dataSize) && |p.spare| == Min(page * g.spareAreaPerPage, op.spareSize)
      invariant data != null ==> data[..|p.data|] == p.data
      invariant oob != null ==> oob[..|p.spare|] == p.spare
    {
      ReadOnePage(dev.pages, dev.faults, g.pageSize, g.spareAreaPerPage, g.pagesPerChunk, op, page);
      ChunkSlice(g.pageSize, g.spareAreaPerPage, g.pagesPerChunk, op, page);
      WholeSlices(g.pageSize, g.spareAreaPerPage, g.pagesPerChunk, op, page);
      var slice := OperationSlice(g.pageSize, g.spareAreaPerPage, op, page);
      var more;
      more, eccResult := ReadSlices(dev, slice, data, oob, eccResult, p);
      p := ReadUpTo(dev.pages, dev.faults, g.pageSize, g.spareAreaPerPage, op, page + 1);
      if !more {
        ReadStuck(dev.pages, dev.faults, g.pageSize, g.spareAreaPerPage, op, page + 1, pagesCount);
        return YaffsFail, eccResult;
      }
    }
    AllRead(g.pageSize, g.spareAreaPerPage, op, g.pagesPerChunk);
    return YaffsOk, eccResult;
  }

  /** The body of the read loop: the slices of one page, after what `p` has gathered. */
  method ReadSlices(dev: Device, slice: Slice, data: array?<byte>, oob: array?<byte>, eccBefore: EccOutcome, ghost p: Progress)
    returns (more: bool, eccResult: EccOutcome)
    requires dev.Valid() && slice.offset in dev.pages && p.ok && p.ecc == eccBefore
    requires slice.dataSize == 0 || (slice.dataSize == dev.pageSize && slice.dataStart == |p.data|)
    requires slice.spareSize == 0 || (slice.spareSize <= dev.spareSize && slice.spareStart == |p.spare|)
    requires slice.dataSize > 0 ==> data != null
    requires slice.spareSize > 0 ==> oob != null
    requires data != null ==> |p.data| + slice.dataSize <= data.Length && data[..|p.data|] == p.data
    requires oob != null ==> oob != data && |p.spare| + slice.spareSize <= oob.Length && oob[..|p.spare|] == p.spare
    modifies data, oob
    ensures var q := ReadPageStep(p, dev.pages[slice.offset], FaultAt(dev.faults, slice.offset), slice.dataSize, slice.spareSize);
            && more == q.ok && eccResult == q.ecc
            && (q.ok ==> |q.data| == |p.data| + slice.dataSize && |q.spare| == |p.spare| + slice.spareSize)
            && (q.ok && data != null ==> data[..|q.data|] == q.data)
            && (q.ok && oob != null ==> oob[..|q.spare|] == q.spare)
  {
    hide Repair, EccWord, ValidLength;
    eccResult := eccBefore;
    if slice.dataSize > 0 {
      var status := dev.ReadPage(slice.offset, data, slice.dataStart, slice.dataSize);
      match status {
        case StatusOK =>
        case ErrorCorrected =>
          eccResult := EccFixed;
        case ErrorNotCorrected | ChecksumCorrupted =>
          eccResult := EccUnfixed;
          return false, eccResult;
        case InvalidDevice | WriteError | ReadError =>
          return false, eccResult;
      }
      Appended(data, |p.data|, slice.dataSize);
    }
    if slice.spareSize > 0 {
      var status := dev.ReadSpare(slice.offset, oob, slice.spareStart, slice.spareSize);
      if status != StatusOK {
        return false, eccResult;
      }
      Appended(oob, |p.spare|, slice.spareSize);
    }
    return true, eccResult;
  }

  lemma Appended(a: array<byte>, m: nat, n: nat)
    requires m + n <= a.Length
    ensures a[..m + n] == a[..m] + a[m..m + n]
  {
  }

  lemma ReadNothing(pages: map<nat, Page>, faults: map<nat, Fault>, pageSize: nat, spareSize: nat, op: Operation)
    requires 0 < pageSize && ValidLength(pageSize)
    ensures ReadUpTo(pages, faults, pageSize, spareSize, op, 0) == Progress(true, EccNoError, [], [])
  {
  }

  lemma ReadOnePage(pages: map<nat, Page>, faults: map<nat, Fault>, pageSize: nat, spareSize: nat, pagesPerChunk: nat,
                    op: Operation, k: nat)
    requires 0 < pageSize && ValidLength(pageSize) && ChunkPresent(pages, pageSize, spareSize, op, k + 1)
    requires ChunkSized(pageSize, spareSize, pagesPerChunk, op)
    ensures PagePresent(pages, pageSize, spareSize, op, k) && Rest(op.spareSize, k, spareSize) <= spareSize
    ensures ReadUpTo(pages, faults, pageSize, spareSize, op, k + 1)
         == ReadPageStep(ReadUpTo(pages, faults, pageSize, spareSize, op, k), pages[op.offset + k * pageSize],
                         FaultAt(faults, op.offset + k * pageSize),
                         Rest(op.dataSize, k, pageSize), Rest(op.spareSize, k, spareSize))
  {
    assert PagePresent(pages, pageSize, spareSize, op, k);
    assert Rest(op.spareSize, k, spareSize) <= spareSize;
    assert k + 1 - 1 == k;
    hide ReadPageStep, ValidLength, ChunkSized, FaultAt, Rest;
  }

  lemma AllRead(pageSize: nat, spareSize: nat, op: Operation, pagesPerChunk: nat)
    requires 0 < pageSize && 0 < spareSize && ChunkSized(pageSize, spareSize, pagesPerChunk, op)
    ensures var n := AffectedPagesCount(pageSize, spareSize, op);
            Min(n * pageSize, op.dataSize) == op.dataSize && Min(n * spareSize, op.spareSize) == op.spareSize
  {
    ChunksRepresentable(pageSize, spareSize, pagesPerChunk, op);
    NeededBounds(pageSize, spareSize, op);
    hide NeededPages;
  }

  // ---------- Writing a chunk ----------

  /** The k-th part of `s` in parts of `size`; short or empty at the end. */
  function Part(s: seq<byte>, k: nat, size: nat): seq<byte> {
    PartBounds(|s|, k, size);
    s[Min(k * size, |s|)..Min((k + 1) * size, |s|)]
  }

  lemma PartBounds(total: nat, k: nat, size: nat)
    ensures 0 <= Min(k * size, total) <= Min((k + 1) * size, total) <= total
    ensures Min((k + 1) * size, total) - Min(k * size, total) == Rest(total, k, size)
  {
    assert (k + 1) * size == k * size + size;
  }

  function PageWritten(page: Page, d: seq<byte>, s: seq<byte>): Page
    requires |s| <= |page.spare|
  {
    Page(if d == [] then page.data else d, s + page.spare[|s|..], if d == [] then page.ecc else EccWord(d))
  }

  ghost function WriteUpTo(pages: map<nat, Page>, pageSize: nat, spareSize: nat, op: Operation,
                           data: seq<byte>, spare: seq<byte>, n: nat): map<nat, Page>
    requires ChunkPresent(pages, pageSize, spareSize, op, n)
  {
    if n == 0 then pages
    else
      var m := WriteUpTo(pages, pageSize, spareSize, op, data, spare, n - 1);
      var o := op.offset + (n - 1) * pageSize;
      assert PagePresent(pages, pageSize, spareSize, op, n - 1);
      PartBounds(|spare|, n - 1, spareSize);
      m[o := PageWritten(pages[o], Part(data, n - 1, pageSize), Part(spare, n - 1, spareSize))]
  }

  /** Each page of the chunk holds its parts; no other page is touched. */
  lemma {:induction false} WrittenPages(pages: map<nat, Page>, pageSize: nat, spareSize: nat, op: Operation,
                                        data: seq<byte>, spare: seq<byte>, n: nat, k: nat)
    requires pageSize > 0 && ChunkPresent(pages, pageSize, spareSize, op, n)
    ensures var m := WriteUpTo(pages, pageSize, spareSize, op, data, spare, n);
            && m.Keys == pages.Keys
            && (k < n ==> PagePresent(pages, pageSize, spareSize, op, k) && |Part(spare, k, spareSize)| <= spareSize)
            && (k < n ==> m[op.offset + k * pageSize]
                          == PageWritten(pages[op.offset + k * pageSize], Part(data, k, pageSize), Part(spare, k, spareSize)))
            && (k >= n && op.offset + k * pageSize in pages ==> m[op.offset + k * pageSize] == pages[op.offset + k * pageSize])
  {
    hide PageWritten, Part;
    if n == 0 {
    } else {
      assert PagePresent(pages, pageSize, spareSize, op, n - 1);
      WrittenPages(pages, pageSize, spareSize, op, data, spare, n - 1, k);
      PartSize(spare, k, spareSize);
      PartSize(spare, n - 1, spareSize);
      if k < n - 1 { MulLe(k + 1, n - 1, pageSize); assert (k + 1) * pageSize == k * pageSize + pageSize; }
      if k > n - 1 { MulLe(n, k, pageSize); assert n * pageSize == (n - 1) * pageSize + pageSize; }
    }
  }

  lemma PartSize(s: seq<byte>, k: nat, size: nat)
    ensures |Part(s, k, size)| == Rest(|s|, k, size) <= size
  {
    PartBounds(|s|, k, size);
  }

  /** Writing page `k` of an operation meets a failing call. */
  predicate FailsAt(faults: map<nat, Fault>, pageSize: nat, spareSize: nat, op: Operation, k: nat) {
    var fault := FaultAt(faults, op.offset + k * pageSize);
    (Rest(op.dataSize, k, pageSize) > 0 && fault.page != StatusOK) || (Rest(op.spareSize, k, spareSize) > 0 && fault.spare != StatusOK)
  }

  /** The first of `n` pages at which writing fails; `n` when it does not. */
  function FirstFailure(faults: map<nat, Fault>, pageSize: nat, spareSize: nat, op: Operation, n: nat): (k: nat)
    ensures k <= n && forall j: nat | j < k :: !FailsAt(faults, pageSize, spareSize, op, j)
    ensures k < n ==> FailsAt(faults, pageSize, spareSize, op, k)
  {
    if n == 0 then 0
    else
      var k := FirstFailure(faults, pageSize, spareSize, op, n - 1);
      if k < n - 1 || FailsAt(faults, pageSize, spareSize, op, n - 1) then k else n
  }

  lemma FirstFailureIs(faults: map<nat, Fault>, pageSize: nat, spareSize: nat, op: Operation, n: nat, k: nat)
    requires k <= n && forall j: nat | j < k :: !FailsAt(faults, pageSize, spareSize, op, j)
    requires k < n ==> FailsAt(faults, pageSize, spareSize, op, k)
    ensures FirstFailure(faults, pageSize, spareSize, op, n) == k
  {
    hide FailsAt;
  }

  method WriteChunk(g: Geometry, dev: Device, chunkNo: nat, data: array?<byte>, dataLen: nat, oob: array?<byte>, oobLen: nat)
    returns (result: YaffsResult)
    requires data != null ==> dataLen <= data.Length
    requires oob != null ==> oobLen <= oob.Length
    requires ChunkReady(g, dev, ChunkOperation(g.PageOffsetFromChunk(chunkNo % 65536), data != null, dataLen, oob != null, oobLen))
    modifies dev`pages
    ensures dev.Valid()
    ensures var op := ChunkOperation(g.PageOffsetFromChunk(chunkNo % 65536), data != null, dataLen, oob != null, oobLen);
            var n := AffectedPagesCount(g.pageSize, g.spareAreaPerPage, op);
            var k := FirstFailure(dev.faults, g.pageSize, g.spareAreaPerPage, op, n);
            var written := WriteUpTo(old(dev.pages), g.pageSize, g.spareAreaPerPage, op,
                                     if data != null then data[..dataLen] else [],
                                     if oob != null then oob[..oobLen] else [], k);
            && (result == YaffsOk <==> k == n)
            && if k == n then dev.pages == written else SameBut(written, dev.pages, op.offset + k * g.pageSize)
  {
    hide WriteUpTo, OperationSlice, AffectedPagesCount, PageWritten, Part, EccWord, ChunkSized, Rest, Min, ValidLength, FirstFailure;
    var op := ChunkOperation(g.PageOffsetFromChunk(chunkNo % 65536), data != null, dataLen, oob != null, oobLen);
    ghost var d, s := if data != null then data[..dataLen] else [], if oob != null then oob[..oobLen] else [];
    var pagesCount := AffectedPagesCount(g.pageSize, g.spareAreaPerPage, op);
    WriteNothing(dev.pages, g.pageSize, g.spareAreaPerPage, op, d, s);
    for page := 0 to pagesCount
      invariant dev.Valid()
      invariant dev.pages == WriteUpTo(old(dev.pages), g.pageSize, g.spareAreaPerPage, op, d, s, page)
      invariant forall j: nat | j < page :: !FailsAt(dev.faults, g.pageSize, g.spareAreaPerPage, op, j)
    {
      var done := WriteOne(g, dev, op, page, pagesCount, data, dataLen, oob, oobLen, old(dev.pages), d, s);
      if !done {
        FirstFailureIs(dev.faults, g.pageSize, g.spareAreaPerPage, op, pagesCount, page);
        return YaffsFail;
      }
    }
    FirstFailureIs(dev.faults, g.pageSize, g.spareAreaPerPage, op, pagesCount, pagesCount);
    return YaffsOk;
  }

  /** The body of the write loop; `before` are the pages before the operation. */
  method WriteOne(g: Geometry, dev: Device, op: Operation, page: nat, pagesCount: nat, data: array?<byte>, dataLen: nat,
                  oob: array?<byte>, oobLen: nat, ghost before: map<nat, Page>, ghost d: seq<byte>, ghost s: seq<byte>)
    returns (done: bool)
    requires g.Valid() && dev.Valid() && dev.pageSize == g.pageSize && dev.spareSize == g.spareAreaPerPage
    requires if data == null then d == [] else dataLen <= data.Length && d == data[..dataLen]
    requires if oob == null then s == [] else oobLen <= oob.Length && s == oob[..oobLen]
    requires page < pagesCount && ChunkPresent(before, g.pageSize, g.spareAreaPerPage, op, page + 1)
    requires dev.pages == WriteUpTo(before, g.pageSize, g.spareAreaPerPage, op, d, s, page)
    requires op.dataSize == |d| && op.spareSize == |s| && ChunkSized(g.pageSize, g.spareAreaPerPage, g.pagesPerChunk, op)
    requires pagesCount == AffectedPagesCount(g.pageSize, g.spareAreaPerPage, op)
    modifies dev`pages
    ensures dev.Valid() && (done <==> !FailsAt(dev.faults, g.pageSize, g.spareAreaPerPage, op, page))
    ensures SameBut(old(dev.pages), dev.pages, op.offset + page * g.pageSize)
    ensures done ==> dev.pages == WriteUpTo(before, g.pageSize, g.spareAreaPerPage, op, d, s, page + 1)
  {
    hide WriteUpTo, OperationSlice, AffectedPagesCount, PageWritten, Part, EccWord, ChunkSized, Rest, Min, ValidLength;
    assert PagePresent(before, g.pageSize, g.spareAreaPerPage, op, page);
    ChunkSlice(g.pageSize, g.spareAreaPerPage, g.pagesPerChunk, op, page);
    WholeSlices(g.pageSize, g.spareAreaPerPage, g.pagesPerChunk, op, page);
    SliceParts(g.pageSize, g.spareAreaPerPage, g.pagesPerChunk, op, d, s, page);
    WrittenPages(before, g.pageSize, g.spareAreaPerPage, op, d, s, page, page);
    WriteOnePage(before, g.pageSize, g.spareAreaPerPage, op, d, s, page);
    var slice := OperationSlice(g.pageSize, g.spareAreaPerPage, op, page);
    if data != null && slice.dataSize > 0 { SubArray(data, dataLen, slice.dataStart, slice.dataSize); }
    if oob != null && slice.spareSize > 0 { SubArray(oob, oobLen, slice.spareStart, slice.spareSize); }
    done := WriteSlices(dev, slice, data, oob, Part(d, page, g.pageSize), Part(s, page, g.spareAreaPerPage));
  }

  /** The slices of one page. */
  method WriteSlices(dev: Device, slice: Slice, data: array?<byte>, oob: array?<byte>,
                     ghost dataPart: seq<byte>, ghost sparePart: seq<byte>)
    returns (more: bool)
    requires dev.Valid() && slice.offset in dev.pages
    requires slice.dataSize == 0 || (slice.dataSize == dev.pageSize && data != null && slice.dataStart + slice.dataSize <= data.Length)
    requires slice.spareSize == 0 || (slice.spareSize <= dev.spareSize && oob != null && slice.spareStart + slice.spareSize <= oob.Length)
    requires dataPart == if slice.dataSize > 0 then data[slice.dataStart..slice.dataStart + slice.dataSize] else []
    requires sparePart == if slice.spareSize > 0 then oob[slice.spareStart..slice.spareStart + slice.spareSize] else []
    modifies dev`pages
    ensures dev.Valid()
    ensures var fault := FaultAt(dev.faults, slice.offset);
            more <==> (slice.dataSize == 0 || fault.page == StatusOK) && (slice.spareSize == 0 || fault.spare == StatusOK)
    ensures SameBut(old(dev.pages), dev.pages, slice.offset)
    ensures more ==>
              dev.pages == old(dev.pages)[slice.offset := PageWritten(old(dev.pages)[slice.offset], dataPart, sparePart)]
  {
    hide EccWord, ValidLength;
    ghost var o, page := slice.offset, dev.pages[slice.offset];
    assert [] + page.spare[0..] == page.spare;
    assert dev.pages == dev.pages[o := page];
    if slice.dataSize > 0 {
      var status := dev.WritePage(slice.offset, data, slice.dataStart, slice.dataSize);
      if status != StatusOK {
        return false;
      }
    }
    if slice.spareSize > 0 {
      var status := dev.WriteSpare(slice.offset, oob, slice.spareStart, slice.spareSize);
      if status != StatusOK {
        return false;
      }
    }
    return true;
  }

  lemma SubArray(a: array<byte>, n: nat, start: nat, length: nat)
    requires start + length <= n <= a.Length
    ensures a[..n][start..start + length] == a[start..start + length]
  {
  }

  lemma WriteNothing(pages: map<nat, Page>, pageSize: nat, spareSize: nat, op: Operation, data: seq<byte>, spare: seq<byte>)
    ensures WriteUpTo(pages, pageSize, spareSize, op, data, spare, 0) == pages
  {
  }

  lemma WriteOnePage(pages: map<nat, Page>, pageSize: nat, spareSize: nat, op: Operation,
                     data: seq<byte>, spare: seq<byte>, k: nat)
    requires ChunkPresent(pages, pageSize, spareSize, op, k + 1) && PagePresent(pages, pageSize, spareSize, op, k)
    ensures |Part(spare, k, spareSize)| <= spareSize
    ensures var o := op.offset + k * pageSize;
            WriteUpTo(pages, pageSize, spareSize, op, data, spare, k + 1)
            == WriteUpTo(pages, pageSize, spareSize, op, data, spare, k)
               [o := PageWritten(pages[o], Part(data, k, pageSize), Part(spare, k, spareSize))]
  {
    PartSize(spare, k, spareSize);
    assert k + 1 - 1 == k;
  }

  /** A slice of the operation and the part of the buffer it names are the same bytes. */
  lemma SliceParts(pageSize: nat, spareSize: nat, pagesPerChunk: nat, op: Operation, data: seq<byte>, spare: seq<byte>, k: nat)
    requires 0 < pageSize && 0 < spareSize && ChunkSized(pageSize, spareSize, pagesPerChunk, op)
    requires |data| == op.dataSize && |spare| == op.spareSize && k < AffectedPagesCount(pageSize, spareSize, op)
    ensures var s := OperationSlice(pageSize, spareSize, op, k);
            && (s.dataSize > 0 ==> s.dataStart + s.dataSize <= |data|) && (s.spareSize > 0 ==> s.spareStart + s.spareSize <= |spare|)
            && Part(data, k, pageSize) == (if s.dataSize > 0 then data[s.dataStart..s.dataStart + s.dataSize] else [])
            && Part(spare, k, spareSize) == (if s.spareSize > 0 then spare[s.spareStart..s.spareStart + s.spareSize] else [])
    ensures k == 0 ==> var s := OperationSlice(pageSize, spareSize, op, k); s.dataSize > 0 || s.spareSize > 0
  {
    hide OperationSlice, NeededPages;
    ChunkSlice(pageSize, spareSize, pagesPerChunk, op, k);
    PartBounds(|data|, k, pageSize);
    PartBounds(|spare|, k, spareSize);
    if op.dataSize == 0 && op.spareSize == 0 { NoPages(pageSize, spareSize, op); }
  }

  lemma NoPages(pageSize: nat, spareSize: nat, op: Operation)
    requires 0 < pageSize && 0 < spareSize && op.dataSize == 0 && op.spareSize == 0
    ensures NeededPages(pageSize, spareSize, op) == 0
  {
  }

  // ---------- Reading what cannot be repaired ----------

  ghost predicate TwoDataBits(d: seq<byte>, stored: Page)
    requires |d| > 0
  {
    stored.ecc == EccWord(d) && exists a: nat, b: nat | a < b < 8 * |d| :: stored.data == FlipBit(FlipBit(d, a), b)
  }

  ghost predicate OneCodeBit(d: seq<byte>, stored: Page)
    requires |d| > 0
  {
    stored.data == d && exists k: nat | k < 2 * Power(|d|) :: stored.ecc == FlipWord(EccWord(d), k)
  }

  ghost predicate TwoCodeBits(d: seq<byte>, stored: Page)
    requires |d| > 0
  {
    stored.data == d && exists k: nat, l: nat | k < l < 2 * Power(|d|) :: stored.ecc == FlipWord(FlipWord(EccWord(d), k), l)
  }

  ghost predicate DataAndCodeBit(d: seq<byte>, stored: Page)
    requires |d| > 0
  {
    exists a: nat, k: nat | a < 8 * |d| && k < 2 * Power(|d|) ::
      stored.data == FlipBit(d, a) && stored.ecc == FlipWord(EccWord(d), k)
  }

  /** One code bit, or any two bits, of a page written with `d` have changed. */
  ghost predicate Damaged(d: seq<byte>, stored: Page)
    requires |d| > 0
  {
    TwoDataBits(d, stored) || OneCodeBit(d, stored) || TwoCodeBits(d, stored) || DataAndCodeBit(d, stored)
  }

  /** Unless its code word reads as blank such a page is reported, and its bytes are left as they were read. */
  lemma DamagedOutcome(d: seq<byte>, stored: Page)
    requires ValidLength(|d|) && |d| > 0 && |stored.data| == |d| && stored.ecc != BLANK_ECC
    ensures OneCodeBit(d, stored) ==> PageOutcome(stored) == (ChecksumCorrupted, stored.data)
    ensures TwoDataBits(d, stored) || TwoCodeBits(d, stored) || DataAndCodeBit(d, stored) ==>
              PageOutcome(stored) == (ErrorNotCorrected, stored.data)
  {
    hide Repair, EccWord, FlipBit, FlipWord, Power, ValidLength;
    EccWordUnique(d, EccWord(d));
    EccWordUnique(stored.data, EccWord(stored.data));
    var generated, read := EccWord(stored.data), EccWord(d);
    if OneCodeBit(d, stored) {
      var k: nat :| k < 2 * Power(|d|) && stored.ecc == FlipWord(EccWord(d), k);
      SingleEccErrorRecognised(d, k, generated, read);
    }
    if TwoDataBits(d, stored) {
      var a: nat, b: nat :| a < b < 8 * |d| && stored.data == FlipBit(FlipBit(d, a), b);
      DoubleDataErrorDetected(d, a, b, generated, read);
    }
    if TwoCodeBits(d, stored) {
      var k: nat, l: nat :| k < l < 2 * Power(|d|) && stored.ecc == FlipWord(FlipWord(EccWord(d), k), l);
      DoubleEccErrorDetected(d, k, l, generated, read);
    }
    if DataAndCodeBit(d, stored) {
      var a: nat, k: nat :| a < 8 * |d| && k < 2 * Power(|d|) && stored.data == FlipBit(d, a) && stored.ecc == FlipWord(EccWord(d), k);
      MixedErrorDetected(d, a, k, generated, read);
    }
  }

  /** The calls for one page of a read: how many bytes are asked for, how the calls fail, and what the page yields. */
  datatype PageCalls = PageCalls(dataSize: nat, spareSize: nat, fault: Fault, outcome: FlashStatus)

  ghost function CallsOf(page: Page, fault: Fault, dataSize: nat, spareSize: nat): PageCalls
    requires ValidLength(|page.data|) && |page.data| > 0
  {
    PageCalls(dataSize, spareSize, fault, PageOutcome(page).0)
  }

  /** The calls for the first n pages of a chunk. */
  ghost function Calls(pages: map<nat, Page>, faults: map<nat, Fault>, pageSize: nat, spareSize: nat, op: Operation, n: nat)
    : (c: seq<PageCalls>)
    requires 0 < pageSize && ValidLength(pageSize) && ChunkPresent(pages, pageSize, spareSize, op, n)
    ensures |c| == n
  {
    if n == 0 then []
    else
      assert PagePresent(pages, pageSize, spareSize, op, n - 1);
      Calls(pages, faults, pageSize, spareSize, op, n - 1)
      + [CallsOf(pages[op.offset + (n - 1) * pageSize], FaultAt(faults, op.offset + (n - 1) * pageSize),
                 Rest(op.dataSize, n - 1, pageSize), Rest(op.spareSize, n - 1, spareSize))]
  }

  predicate PageCallFails(c: PageCalls) {
    c.dataSize > 0 && c.fault.page != StatusOK
  }

  predicate Unrepairable(c: PageCalls) {
    c.dataSize > 0 && c.fault.page == StatusOK && (c.outcome == ErrorNotCorrected || c.outcome == ChecksumCorrupted)
  }

  predicate SpareCallFails(c: PageCalls) {
    c.spareSize > 0 && c.fault.spare != StatusOK
  }

  predicate Readable(c: PageCalls) {
    !PageCallFails(c) && !Unrepairable(c) && !SpareCallFails(c)
  }

  predicate Repaired(c: PageCalls) {
    c.dataSize > 0 && c.fault.page == StatusOK && c.outcome == ErrorCorrected
  }

  /** The outcome as long as nothing fails: whether anything was repaired. */
  ghost function Fixes(calls: seq<PageCalls>): EccOutcome {
    if exists k | 0 <= k < |calls| :: Repaired(calls[k]) then EccFixed else EccNoError
  }

  lemma FixesStep(calls: seq<PageCalls>, c: PageCalls)
    ensures Fixes(calls + [c]) == if Repaired(c) then EccFixed else Fixes(calls)
  {
    hide Repaired;
    var all := calls + [c];
    assert all[|calls|] == c && forall k | 0 <= k < |calls| :: all[k] == calls[k];
  }

  lemma StepVerdict(p: Progress, page: Page, fault: Fault, dataSize: nat, spareSize: nat)
    requires ValidLength(|page.data|) && |page.data| > 0 && spareSize <= |page.spare| && p.ok
    ensures var q, c := ReadPageStep(p, page, fault, dataSize, spareSize), CallsOf(page, fault, dataSize, spareSize);
            && (q.ok <==> Readable(c))
            && q.ecc == if PageCallFails(c) then p.ecc else if Unrepairable(c) then EccUnfixed else if Repaired(c) then EccFixed else p.ecc
  {
    hide PageOutcome, ValidLength;
  }

  lemma OneMoreCall(pages: map<nat, Page>, faults: map<nat, Fault>, pageSize: nat, spareSize: nat, pagesPerChunk: nat,
                    op: Operation, n: nat)
    requires 0 < pageSize && ValidLength(pageSize) && ChunkPresent(pages, pageSize, spareSize, op, n + 1)
    requires ChunkSized(pageSize, spareSize, pagesPerChunk, op)
    ensures var p, q := ReadUpTo(pages, faults, pageSize, spareSize, op, n), ReadUpTo(pages, faults, pageSize, spareSize, op, n + 1);
            var before, now := Calls(pages, faults, pageSize, spareSize, op, n), Calls(pages, faults, pageSize, spareSize, op, n + 1);
            && now[..n] == before
            && (!p.ok ==> q == p)
            && (p.ok ==> (q.ok <==> Readable(now[n]))
                         && q.ecc == if PageCallFails(now[n]) then p.ecc else if Unrepairable(now[n]) then EccUnfixed
                                     else if Repaired(now[n]) then EccFixed else p.ecc)
  {
    hide ValidLength, ChunkSized, Rest, PageOutcome, Readable, Repaired, Unrepairable, PageCallFails, CallsOf, ReadPageStep;
    ReadOnePage(pages, faults, pageSize, spareSize, pagesPerChunk, op, n);
    var o := op.offset + n * pageSize;
    var p := ReadUpTo(pages, faults, pageSize, spareSize, op, n);
    if p.ok {
      StepVerdict(p, pages[o], FaultAt(faults, o), Rest(op.dataSize, n, pageSize), Rest(op.spareSize, n, spareSize));
    } else {
      ReadStuck(pages, faults, pageSize, spareSize, op, n, n + 1);
    }
    assert n + 1 - 1 == n;
  }

  /** A read succeeds exactly when every page can be read, and then reports a fix exactly when one was repaired. */
  lemma {:induction false} ReadsWell(pages: map<nat, Page>, faults: map<nat, Fault>, pageSize: nat, spareSize: nat, pagesPerChunk: nat,
                                     op: Operation, n: nat)
    requires 0 < pageSize && ValidLength(pageSize) && ChunkPresent(pages, pageSize, spareSize, op, n)
    requires ChunkSized(pageSize, spareSize, pagesPerChunk, op)
    ensures var p, calls := ReadUpTo(pages, faults, pageSize, spareSize, op, n), Calls(pages, faults, pageSize, spareSize, op, n);
            && (p.ok <==> forall k | 0 <= k < n :: Readable(calls[k]))
            && (p.ok ==> p.ecc == Fixes(calls))
  {
    hide Readable, Repaired, Unrepairable, PageCallFails, ReadPageStep, ValidLength, ChunkSized, PagePresent, Rest, FaultAt, CallsOf;
    if n == 0 {
    } else {
      var before, now := Calls(pages, faults, pageSize, spareSize, op, n - 1), Calls(pages, faults, pageSize, spareSize, op, n);
      ReadsWell(pages, faults, pageSize, spareSize, pagesPerChunk, op, n - 1);
      OneMoreCall(pages, faults, pageSize, spareSize, pagesPerChunk, op, n - 1);
      hide ReadUpTo, Calls, ChunkPresent;
      FixesStep(before, now[n - 1]);
      ReadableNot(now[n - 1]);
      assert now == before + [now[n - 1]];
      hide Fixes;
    }
  }

  lemma ReadableNot(c: PageCalls)
    ensures Readable(c) ==> !PageCallFails(c) && !Unrepairable(c)
    ensures Unrepairable(c) || PageCallFails(c) ==> !Readable(c) && !Repaired(c)
    ensures Unrepairable(c) ==> !PageCallFails(c)
  {
  }

  /**
    * The first page that cannot be read ends the read. Its data cannot be repaired: the outcome is UNFIXED. A call
    * fails: the outcome is that of the pages whose data was read.
    */
  lemma FirstUnreadable(pages: map<nat, Page>, faults: map<nat, Fault>, pageSize: nat, spareSize: nat, pagesPerChunk: nat,
                        op: Operation, k: nat, n: nat)
    requires 0 < pageSize && ValidLength(pageSize) && k < n && ChunkPresent(pages, pageSize, spareSize, op, n)
    requires ChunkSized(pageSize, spareSize, pagesPerChunk, op)
    requires var calls := Calls(pages, faults, pageSize, spareSize, op, n);
             !Readable(calls[k]) && forall i | 0 <= i < k :: Readable(calls[i])
    ensures var p, calls := ReadUpTo(pages, faults, pageSize, spareSize, op, n), Calls(pages, faults, pageSize, spareSize, op, n);
            && !p.ok
            && p.ecc == if Unrepairable(calls[k]) then EccUnfixed else Fixes(if PageCallFails(calls[k]) then calls[..k] else calls[..k + 1])
  {
    hide Readable, Repaired, Unrepairable, PageCallFails, ReadPageStep, ValidLength, ChunkSized, PagePresent, Rest, FaultAt, CallsOf,
         Fixes, ReadUpTo, Calls;
    var calls := Calls(pages, faults, pageSize, spareSize, op, n);
    CallsPrefix(pages, faults, pageSize, spareSize, op, k, n);
    CallsPrefix(pages, faults, pageSize, spareSize, op, k + 1, n);
    var before, now := Calls(pages, faults, pageSize, spareSize, op, k), Calls(pages, faults, pageSize, spareSize, op, k + 1);
    assert forall i | 0 <= i < k :: before[i] == calls[i];
    assert now[k] == calls[k] && now == before + [calls[k]];
    ReadsWell(pages, faults, pageSize, spareSize, pagesPerChunk, op, k);
    OneMoreCall(pages, faults, pageSize, spareSize, pagesPerChunk, op, k);
    FixesStep(before, calls[k]);
    ReadableNot(calls[k]);
    ReadStuck(pages, faults, pageSize, spareSize, op, k + 1, n);
  }

  lemma {:induction false} CallsPrefix(pages: map<nat, Page>, faults: map<nat, Fault>, pageSize: nat, spareSize: nat, op: Operation,
                                       k: nat, n: nat)
    requires 0 < pageSize && ValidLength(pageSize) && k <= n && ChunkPresent(pages, pageSize, spareSize, op, n)
    ensures Calls(pages, faults, pageSize, spareSize, op, n)[..k] == Calls(pages, faults, pageSize, spareSize, op, k)
  {
    hide ValidLength, CallsOf, Rest, FaultAt;
    if k == n {
      var calls := Calls(pages, faults, pageSize, spareSize, op, n);
      assert calls[..n] == calls;
    } else {
      CallsPrefix(pages, faults, pageSize, spareSize, op, k, n - 1);
      var before, now := Calls(pages, faults, pageSize, spareSize, op, n - 1), Calls(pages, faults, pageSize, spareSize, op, n);
      assert now == before + [now[n - 1]];
      assert now[..k] == before[..k];
      assert before[..k] == Calls(pages, faults, pageSize, spareSize, op, k);
    }
  }

  lemma CallAt(pages: map<nat, Page>, faults: map<nat, Fault>, pageSize: nat, spareSize: nat, op: Operation, k: nat, n: nat)
    requires 0 < pageSize && ValidLength(pageSize) && k < n && ChunkPresent(pages, pageSize, spareSize, op, n)
    ensures PagePresent(pages, pageSize, spareSize, op, k)
    ensures Calls(pages, faults, pageSize, spareSize, op, n)[k]
         == CallsOf(pages[op.offset + k * pageSize], FaultAt(faults, op.offset + k * pageSize),
                    Rest(op.dataSize, k, pageSize), Rest(op.spareSize, k, spareSize))
  {
    hide CallsOf, Rest, FaultAt, ValidLength;
    CallsPrefix(pages, faults, pageSize, spareSize, op, k + 1, n);
    assert Calls(pages, faults, pageSize, spareSize, op, k + 1)[k] == Calls(pages, faults, pageSize, spareSize, op, n)[k];
    assert k + 1 - 1 == k;
  }

  /** A damaged page whose data is asked for makes the read fail with UNFIXED, unless a call before or its own fails. */
  lemma DamagedPageUnfixed(pages: map<nat, Page>, faults: map<nat, Fault>, pageSize: nat, spareSize: nat, pagesPerChunk: nat,
                           op: Operation, d: seq<byte>, k: nat, n: nat)
    requires 0 < pageSize && ValidLength(pageSize) && k < n && ChunkPresent(pages, pageSize, spareSize, op, n)
    requires ChunkSized(pageSize, spareSize, pagesPerChunk, op)
    requires forall i | 0 <= i < k :: Readable(Calls(pages, faults, pageSize, spareSize, op, n)[i])
    requires Rest(op.dataSize, k, pageSize) > 0 && FaultAt(faults, op.offset + k * pageSize).page == StatusOK
    requires |d| == pageSize && PagePresent(pages, pageSize, spareSize, op, k)
    requires Damaged(d, pages[op.offset + k * pageSize]) && pages[op.offset + k * pageSize].ecc != BLANK_ECC
    ensures var p := ReadUpTo(pages, faults, pageSize, spareSize, op, n); !p.ok && p.ecc == EccUnfixed
  {
    hide OneCodeBit, TwoDataBits, TwoCodeBits, DataAndCodeBit, PageOutcome, ReadUpTo, Calls, Rest, FaultAt, ValidLength, ChunkSized, Fixes;
    DamagedOutcome(d, pages[op.offset + k * pageSize]);
    CallAt(pages, faults, pageSize, spareSize, op, k, n);
    assert Unrepairable(Calls(pages, faults, pageSize, spareSize, op, n)[k]);
    FirstUnreadable(pages, faults, pageSize, spareSize, pagesPerChunk, op, k, n);
  }

  // ---------- Reading back after upsets ----------

  /** Storage wear: at most one data bit of the page is off; spare and code word are as written. */
  ghost predicate Upset(written: Page, stored: Page) {
    && stored.spare == written.spare && stored.ecc == written.ecc
    && (stored.data == written.data
        || exists a: nat | a < 8 * |written.data| :: stored.data == FlipBit(written.data, a))
  }

  /** What a read hands out for a page written with `d`: repaired, unless its code word reads as blank. */
  function Recovered(d: seq<byte>, stored: Page): seq<byte> {
    if stored.ecc == BLANK_ECC then stored.data else d
  }

  lemma UpsetOutcome(d: seq<byte>, stored: Page)
    requires ValidLength(|d|) && |d| > 0 && |stored.data| == |d| && stored.ecc == EccWord(d)
    requires stored.data == d || exists a: nat | a < 8 * |d| :: stored.data == FlipBit(d, a)
    ensures PageOutcome(stored)
         == (if stored.ecc != BLANK_ECC && stored.data != d then ErrorCorrected else StatusOK, Recovered(d, stored))
  {
    hide Repair, EccWord, FlipBit;
    EccWordUnique(d, EccWord(d));
    EccWordUnique(stored.data, EccWord(stored.data));
    if stored.data == d {
      NoErrorFound(d, EccWord(d), EccWord(d));
    } else {
      var a: nat :| a < 8 * |d| && stored.data == FlipBit(d, a);
      SingleDataErrorCorrected(d, a, EccWord(stored.data), EccWord(d));
    }
  }

  /** Page k of the chunk was written with data, which an upset has since changed. */
  ghost predicate FlippedPage(pages: map<nat, Page>, pageSize: nat, op: Operation, data: seq<byte>, k: nat) {
    var o := op.offset + k * pageSize;
    o in pages && Part(data, k, pageSize) != [] && pages[o].data != Part(data, k, pageSize)
  }

  predicate BlankPage(pages: map<nat, Page>, pageSize: nat, op: Operation, k: nat) {
    var o := op.offset + k * pageSize;
    o in pages && pages[o].ecc == BLANK_ECC
  }

  ghost predicate StoredPage(pages: map<nat, Page>, pageSize: nat, spareSize: nat, op: Operation,
                             data: seq<byte>, spare: seq<byte>, k: nat) {
    && PagePresent(pages, pageSize, spareSize, op, k)
    && var page, d := pages[op.offset + k * pageSize], Part(data, k, pageSize);
       && |Part(spare, k, spareSize)| <= spareSize
       && page.spare[..|Part(spare, k, spareSize)|] == Part(spare, k, spareSize)
       && (d != [] ==> page.ecc == EccWord(d)
                       && (page.data == d || exists a: nat | a < 8 * |d| :: page.data == FlipBit(d, a)))
  }

  /** The bytes that reading the first n pages hands out. */
  ghost function HandedOut(pages: map<nat, Page>, pageSize: nat, op: Operation, data: seq<byte>, n: nat): seq<byte>
    requires forall k: nat | k < n :: op.offset + k * pageSize in pages
  {
    if n == 0 then []
    else HandedOut(pages, pageSize, op, data, n - 1)
         + (if Part(data, n - 1, pageSize) == [] then []
            else Recovered(Part(data, n - 1, pageSize), pages[op.offset + (n - 1) * pageSize]))
  }

  ghost predicate SomeRepaired(pages: map<nat, Page>, pageSize: nat, op: Operation, data: seq<byte>, n: nat) {
    exists k: nat | k < n :: FlippedPage(pages, pageSize, op, data, k) && !BlankPage(pages, pageSize, op, k)
  }

  lemma PrefixParts(s: seq<byte>, k: nat, size: nat)
    ensures 0 <= Min(k * size, |s|) <= Min((k + 1) * size, |s|) <= |s|
    ensures s[..Min((k + 1) * size, |s|)] == s[..Min(k * size, |s|)] + Part(s, k, size)
  {
    PartBounds(|s|, k, size);
  }

  /** Reading a stored chunk succeeds, hands out what is recovered and reports a fix exactly when one was made. */
  lemma {:induction false} ReadStored(pages: map<nat, Page>, pageSize: nat, spareSize: nat, pagesPerChunk: nat,
                                      op: Operation, data: seq<byte>, spare: seq<byte>, n: nat)
    requires 0 < pageSize && ValidLength(pageSize) && ChunkPresent(pages, pageSize, spareSize, op, n)
    requires ChunkSized(pageSize, spareSize, pagesPerChunk, op)
    requires |data| == op.dataSize && |spare| == op.spareSize
    requires forall k: nat | k < n :: StoredPage(pages, pageSize, spareSize, op, data, spare, k)
    ensures forall k: nat | k < n :: op.offset + k * pageSize in pages
    ensures 0 <= Min(n * spareSize, |spare|) <= |spare|
    ensures ReadUpTo(pages, map[], pageSize, spareSize, op, n)
         == Progress(true, if SomeRepaired(pages, pageSize, op, data, n) then EccFixed else EccNoError,
                     HandedOut(pages, pageSize, op, data, n), spare[..Min(n * spareSize, |spare|)])
  {
    hide Part, EccWord, FlipBit, PageOutcome, Recovered, ChunkSized, ReadUpTo, ReadPageStep, SomeRepaired, Min, Rest,
         StoredPage, PagePresent, FlippedPage, BlankPage;
    forall k: nat | k < n ensures op.offset + k * pageSize in pages {
      StoredThere(pages, pageSize, spareSize, op, data, spare, k);
    }
    if n > 0 {
      var k := n - 1;
      ReadStored(pages, pageSize, spareSize, pagesPerChunk, op, data, spare, k);
      ReadOnePage(pages, map[], pageSize, spareSize, pagesPerChunk, op, k);
      hide HandedOut;
      StoredStep(pages, pageSize, spareSize, pagesPerChunk, op, data, spare, k);
    } else {
      ReadNothing(pages, map[], pageSize, spareSize, op);
      NothingRepaired(pages, pageSize, op, data, spare, spareSize);
    }
  }

  lemma StoredThere(pages: map<nat, Page>, pageSize: nat, spareSize: nat, op: Operation, data: seq<byte>, spare: seq<byte>, k: nat)
    requires StoredPage(pages, pageSize, spareSize, op, data, spare, k)
    ensures op.offset + k * pageSize in pages
  {
  }

  lemma NothingRepaired(pages: map<nat, Page>, pageSize: nat, op: Operation, data: seq<byte>, spare: seq<byte>, spareSize: nat)
    ensures !SomeRepaired(pages, pageSize, op, data, 0) && Min(0 * spareSize, |spare|) == 0
  {
  }

  lemma StoredStep(pages: map<nat, Page>, pageSize: nat, spareSize: nat, pagesPerChunk: nat,
                   op: Operation, data: seq<byte>, spare: seq<byte>, k: nat)
    requires 0 < pageSize && ValidLength(pageSize) && ChunkSized(pageSize, spareSize, pagesPerChunk, op)
    requires |data| == op.dataSize && |spare| == op.spareSize
    requires StoredPage(pages, pageSize, spareSize, op, data, spare, k)
    requires forall i: nat | i <= k :: op.offset + i * pageSize in pages
    ensures 0 <= Min(k * spareSize, |spare|) <= Min((k + 1) * spareSize, |spare|) <= |spare|
    ensures Rest(op.spareSize, k, spareSize) <= spareSize
    ensures ReadPageStep(Progress(true, if SomeRepaired(pages, pageSize, op, data, k) then EccFixed else EccNoError,
                                  HandedOut(pages, pageSize, op, data, k), spare[..Min(k * spareSize, |spare|)]),
                         pages[op.offset + k * pageSize], Fault(StatusOK, StatusOK),
                         Rest(op.dataSize, k, pageSize), Rest(op.spareSize, k, spareSize))
         == Progress(true, if SomeRepaired(pages, pageSize, op, data, k + 1) then EccFixed else EccNoError,
                     HandedOut(pages, pageSize, op, data, k + 1), spare[..Min((k + 1) * spareSize, |spare|)])
  {
    hide EccWord, FlipBit, PageOutcome, ChunkSized, Part, Min;
    var page, d := pages[op.offset + k * pageSize], Part(data, k, pageSize);
    PartSize(data, k, pageSize);
    PartSize(spare, k, spareSize);
    PrefixParts(spare, k, spareSize);
    WholeSlices(pageSize, spareSize, pagesPerChunk, op, k);
    if d != [] { UpsetOutcome(d, page); }
    RepairedStep(pages, pageSize, op, data, k);
    assert k + 1 - 1 == k;
  }

  lemma RepairedStep(pages: map<nat, Page>, pageSize: nat, op: Operation, data: seq<byte>, k: nat)
    ensures SomeRepaired(pages, pageSize, op, data, k + 1)
        <==> SomeRepaired(pages, pageSize, op, data, k)
             || (FlippedPage(pages, pageSize, op, data, k) && !BlankPage(pages, pageSize, op, k))
  {
  }

  /** An upset page whose code word reads as blank is handed out as it is. */
  ghost predicate LostPage(pages: map<nat, Page>, pageSize: nat, op: Operation, data: seq<byte>, k: nat) {
    FlippedPage(pages, pageSize, op, data, k) && BlankPage(pages, pageSize, op, k)
  }

  lemma {:induction false} HandedOutExactly(pages: map<nat, Page>, pageSize: nat, op: Operation, data: seq<byte>, n: nat)
    requires forall k: nat | k < n :: op.offset + k * pageSize in pages && |pages[op.offset + k * pageSize].data| == pageSize
    requires forall k: nat | k < n :: |Part(data, k, pageSize)| in {0, pageSize}
    ensures 0 <= Min(n * pageSize, |data|) <= |data|
    ensures |HandedOut(pages, pageSize, op, data, n)| == Min(n * pageSize, |data|)
    ensures HandedOut(pages, pageSize, op, data, n) == data[..Min(n * pageSize, |data|)]
        <==> forall k: nat | k < n :: !LostPage(pages, pageSize, op, data, k)
  {
    if n == 0 {
    } else {
      var k := n - 1;
      HandedOutExactly(pages, pageSize, op, data, k);
      PrefixParts(data, k, pageSize);
      OnePageMore(pages, pageSize, op, data, k);
      hide *;
      var last := if Part(data, k, pageSize) == [] then [] else Recovered(Part(data, k, pageSize), pages[op.offset + k * pageSize]);
      SplitEqual(HandedOut(pages, pageSize, op, data, k), last, data[..Min(k * pageSize, |data|)], Part(data, k, pageSize));
    }
  }

  /** One more page is handed out, and rightly so unless it is lost. */
  lemma OnePageMore(pages: map<nat, Page>, pageSize: nat, op: Operation, data: seq<byte>, k: nat)
    requires forall i: nat | i < k + 1 :: op.offset + i * pageSize in pages
    requires |pages[op.offset + k * pageSize].data| == pageSize && |Part(data, k, pageSize)| in {0, pageSize}
    ensures var d := Part(data, k, pageSize);
            var last := if d == [] then [] else Recovered(d, pages[op.offset + k * pageSize]);
            && |last| == |d| && (last == d <==> !LostPage(pages, pageSize, op, data, k))
            && HandedOut(pages, pageSize, op, data, k + 1) == HandedOut(pages, pageSize, op, data, k) + last
  {
    hide Part;
    assert k + 1 - 1 == k;
  }

  lemma SplitEqual(a: seq<byte>, b: seq<byte>, c: seq<byte>, d: seq<byte>)
    requires |a| == |c|
    ensures a + b == c + d <==> a == c && b == d
  {
    if a + b == c + d {
      assert a == (a + b)[..|a|] && c == (c + d)[..|a|];
      assert b == (a + b)[|a|..] && d == (c + d)[|a|..];
    }
  }

  /** A chunk read back after each of its pages suffered at most one flipped data bit: the read succeeds with the
      spare bytes as written; it reports a fix exactly when a flipped page was repaired; and the data comes back
      exactly when no flipped page carries the code word that reads as blank. */
  lemma ChunkRoundTrip(before: map<nat, Page>, stored: map<nat, Page>, pageSize: nat, spareSize: nat, pagesPerChunk: nat,
                       op: Operation, data: seq<byte>, spare: seq<byte>)
    requires 0 < pageSize && 0 < spareSize && ValidLength(pageSize) && ChunkSized(pageSize, spareSize, pagesPerChunk, op)
    requires |data| == op.dataSize && |spare| == op.spareSize
    requires var n := AffectedPagesCount(pageSize, spareSize, op);
      && ChunkPresent(before, pageSize, spareSize, op, n) && ChunkPresent(stored, pageSize, spareSize, op, n)
      && forall k: nat | k < n :: UpsetSince(WriteUpTo(before, pageSize, spareSize, op, data, spare, n), stored, pageSize, op, k)
    ensures var n := AffectedPagesCount(pageSize, spareSize, op);
      var p := ReadUpTo(stored, map[], pageSize, spareSize, op, n);
      && p.ok && p.spare == spare
      && p.ecc == (if SomeRepaired(stored, pageSize, op, data, n) then EccFixed else EccNoError)
      && (p.data == data <==> forall k: nat | k < n :: !LostPage(stored, pageSize, op, data, k))
  {
    hide WriteUpTo, ReadUpTo, Part, EccWord, HandedOut, AffectedPagesCount, PageWritten, StoredPage, SomeRepaired, LostPage,
         PagePresent, UpsetSince, ChunkSized, Min;
    var n := AffectedPagesCount(pageSize, spareSize, op);
    forall k: nat | k < n
      ensures StoredPage(stored, pageSize, spareSize, op, data, spare, k)
      ensures op.offset + k * pageSize in stored && |stored[op.offset + k * pageSize].data| == pageSize
      ensures |Part(data, k, pageSize)| in {0, pageSize}
    {
      PageStored(before, stored, pageSize, spareSize, pagesPerChunk, op, data, spare, n, k);
    }
    AllRead(pageSize, spareSize, op, pagesPerChunk);
    ReadStored(stored, pageSize, spareSize, pagesPerChunk, op, data, spare, n);
    HandedOutExactly(stored, pageSize, op, data, n);
    assert data[..|data|] == data && spare[..|spare|] == spare;
  }

  /** Without any upset a chunk that was written is read back exactly, blank code words or not. */
  lemma UndamagedRoundTrip(before: map<nat, Page>, pageSize: nat, spareSize: nat, pagesPerChunk: nat, op: Operation,
                           data: seq<byte>, spare: seq<byte>)
    requires 0 < pageSize && 0 < spareSize && ValidLength(pageSize) && ChunkSized(pageSize, spareSize, pagesPerChunk, op)
    requires |data| == op.dataSize && |spare| == op.spareSize
    requires ChunkPresent(before, pageSize, spareSize, op, AffectedPagesCount(pageSize, spareSize, op))
    ensures var n := AffectedPagesCount(pageSize, spareSize, op);
            var stored := WriteUpTo(before, pageSize, spareSize, op, data, spare, n);
            ChunkPresent(stored, pageSize, spareSize, op, n)
            && ReadUpTo(stored, map[], pageSize, spareSize, op, n) == Progress(true, EccNoError, data, spare)
  {
    hide WriteUpTo, ReadUpTo, Part, EccWord, AffectedPagesCount, ChunkSized, Min, ValidLength;
    var n := AffectedPagesCount(pageSize, spareSize, op);
    var stored := WriteUpTo(before, pageSize, spareSize, op, data, spare, n);
    forall k: nat | k < n
      ensures PagePresent(stored, pageSize, spareSize, op, k) && UpsetSince(stored, stored, pageSize, op, k)
      ensures !FlippedPage(stored, pageSize, op, data, k)
    {
      WrittenPages(before, pageSize, spareSize, op, data, spare, n, k);
      WholeSlices(pageSize, spareSize, pagesPerChunk, op, k);
      PartSize(data, k, pageSize);
    }
    hide PagePresent, UpsetSince, FlippedPage;
    ChunkRoundTrip(before, stored, pageSize, spareSize, pagesPerChunk, op, data, spare);
  }

  lemma PageStored(before: map<nat, Page>, stored: map<nat, Page>, pageSize: nat, spareSize: nat, pagesPerChunk: nat,
                   op: Operation, data: seq<byte>, spare: seq<byte>, n: nat, k: nat)
    requires 0 < pageSize && 0 < spareSize && ChunkSized(pageSize, spareSize, pagesPerChunk, op)
    requires |data| == op.dataSize && k < n
    requires ChunkPresent(before, pageSize, spareSize, op, n) && ChunkPresent(stored, pageSize, spareSize, op, n)
    requires UpsetSince(WriteUpTo(before, pageSize, spareSize, op, data, spare, n), stored, pageSize, op, k)
    ensures StoredPage(stored, pageSize, spareSize, op, data, spare, k)
    ensures op.offset + k * pageSize in stored && |stored[op.offset + k * pageSize].data| == pageSize
    ensures |Part(data, k, pageSize)| in {0, pageSize}
  {
    hide WriteUpTo, Part, EccWord, PageWritten, ChunkSized;
    assert PagePresent(stored, pageSize, spareSize, op, k);
    WrittenPages(before, pageSize, spareSize, op, data, spare, n, k);
    PartSize(data, k, pageSize);
    WholeSlices(pageSize, spareSize, pagesPerChunk, op, k);
    StoredAsWritten(before[op.offset + k * pageSize], stored[op.offset + k * pageSize],
                    Part(data, k, pageSize), Part(spare, k, spareSize));
  }

  ghost predicate UpsetSince(written: map<nat, Page>, stored: map<nat, Page>, pageSize: nat, op: Operation, k: nat) {
    var o := op.offset + k * pageSize;
    o in written && o in stored && Upset(written[o], stored[o])
  }

  lemma StoredAsWritten(page: Page, stored: Page, d: seq<byte>, s: seq<byte>)
    requires |s| <= |page.spare| && Upset(PageWritten(page, d, s), stored)
    ensures |s| <= |stored.spare| && stored.spare[..|s|] == s
    ensures d != [] ==> stored.ecc == EccWord(d)
                        && (stored.data == d || exists a: nat | a < 8 * |d| :: stored.data == FlipBit(d, a))
  {
    hide EccWord, FlipBit;
  }

  /**
    * Data whose code word reads as blank exists: a page that is zero but for its first and last bit.
    * A flip of another of its bits is handed out as if nothing had happened.
    */
  lemma BlankCodeWordArises()
    ensures var page := FlipBit(FlipBit(seq(512, _ => 0), 0), 4095);
            && EccWord(page) == BLANK_ECC && FlipBit(page, 7) != page && ValidLength(512)
            && PageOutcome(Page(FlipBit(page, 7), [], EccWord(page))) == (StatusOK, FlipBit(page, 7))
  {
    var zeros: seq<byte> := seq(512, _ => 0);
    var page := FlipBit(FlipBit(zeros, 0), 4095);
    Pow2Values();
    CtzPow2(12);
    assert Power(512) == 12;
    forall k: nat ensures Bit(BLANK_ECC, k) == (k < 24 && Parity(page, k / 2, k % 2 == 1)) {
      OnesBits(24, k);
      if k < 24 {
        ZeroParity(zeros, k / 2, k % 2 == 1, 4096);
        FlipParityUpTo(zeros, 0, k / 2, k % 2 == 1, 4096);
        FlipParityUpTo(FlipBit(zeros, 0), 4095, k / 2, k % 2 == 1, 4096);
        ZeroBits(k / 2);
        OnesBits(12, k / 2);
      }
    }
    EccWordUnique(page, BLANK_ECC);
    FlippedBit(page, 7, 7);
    assert LengthOf(512, 9);
  }

  lemma {:induction false} ZeroParity(data: seq<byte>, j: nat, v: bool, n: nat)
    requires n <= 8 * |data| && forall i | 0 <= i < |data| :: data[i] == 0
    ensures !ParityUpTo(data, j, v, n)
  {
    if n == 0 {
    } else {
      ZeroParity(data, j, v, n - 1);
      ZeroBits((n - 1) % 8);
    }
  }
}
