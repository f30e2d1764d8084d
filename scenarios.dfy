/** The four unit tests of the heap, replayed on the model: each method
    builds a fresh tracker over an arena at `base` with the default
    configuration (64-byte blocks, 8192 bytes), runs the calls of its test in
    order and promises, in its ensures, the values the test asserts. The
    lemmas before them describe the block layouts the tests pass through. */
module HeapTests {
  import opened Bitmap
  import opened Chunks
  import opened DdoHeap

  /** Blocks below k are allocated and every block from k on is free. */
  ghost predicate UsedBelow(v: seq<BlockFlags>, k: nat)
  {
    k <= |v| && forall j :: 0 <= j < |v| ==> v[j].used == (j < k)
  }

  /** A free run of m >= 1 blocks preceded only by allocated blocks is where
      first fit places a request of m blocks. */
  lemma FirstHole(v: seq<BlockFlags>, k: nat, m: nat)
    requires 1 <= m && IsFreeRun(v, k, m)
    requires forall j :: 0 <= j < k ==> v[j].used
    ensures FirstFit(v, m) == Some(k)
  {
    forall j | 0 <= j < k
      ensures !IsFreeRun(v, j, m)
    {
      assert v[j].used;
    }
    FirstFitIs(v, m, k);
  }

  /** A tracker whose blocks are all free: nothing below block 0 is in use
      and every block counts as free. */
  lemma FreshLayout(v: seq<BlockFlags>)
    requires forall b :: 0 <= b < |v| ==> v[b] == Unused
    ensures UsedBelow(v, 0) && FreeCount(v) == |v|
  {
    FreeCountAllFree(v);
  }

  /** On a layout with allocated blocks below k and free blocks above, a
      request of m blocks that fits goes to block k, becomes a chunk of m
      blocks there, moves the boundary to k + m, keeps every other chunk and
      takes m blocks from the free count. */
  lemma BumpAlloc(v: seq<BlockFlags>, k: nat, m: nat)
    requires UsedBelow(v, k) && 1 <= m && k + m <= |v|
    ensures FirstFit(v, m) == Some(k)
    ensures UsedBelow(Marked(v, k, m), k + m)
    ensures ChunkAt(Marked(v, k, m), k, m)
    ensures FreeCount(Marked(v, k, m)) == FreeCount(v) - m
  {
    assert IsFreeRun(v, k, m);
    FirstHole(v, k, m);
    MarkedIsChunk(v, k, m);
    FreeCountAfterAlloc(v, k, m);
  }

  /** On a layout with allocated blocks below k, a request for more blocks
      than there are free ones fails. */
  lemma TooBig(v: seq<BlockFlags>, k: nat, m: nat)
    requires UsedBelow(v, k) && |v| - k < m
    ensures FirstFit(v, m) == None
  {
    forall j | 0 <= j && j + m <= |v|
      ensures !IsFreeRun(v, j, m)
    {
      assert v[j].used;
    }
    FirstFitNone(v, m);
  }

  /** With the buffer at least one block past address 0 and the arena
      inside the 32-bit address space, the null pointer maps to no tracked
      block, so its chunk size is 0. */
  lemma NullIsUntracked(v: seq<BlockFlags>, base: int)
    requires DefaultBlockSize <= base && base + DefaultTotalSize <= U32Limit
    requires |v| == 128
    ensures ChunkBlocks(v, BlockNumber(base, DefaultBlockSize, Null)) == 0
  {
    var q := base / DefaultBlockSize;
    assert 1 <= q <= U32Limit / DefaultBlockSize - 128;
    assert BlockNumber(base, DefaultBlockSize, Null) == U32Limit - q;
  }

  /** With the buffer inside the first block's worth of addresses, the null
      pointer maps to block 0, whose chunk size it then reports. */
  lemma NullIsBlockZero(base: int)
    requires 0 < base < DefaultBlockSize
    ensures BlockNumber(base, DefaultBlockSize, Null) == 0
  {
  }

  /** The tracker of a fresh default heap: 128 free blocks. */
  method NewHeap(base: int) returns (h: Heap)
    requires 0 < base
    ensures fresh(h) && fresh(h.pages) && h.Valid()
    ensures h.blockSize == DefaultBlockSize && h.totalSize == DefaultTotalSize && h.base == base
    ensures UsedBelow(h.Blocks(), 0) && FreeCount(h.Blocks()) == 128 && |h.Blocks()| == 128
  {
    DefaultConfiguration();
    h := new Heap(DefaultBlockSize, DefaultTotalSize, base);
    FreshLayout(h.Blocks());
  }

  /** One request of n bytes, m blocks, on a default heap whose blocks below k
      are allocated and the rest free: it is placed at block k. */
  method AllocNext(h: Heap, n: nat, k: nat, m: nat) returns (addr: int)
    requires h.Valid() && h.blockSize == DefaultBlockSize
    requires UsedBelow(h.Blocks(), k) && BlocksFor(n, DefaultBlockSize) == m
    requires 1 <= m && k + m <= |h.Blocks()|
    modifies h.pages
    ensures h.Valid() && addr == h.base + k * DefaultBlockSize
    ensures h.Blocks() == Marked(old(h.Blocks()), k, m)
    ensures UsedBelow(h.Blocks(), k + m) && ChunkAt(h.Blocks(), k, m)
    ensures FreeCount(h.Blocks()) == FreeCount(old(h.Blocks())) - m
    ensures IsFreeRun(old(h.Blocks()), k, m)
  {
    BumpAlloc(h.Blocks(), k, m);
    addr := h.Alloc(n);
  }

  /** heap_block_size on the address of a chunk of m blocks at block k of a
      default heap: m blocks' worth of bytes. */
  method SizeAt(h: Heap, addr: int, k: nat, m: nat) returns (size: int)
    requires h.Valid() && h.blockSize == DefaultBlockSize && h.totalSize == DefaultTotalSize
    requires addr == h.base + k * DefaultBlockSize && ChunkAt(h.Blocks(), k, m)
    ensures size == m * DefaultBlockSize
  {
    DefaultConfiguration();
    BlockNumberOfBlockAddress(h.base, DefaultBlockSize, k);
    ChunkBlocksOfChunk(h.Blocks(), k, m);
    size := h.BlockSize(addr);
  }

  /** test alloc_and_free: three chunks of three blocks, the middle one
      freed and its space reused by the next request of the same size. */
  method AllocAndFree(base: int)
    returns (b1: int, b2: int, b3: int, b4: int, b5: int, space1: int, space2: int, space3: int)
    requires 0 < base
    ensures b1 == base && b2 == base + 3 * DefaultBlockSize && b3 == base + 6 * DefaultBlockSize
    ensures b4 == b2 && b5 == base + 9 * DefaultBlockSize
    ensures space1 == DefaultTotalSize - 9 * DefaultBlockSize
    ensures space2 == DefaultTotalSize - 6 * DefaultBlockSize
    ensures space3 == DefaultTotalSize - 12 * DefaultBlockSize
  {
    var h := NewHeap(base);
    b1 := AllocNext(h, DefaultBlockSize * 3, 0, 3);
    b2 := AllocNext(h, DefaultBlockSize * 3, 3, 3);
    ghost var v2 := h.Blocks();
    b3 := AllocNext(h, DefaultBlockSize * 3, 6, 3);
    space1 := h.AvailableSpace();
    AllocKeepsChunk(v2, 6, 3, 3, 3);
    b4, space2 := FreeAndRefill(h, b2);
    b5 := AllocNext(h, DefaultBlockSize * 3, 9, 3);
    space3 := h.AvailableSpace();
  }

  /** The middle part of alloc_and_free: freeing the chunk of three blocks at
      block 3 of a layout packed up to block 9 gives its blocks back, and the
      next request of three blocks fills exactly that hole. */
  method FreeAndRefill(h: Heap, addr: int) returns (addr': int, space: int)
    requires h.Valid() && h.blockSize == DefaultBlockSize && h.totalSize == DefaultTotalSize
    requires addr == h.base + 3 * DefaultBlockSize
    requires UsedBelow(h.Blocks(), 9) && ChunkAt(h.Blocks(), 3, 3)
    requires FreeCount(h.Blocks()) == 119
    modifies h.pages
    ensures h.Valid() && addr' == addr && space == DefaultTotalSize - 6 * DefaultBlockSize
    ensures UsedBelow(h.Blocks(), 9) && FreeCount(h.Blocks()) == 119
  {
    ghost var v3 := h.Blocks();
    BlockNumberOfBlockAddress(h.base, DefaultBlockSize, 3);
    h.Free(addr);
    ghost var v4 := h.Blocks();
    FreeCountAfterFree(v3, 3, 3);
    space := h.AvailableSpace();
    ErasedChunk(v3, 3, 3);
    FirstHole(v4, 3, 3);
    addr' := h.Alloc(DefaultBlockSize * 3);
    FreeCountAfterAlloc(v4, 3, 3);
  }

  /** test irregular_alloc_size: requests that are not multiples of the
      block size are rounded up to whole blocks. */
  method IrregularAllocSize(base: int)
    returns (b1: int, b2: int, b3: int, b4: int, s1: int, s2: int, s3: int, s4: int)
    requires 0 < base
    ensures b1 == base && b2 == base + 2 * DefaultBlockSize
    ensures b3 == base + 3 * DefaultBlockSize && b4 == base + 5 * DefaultBlockSize
    ensures s1 == 2 * DefaultBlockSize && s2 == DefaultBlockSize
    ensures s3 == 2 * DefaultBlockSize && s4 == 3 * DefaultBlockSize
  {
    var h := NewHeap(base);
    b1 := AllocNext(h, DefaultBlockSize * 2, 0, 2);
    ghost var v1 := h.Blocks();
    b2 := AllocNext(h, 13, 2, 1);
    ghost var v2 := h.Blocks();
    b3 := AllocNext(h, 85, 3, 2);
    ghost var v3 := h.Blocks();
    b4 := AllocNext(h, DefaultBlockSize * 3, 5, 3);
    AllocKeepsChunk(v1, 2, 1, 0, 2);
    AllocKeepsChunk(v2, 3, 2, 0, 2);
    AllocKeepsChunk(v3, 5, 3, 0, 2);
    AllocKeepsChunk(v2, 3, 2, 2, 1);
    AllocKeepsChunk(v3, 5, 3, 2, 1);
    AllocKeepsChunk(v3, 5, 3, 3, 2);
    s1 := SizeAt(h, b1, 0, 2);
    s2 := SizeAt(h, b2, 2, 1);
    s3 := SizeAt(h, b3, 3, 2);
    s4 := SizeAt(h, b4, 5, 3);
  }

  /** test big_alloc_fail: a request for the whole arena fails with the null
      address and changes nothing, so the next request still goes right after
      the first chunk; the size reported for null is 0 when the buffer lies
      at least one block past address 0. */
  method BigAllocFail(base: int)
    returns (b1: int, b2: int, b3: int, s1: int, s2: int, s3: int)
    requires DefaultBlockSize <= base && base + DefaultTotalSize <= U32Limit
    ensures b1 == base && b2 == Null && b3 == base + 2 * DefaultBlockSize
    ensures s1 == 2 * DefaultBlockSize && s2 == 0 && s3 == 3 * DefaultBlockSize
  {
    var h := NewHeap(base);
    b1 := AllocNext(h, DefaultBlockSize * 2, 0, 2);
    ghost var v1 := h.Blocks();
    TooBig(v1, 2, 128);
    b2 := h.Alloc(DefaultTotalSize);
    b3 := AllocNext(h, DefaultBlockSize * 3, 2, 3);
    ghost var v2 := h.Blocks();
    AllocKeepsChunk(v1, 2, 3, 0, 2);
    s1 := SizeAt(h, b1, 0, 2);
    NullIsUntracked(v2, base);
    s2 := h.BlockSize(b2);
    s3 := SizeAt(h, b3, 2, 3);
  }

  /** test truncate_block: a five-block chunk cut to two blocks keeps its
      start, and the three blocks it gives back serve the next requests. */
  method TruncateBlock(base: int)
    returns (b1: int, b2: int, b3: int, b4: int, s1: int, s2: int, s3: int)
    requires 0 < base
    ensures b1 == base && b2 == base + DefaultBlockSize
    ensures s1 == DefaultBlockSize && s2 == 5 * DefaultBlockSize && s3 == 2 * DefaultBlockSize
    ensures b3 == base + 3 * DefaultBlockSize && b4 == base + 5 * DefaultBlockSize
  {
    var h := NewHeap(base);
    b1 := AllocNext(h, DefaultBlockSize * 1, 0, 1);
    ghost var v1 := h.Blocks();
    b2 := AllocNext(h, DefaultBlockSize * 5, 1, 5);
    ghost var v2 := h.Blocks();
    AllocKeepsChunk(v1, 1, 5, 0, 1);
    s1 := SizeAt(h, b1, 0, 1);
    s2 := SizeAt(h, b2, 1, 5);
    s3 := TruncateToTwo(h, b2);
    b3 := AllocNext(h, DefaultBlockSize * 2, 3, 2);
    b4 := AllocNext(h, DefaultBlockSize * 1, 5, 1);
  }

  /** The middle part of truncate_block: cutting the five-block chunk at
      block 1 to two blocks leaves the layout packed up to block 3, and the
      chunk then reports two blocks' worth of bytes. */
  method TruncateToTwo(h: Heap, addr: int) returns (size: int)
    requires h.Valid() && h.blockSize == DefaultBlockSize && h.totalSize == DefaultTotalSize
    requires addr == h.base + DefaultBlockSize
    requires UsedBelow(h.Blocks(), 6) && ChunkAt(h.Blocks(), 1, 5)
    modifies h.pages
    ensures h.Valid() && size == 2 * DefaultBlockSize
    ensures UsedBelow(h.Blocks(), 3)
  {
    ghost var v2 := h.Blocks();
    BlockNumberOfBlockAddress(h.base, DefaultBlockSize, 1);
    ChunkBlocksOfChunk(v2, 1, 5);
    h.Truncate(addr, DefaultBlockSize * 2);
    TruncateShape(v2, 1, 5, 2);
    size := SizeAt(h, addr, 1, 2);
  }
}
