/** The block tracker (ddo_heap.c): Heap_t as a class whose page bytes the
    operations update in place with the same nested page/slot loops and bit
    masking as the source. Each operation is proved against the block-level
    functions of Chunks, through the view `Blocks()` of the page bytes. */
module DdoHeap {
  import opened Bitmap
  import opened Chunks

  /** The null pointer that heap_alloc returns when no run fits. */
  const Null: int := 0

  /** What the running counters of heap_alloc's scan mean after the first
      c blocks: `freeBlocks` is the length of the free run ending just
      before block c, `firstBlock` is its start (0 when there is none), and
      no free run of m blocks lies entirely before block c. */
  ghost predicate ScanState(v: seq<BlockFlags>, m: nat, c: nat, firstBlock: nat, freeBlocks: nat)
  {
    && c <= |v|
    && freeBlocks <= c
    && firstBlock == (if freeBlocks > 0 then c - freeBlocks else 0)
    && (forall j :: c - freeBlocks <= j < c ==> !v[j].used)
    && (freeBlocks < c ==> v[c - freeBlocks - 1].used)
    && (m == 0 ==> c == 0)
    && (c > 0 ==> freeBlocks < m)
    && (forall k :: 0 <= k && k + m <= c && k < c ==> !IsFreeRun(v, k, m))
  }

  /** One step of heap_alloc's scan: block c either extends the current
      free run (starting it at c when it is empty) or resets it. If the run
      then reaches m blocks it is the first fit; otherwise the scan state
      holds one block further on. */
  lemma ScanStep(v: seq<BlockFlags>, m: nat, c: nat, firstBlock: nat, freeBlocks: nat, firstBlock': nat, freeBlocks': nat)
    requires ScanState(v, m, c, firstBlock, freeBlocks) && c < |v|
    requires freeBlocks' == if v[c].used then 0 else freeBlocks + 1
    requires firstBlock' == if v[c].used then 0 else if freeBlocks == 0 then c else firstBlock
    ensures freeBlocks' >= m ==> IsFreeRun(v, firstBlock', m) && FirstFit(v, m) == Some(firstBlock')
    ensures freeBlocks' < m ==> ScanState(v, m, c + 1, firstBlock', freeBlocks')
  {
    if freeBlocks' >= m {
      assert IsFreeRun(v, firstBlock', m);
      forall j | 0 <= j < firstBlock'
        ensures !IsFreeRun(v, j, m)
      {
        assert j + m <= c;
      }
      FirstFitIs(v, m, firstBlock');
    } else {
      forall k | 0 <= k && k + m <= c + 1 && k < c + 1
        ensures !IsFreeRun(v, k, m)
      {
        if k + m == c + 1 && !v[c].used {
          assert v[c - freeBlocks - 1].used;
        }
      }
    }
  }

  /** A scan that reaches the end of a non-empty view without a run of m
      blocks proves that there is no such run. */
  lemma ScanDone(v: seq<BlockFlags>, m: nat, firstBlock: nat, freeBlocks: nat)
    requires ScanState(v, m, |v|, firstBlock, freeBlocks) && |v| > 0
    ensures FirstFit(v, m) == None
  {
    FirstFitNone(v, m);
  }

  /** w holds the target flags t below block c and the original flags v
      from block c on. */
  ghost predicate Agrees(w: seq<BlockFlags>, v: seq<BlockFlags>, t: seq<BlockFlags>, c: nat)
  {
    && |w| == |v| && |t| == |v|
    && forall j {:trigger w[j]} :: 0 <= j < |v| ==> w[j] == if j < c then t[j] else v[j]
  }

  /** Writing the target flags of block c moves the boundary one block on. */
  lemma AgreesStep(w: seq<BlockFlags>, v: seq<BlockFlags>, t: seq<BlockFlags>, c: nat)
    requires Agrees(w, v, t, c) && c < |v|
    ensures Agrees(w[c := t[c]], v, t, c + 1)
  {
  }

  /** A block whose target flags are its original ones needs no write. */
  lemma AgreesSkip(w: seq<BlockFlags>, v: seq<BlockFlags>, t: seq<BlockFlags>, c: nat)
    requires Agrees(w, v, t, c) && c < |v| && t[c] == v[c]
    ensures Agrees(w, v, t, c + 1)
  {
  }

  /** Past the last tracked block, w is the target. */
  lemma AgreesAll(w: seq<BlockFlags>, v: seq<BlockFlags>, t: seq<BlockFlags>, c: nat)
    requires Agrees(w, v, t, c) && c >= |v|
    ensures w == t
  {
  }

  /** Once the last block of the run is written, w is the marked view. */
  lemma MarkedDone(w: seq<BlockFlags>, v: seq<BlockFlags>, first: nat, count: nat)
    requires Agrees(w, v, Marked(v, first, count), first + count)
    ensures w == Marked(v, first, count)
  {
  }

  /** Blocks [first, c) all have a successor. */
  ghost predicate Linked(v: seq<BlockFlags>, first: nat, c: nat)
  {
    forall j :: first <= j < c && j < |v| ==> v[j].hasNext
  }

  /** While erasing, block c is still on the chain from first: it becomes
      free, and when it has no successor every later block keeps its flags. */
  lemma EraseStep(v: seq<BlockFlags>, first: nat, c: nat)
    requires first <= c < |v| && Linked(v, first, c)
    ensures Erased(v, first)[c] == Unused
    ensures v[c].hasNext ==> Linked(v, first, c + 1)
  {
    ChainEndBeyond(v, first, c);
  }

  /** Once a block without a successor is erased, w is the erased view. */
  lemma ErasedDone(w: seq<BlockFlags>, v: seq<BlockFlags>, first: nat, c: nat)
    requires first <= c < |v| && Linked(v, first, c) && !v[c].hasNext
    requires Agrees(w, v, Erased(v, first), c + 1)
    ensures w == Erased(v, first)
  {
    ChainEndAt(v, first, c);
  }

  /** set_allocation_state, allocating: `page |= ALL_BITS(slot)` on a block
      inside the run, other than its last, writes its marked flags. */
  lemma MarkSlot(ps: seq<bv8>, page: nat, slot: nat, v: seq<BlockFlags>, first: nat, count: nat)
    requires page < |ps| && slot < PageBlocks
    requires first <= page * PageBlocks + slot && page * PageBlocks + slot + 1 < first + count
    requires Agrees(View(ps), v, Marked(v, first, count), page * PageBlocks + slot)
    ensures Agrees(View(ps[page := ps[page] | AllBits(slot)]), v, Marked(v, first, count), page * PageBlocks + slot + 1)
  {
    SetSlotInView(ps, page, slot);
    AgreesStep(View(ps), v, Marked(v, first, count), page * PageBlocks + slot);
  }

  /** A second write to the same page byte replaces the first. */
  lemma WriteTwice(ps: seq<bv8>, page: nat, x: bv8, y: bv8)
    requires page < |ps|
    ensures ps[page := x][page := y] == ps[page := y]
  {
  }

  /** On the run's last block, `page |= ALL_BITS(slot)` followed by
      `page &= ~HAS_NEXT(slot)` completes the marked view. */
  lemma MarkLast(ps: seq<bv8>, mid: seq<bv8>, page: nat, slot: nat, v: seq<BlockFlags>, first: nat, count: nat)
    requires page < |ps| && slot < PageBlocks
    requires first <= page * PageBlocks + slot && page * PageBlocks + slot + 1 == first + count
    requires Agrees(View(ps), v, Marked(v, first, count), page * PageBlocks + slot)
    requires mid == ps[page := ps[page] | AllBits(slot)]
    ensures View(mid[page := mid[page] & !HasNextBit(slot)]) == Marked(v, first, count)
  {
    var x := (ps[page] | AllBits(slot)) & !HasNextBit(slot);
    WriteTwice(ps, page, ps[page] | AllBits(slot), x);
    SetLastSlotInView(ps, page, slot);
    AgreesStep(View(ps), v, Marked(v, first, count), page * PageBlocks + slot);
    MarkedDone(View(ps[page := x]), v, first, count);
  }

  /** set_allocation_state, erasing: `page &= ~ALL_BITS(slot)` frees a block
      of the chain; when the block had no successor (its HAS_NEXT bit read
      before the write is clear) the erased view is complete, otherwise the
      chain goes on. */
  lemma EraseSlot(ps: seq<bv8>, page: nat, slot: nat, v: seq<BlockFlags>, first: nat)
    requires page < |ps| && slot < PageBlocks
    requires first <= page * PageBlocks + slot
    requires Agrees(View(ps), v, Erased(v, first), page * PageBlocks + slot)
    requires Linked(v, first, page * PageBlocks + slot)
    ensures Agrees(View(ps[page := ps[page] & !AllBits(slot)]), v, Erased(v, first), page * PageBlocks + slot + 1)
    ensures ps[page] & HasNextBit(slot) == 0 ==> View(ps[page := ps[page] & !AllBits(slot)]) == Erased(v, first)
    ensures ps[page] & HasNextBit(slot) != 0 ==> Linked(v, first, page * PageBlocks + slot + 1)
  {
    var c := page * PageBlocks + slot;
    FlagsInPage(ps, page, slot);
    EraseStep(v, first, c);
    ClearSlotInView(ps, page, slot);
    AgreesStep(View(ps), v, Erased(v, first), c);
    if ps[page] & HasNextBit(slot) == 0 {
      ErasedDone(View(ps[page := ps[page] & !AllBits(slot)]), v, first, c);
    }
  }

  class Heap {
    /** HEAP_BLOCK_SIZE and HEAP_TOTAL_SIZE of this instance. */
    const blockSize: nat
    const totalSize: nat
    /** Heap_t.pages: the flags of PageBlocks blocks per byte. */
    const pages: array<bv8>
    /** Heap_t.p_base_addr */
    var base: int

    /** What the compile-time configuration guarantees: a non-zero block
        size, sizes that fit in uint32, and at least one page byte. */
    ghost predicate Configured()
    {
      && blockSize > 0
      && totalSize < U32Limit
      && pages.Length == PageCount(totalSize, blockSize)
      && pages.Length > 0
    }

    /** The object invariant: configured, a non-null base, and flags that
        every operation keeps well formed. */
    ghost predicate Valid()
      reads this, pages
    {
      Configured() && base > 0 && WellFormed(Blocks())
    }

    /** The flags of every tracked block. */
    ghost function Blocks(): seq<BlockFlags>
      reads pages
    {
      View(pages[..])
    }

    /** A tracker for an arena of `totalSize` bytes at `base`, every block
        free. */
    constructor (blockSize: nat, totalSize: nat, base: int)
      requires blockSize > 0 && totalSize < U32Limit && PageCount(totalSize, blockSize) > 0
      requires base > 0
      ensures Valid() && fresh(pages)
      ensures this.blockSize == blockSize && this.totalSize == totalSize && this.base == base
      ensures forall b :: 0 <= b < |Blocks()| ==> Blocks()[b] == Unused
    {
      this.blockSize := blockSize;
      this.totalSize := totalSize;
      pages := new bv8[PageCount(totalSize, blockSize)];
      this.base := base;
      new;
      Init(base);
    }

    /** heap_init_impl: records the base address and clears every page byte. */
    method Init(base: int)
      requires Configured() && base > 0
      modifies this, pages
      ensures Valid() && this.base == base
      ensures forall p :: 0 <= p < pages.Length ==> pages[p] == 0
      ensures forall b :: 0 <= b < |Blocks()| ==> Blocks()[b] == Unused
    {
      this.base := base;
      forall p | 0 <= p < pages.Length {
        pages[p] := 0;
      }
      ZeroPagesAreFree(pages[..]);
    }

    /** heap_alloc_impl: a first-fit scan for ceil(n / blockSize) consecutive
        free blocks, committed as one chunk; the null pointer and no change
        when there is no such run. */
    method Alloc(n: nat) returns (addr: int)
      requires Valid()
      modifies pages
      ensures Valid()
      ensures (addr == Null) == FirstFit(old(Blocks()), BlocksFor(n, blockSize)).None?
      ensures match FirstFit(old(Blocks()), BlocksFor(n, blockSize))
              case Some(k) =>
                addr == BlockAddress(base, blockSize, k) && Blocks() == Marked(old(Blocks()), k, BlocksFor(n, blockSize))
              case None =>
                pages[..] == old(pages[..])
    {
      var nBlocks := BlocksFor(n, blockSize);
      ghost var v := Blocks();
      var found, firstBlock := FindRun(nBlocks);
      if found {
        SetAllocationState(firstBlock, nBlocks, true);
        MarkedWellFormed(v, firstBlock, nBlocks);
        addr := BlockAddress(base, blockSize, firstBlock);
      } else {
        addr := Null;
      }
    }

    /** The scan of heap_alloc_impl: walks the blocks page by page, counting
        the free run that ends at the current block, and stops at the first
        block where the run reaches nBlocks. */
    method FindRun(nBlocks: nat) returns (found: bool, firstBlock: nat)
      requires pages.Length > 0
      ensures found <==> FirstFit(Blocks(), nBlocks).Some?
      ensures found ==> FirstFit(Blocks(), nBlocks) == Some(firstBlock)
    {
      firstBlock := 0;
      var freeBlocks: nat := 0;
      ghost var v := Blocks();
      ghost var c := 0;
      var iPage := 0;
      while iPage < pages.Length
        invariant 0 <= iPage <= pages.Length && c == iPage * PageBlocks
        invariant ScanState(v, nBlocks, c, firstBlock, freeBlocks)
      {
        var iBlock := 0;
        while iBlock < PageBlocks
          invariant 0 <= iBlock <= PageBlocks && c == iPage * PageBlocks + iBlock
          invariant ScanState(v, nBlocks, c, firstBlock, freeBlocks)
        {
          FlagsInPage(pages[..], iPage, iBlock);
          assert v[c].used <==> pages[iPage] & AllocatedBit(iBlock) != 0;
          ghost var firstBefore, freeBefore := firstBlock, freeBlocks;
          if pages[iPage] & AllocatedBit(iBlock) == 0 {
            if freeBlocks == 0 {
              firstBlock := iPage * PageBlocks + iBlock;
            }
            freeBlocks := freeBlocks + 1;
          } else {
            firstBlock := 0;
            freeBlocks := 0;
          }
          ScanStep(v, nBlocks, c, firstBefore, freeBefore, firstBlock, freeBlocks);
          if freeBlocks >= nBlocks {
            return true, firstBlock;
          }
          iBlock := iBlock + 1;
          c := c + 1;
        }
        iPage := iPage + 1;
      }
      ScanDone(v, nBlocks, firstBlock, freeBlocks);
      return false, firstBlock;
    }

    /** heap_free_impl: for an address in [base, base + totalSize], erases
        the chain that starts at its block; any other address is ignored. */
    method Free(addr: int)
      requires Valid()
      modifies pages
      ensures Valid()
      ensures if base <= addr <= base + totalSize
              then Blocks() == Erased(old(Blocks()), BlockNumber(base, blockSize, addr))
              else pages[..] == old(pages[..])
    {
      if base <= addr <= base + totalSize {
        var firstBlock := BlockNumber(base, blockSize, addr);
        ghost var v := Blocks();
        SetAllocationState(firstBlock, 0, false);
        ErasedWellFormed(v, firstBlock);
      }
    }

    /** heap_truncate_impl: when the chunk at addr holds more than n bytes,
        erases it and re-marks ceil(n / blockSize) blocks at the same start;
        otherwise changes nothing. */
    method Truncate(addr: int, n: nat)
      requires Valid()
      modifies pages
      ensures Valid()
      ensures var v := old(Blocks());
              var b := BlockNumber(base, blockSize, addr);
              if ChunkBlocks(v, b) * blockSize > n
              then Blocks() == Marked(Erased(v, b), b, BlocksFor(n, blockSize))
              else pages[..] == old(pages[..])
    {
      var size := BlockSize(addr);
      if size > n {
        var firstBlock := BlockNumber(base, blockSize, addr);
        var nBlocks := BlocksFor(n, blockSize);
        ghost var v := Blocks();
        SetAllocationState(firstBlock, 0, false);
        SetAllocationState(firstBlock, nBlocks, true);
        BlocksForWithin(n, blockSize, ChunkBlocks(v, firstBlock));
        ErasedWellFormed(v, firstBlock);
        MarkedWellFormed(Erased(v, firstBlock), firstBlock, nBlocks);
      }
    }

    /** heap_block_size_impl: walks the `hasNext` chain from the block of
        addr and returns its length in bytes; 0 for an untracked block. */
    method BlockSize(addr: int) returns (bytes: nat)
      requires blockSize > 0
      ensures bytes == ChunkBlocks(Blocks(), BlockNumber(base, blockSize, addr)) * blockSize
    {
      var firstBlock := BlockNumber(base, blockSize, addr);
      var blockCount := ChainLength(firstBlock);
      bytes := blockCount * blockSize;
    }

    /** heap_free of the address heap_alloc just returned for n >= 1 bytes
        restores every block's flags, and with them the available space;
        after a failed request the null address is ignored. */
    method AllocThenFree(n: nat) returns (addr: int)
      requires Valid() && n >= 1
      modifies pages
      ensures Valid() && Blocks() == old(Blocks())
    {
      ghost var v := Blocks();
      ghost var m := BlocksFor(n, blockSize);
      addr := Alloc(n);
      if FirstFit(v, m).Some? {
        ghost var k := FirstFit(v, m).value;
        TrackedBlockAddress(base, blockSize, totalSize, k);
        FreeUndoesAlloc(v, k, m);
      }
      Free(addr);
    }

    /** heap_block_size of the address heap_alloc returned for n >= 1 bytes
        is ceil(n / blockSize) blocks' worth of bytes: at least n and less
        than one block more. */
    method AllocThenSize(n: nat) returns (addr: int, bytes: nat)
      requires Valid() && n >= 1
      modifies pages
      ensures Valid()
      ensures addr != Null ==> bytes == BlocksFor(n, blockSize) * blockSize
      ensures addr != Null ==> n <= bytes < n + blockSize
    {
      ghost var v := Blocks();
      ghost var m := BlocksFor(n, blockSize);
      addr := Alloc(n);
      if FirstFit(v, m).Some? {
        AllocatedAddressSize(v, n, base, blockSize, totalSize, FirstFit(v, m).value);
      }
      bytes := BlockSize(addr);
    }

    /** The walk of heap_block_size_impl: from the page of firstBlock, counts
        the blocks from firstBlock on up to the first one whose HAS_NEXT bit
        is clear. */
    method ChainLength(firstBlock: nat) returns (blockCount: nat)
      ensures blockCount == ChunkBlocks(Blocks(), firstBlock)
    {
      blockCount := 0;
      var firstPage := firstBlock / PageBlocks;
      ghost var v := Blocks();
      var iPage := firstPage;
      ghost var c := iPage * PageBlocks;
      while iPage < pages.Length
        invariant firstPage <= iPage && c == iPage * PageBlocks
        invariant iPage <= pages.Length || iPage == firstPage
        invariant blockCount == if c > firstBlock then c - firstBlock else 0
        invariant forall j :: firstBlock <= j < c && j < |v| ==> v[j].hasNext
      {
        var iBlock := 0;
        while iBlock < PageBlocks
          invariant 0 <= iBlock <= PageBlocks && c == iPage * PageBlocks + iBlock
          invariant blockCount == if c > firstBlock then c - firstBlock else 0
          invariant forall j :: firstBlock <= j < c ==> v[j].hasNext
        {
          var currentBlock := iPage * PageBlocks + iBlock;
          if currentBlock >= firstBlock {
            blockCount := blockCount + 1;
            FlagsInPage(pages[..], iPage, iBlock);
            if pages[iPage] & HasNextBit(iBlock) == 0 {
              ChainEndAt(v, firstBlock, currentBlock);
              return;
            }
          }
          iBlock := iBlock + 1;
          c := c + 1;
        }
        iPage := iPage + 1;
      }
      if firstBlock < |v| {
        ChainEndAt(v, firstBlock, |v| - 1);
      }
    }

    /** heap_available_space_impl: the number of blocks whose allocated bit
        is clear, in bytes. */
    method AvailableSpace() returns (bytes: nat)
      ensures bytes == FreeCount(Blocks()) * blockSize
    {
      var freeBlockCount := CountFree();
      bytes := freeBlockCount * blockSize;
    }

    /** The count of heap_available_space_impl: visits every slot of every
        page and counts those whose ALLOCATED bit is clear. */
    method CountFree() returns (freeBlockCount: nat)
      ensures freeBlockCount == FreeCount(Blocks())
    {
      freeBlockCount := 0;
      ghost var v := Blocks();
      ghost var c := 0;
      var iPage := 0;
      while iPage < pages.Length
        invariant 0 <= iPage <= pages.Length && c == iPage * PageBlocks
        invariant freeBlockCount == FreeCount(v[..c])
      {
        var iBlock := 0;
        while iBlock < PageBlocks
          invariant 0 <= iBlock <= PageBlocks && c == iPage * PageBlocks + iBlock
          invariant freeBlockCount == FreeCount(v[..c])
        {
          FreeCountSnoc(v, c);
          UsedInPage(pages[..], iPage, iBlock);
          if pages[iPage] & AllocatedBit(iBlock) == 0 {
            freeBlockCount := freeBlockCount + 1;
          }
          iBlock := iBlock + 1;
          c := c + 1;
        }
        iPage := iPage + 1;
      }
      assert v[..|v|] == v;
    }

    /** The allocating branch of set_allocation_state's loop for block
        4*iPage+iBlock of the run: `page |= ALL_BITS(slot)`, and on the
        run's last block `page &= ~HAS_NEXT(slot)` and stop. */
    method MarkBlock(iPage: nat, iBlock: nat, firstBlock: nat, blockCount: nat, ghost v: seq<BlockFlags>)
      returns (done: bool)
      requires iPage < pages.Length && iBlock < PageBlocks
      requires firstBlock <= iPage * PageBlocks + iBlock < firstBlock + blockCount
      requires Agrees(Blocks(), v, Marked(v, firstBlock, blockCount), iPage * PageBlocks + iBlock)
      modifies pages
      ensures done <==> iPage * PageBlocks + iBlock + 1 == firstBlock + blockCount
      ensures done ==> Blocks() == Marked(v, firstBlock, blockCount)
      ensures !done ==> Agrees(Blocks(), v, Marked(v, firstBlock, blockCount), iPage * PageBlocks + iBlock + 1)
    {
      ghost var before := pages[..];
      pages[iPage] := pages[iPage] | AllBits(iBlock);
      ghost var mid := pages[..];
      assert mid == before[iPage := before[iPage] | AllBits(iBlock)];
      if iPage * PageBlocks + iBlock == firstBlock + blockCount - 1 {
        pages[iPage] := pages[iPage] & !HasNextBit(iBlock);
        assert pages[..] == mid[iPage := mid[iPage] & !HasNextBit(iBlock)];
        MarkLast(before, mid, iPage, iBlock, v, firstBlock, blockCount);
        return true;
      }
      MarkSlot(before, iPage, iBlock, v, firstBlock, blockCount);
      return false;
    }

    /** The erasing branch of set_allocation_state's loop for block
        4*iPage+iBlock of the chain: read its HAS_NEXT bit, clear both of
        its bits, and stop when it had no successor. */
    method EraseBlock(iPage: nat, iBlock: nat, firstBlock: nat, ghost v: seq<BlockFlags>)
      returns (done: bool)
      requires iPage < pages.Length && iBlock < PageBlocks
      requires firstBlock <= iPage * PageBlocks + iBlock
      requires Agrees(Blocks(), v, Erased(v, firstBlock), iPage * PageBlocks + iBlock)
      requires Linked(v, firstBlock, iPage * PageBlocks + iBlock)
      modifies pages
      ensures done ==> Blocks() == Erased(v, firstBlock)
      ensures !done ==> Agrees(Blocks(), v, Erased(v, firstBlock), iPage * PageBlocks + iBlock + 1)
      ensures !done ==> Linked(v, firstBlock, iPage * PageBlocks + iBlock + 1)
    {
      ghost var before := pages[..];
      var hasNextChunk := pages[iPage] & HasNextBit(iBlock);
      EraseSlot(before, iPage, iBlock, v, firstBlock);
      pages[iPage] := pages[iPage] & !AllBits(iBlock);
      assert pages[..] == before[iPage := before[iPage] & !AllBits(iBlock)];
      return hasNextChunk == 0;
    }

    /** set_allocation_state: with `allocate`, marks blocks [firstBlock,
        firstBlock + blockCount) as one chunk; without it, erases the chain
        that starts at firstBlock. The page bytes are updated one slot at a
        time with the source's masks. */
    method SetAllocationState(firstBlock: nat, blockCount: nat, allocate: bool)
      modifies pages
      ensures Blocks() == if allocate then Marked(old(Blocks()), firstBlock, blockCount)
                          else Erased(old(Blocks()), firstBlock)
    {
      ghost var v := Blocks();
      ghost var target := if allocate then Marked(v, firstBlock, blockCount) else Erased(v, firstBlock);
      var firstPage := firstBlock / PageBlocks;
      var iPage := firstPage;
      ghost var c := iPage * PageBlocks;
      while iPage < pages.Length
        invariant firstPage <= iPage && c == iPage * PageBlocks
        invariant Agrees(Blocks(), v, target, c)
        invariant !allocate ==> Linked(v, firstBlock, c)
      {
        var iBlock := 0;
        while iBlock < PageBlocks
          invariant 0 <= iBlock <= PageBlocks && c == iPage * PageBlocks + iBlock
          invariant Agrees(Blocks(), v, target, c)
          invariant !allocate ==> Linked(v, firstBlock, c)
        {
          var currentBlock := iPage * PageBlocks + iBlock;
          if currentBlock >= firstBlock && allocate && currentBlock < firstBlock + blockCount {
            var done := MarkBlock(iPage, iBlock, firstBlock, blockCount, v);
            if done {
              return;
            }
          } else if currentBlock >= firstBlock && !allocate {
            var done := EraseBlock(iPage, iBlock, firstBlock, v);
            if done {
              return;
            }
          } else {
            AgreesSkip(Blocks(), v, target, c);
          }
          iBlock := iBlock + 1;
          c := c + 1;
        }
        iPage := iPage + 1;
      }
      AgreesAll(Blocks(), v, target, c);
    }
  }
}
