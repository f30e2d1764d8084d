/** Block-level meaning of the tracker's operations (ddo_heap.c), stated over
    the per-block view `seq<BlockFlags>` of the page bytes. A chunk is a run
    of allocated blocks linked by `hasNext`, ending at a block whose
    `hasNext` is clear; its first block's address is the handle the caller
    holds. The imperative heap in DdoHeap is proved against these functions,
    and the lemmas here state what the source promises about them. */
module Chunks {
  import opened Bitmap

  datatype Option<T> = None | Some(value: T)

  /** Blocks needed for n bytes: `n / BS + (n % BS ? 1 : 0)`, the least
      block count whose bytes cover n. */
  function BlocksFor(n: nat, blockSize: nat): (m: nat)
    requires blockSize > 0
    ensures m == 0 <==> n == 0
  {
    n / blockSize + (if n % blockSize != 0 then 1 else 0)
  }

  /** BlocksFor is the ceiling of n / blockSize: the least block count whose
      bytes cover n. */
  lemma BlocksForIsCeiling(n: nat, blockSize: nat)
    requires blockSize > 0
    ensures n <= BlocksFor(n, blockSize) * blockSize
    ensures BlocksFor(n, blockSize) > 0 ==> (BlocksFor(n, blockSize) - 1) * blockSize < n
  {
    var q, r := n / blockSize, n % blockSize;
    assert n == q * blockSize + r;
    assert (q + 1) * blockSize == q * blockSize + blockSize;
  }

  /** block_number_by_addr: the byte offset from the base divided by the
      block size, truncated toward zero as C's signed division does, then
      cast to uint32. */
  function BlockNumber(base: int, blockSize: nat, addr: int): (b: nat)
    requires blockSize > 0
    ensures b < U32Limit
  {
    var d := addr - base;
    var q := if d >= 0 then d / blockSize else -((-d) / blockSize);
    q % U32Limit
  }

  /** An address inside the arena maps to the block whose bytes contain it. */
  lemma BlockNumberContains(base: int, blockSize: nat, addr: int)
    requires blockSize > 0 && base <= addr < base + U32Limit * blockSize
    ensures var b := BlockNumber(base, blockSize, addr);
            base + b * blockSize <= addr < base + (b + 1) * blockSize
  {
    var d := addr - base;
    var q := d / blockSize;
    DivBounds(d, blockSize, U32Limit);
    assert q < U32Limit;
    assert BlockNumber(base, blockSize, addr) == q;
  }

  /** Quotient bounds of Dafny's (here non-negative) division. */
  lemma DivBounds(d: nat, divisor: nat, limit: nat)
    requires divisor > 0
    ensures (d / divisor) * divisor <= d < (d / divisor + 1) * divisor
    ensures d < limit * divisor ==> d / divisor < limit
  {
    var q, r := d / divisor, d % divisor;
    assert d == q * divisor + r;
    assert (q + 1) * divisor == q * divisor + divisor;
    if q >= limit {
      MulMonotone(limit, q, divisor);
    }
  }

  /** Blocks [k, k+m) are tracked and none of them is allocated. */
  predicate IsFreeRun(v: seq<BlockFlags>, k: nat, m: nat)
  {
    k + m <= |v| && forall j :: k <= j < k + m ==> !v[j].used
  }

  /** The lowest start, at or after k, of a free run of m blocks. */
  function FirstFitFrom(v: seq<BlockFlags>, m: nat, k: nat): (r: Option<nat>)
    ensures r.Some? ==> k <= r.value && IsFreeRun(v, r.value, m)
    ensures r.Some? ==> forall j :: k <= j < r.value ==> !IsFreeRun(v, j, m)
    ensures r.None? ==> forall j :: k <= j ==> !IsFreeRun(v, j, m)
    decreases |v| - k
  {
    if k + m > |v| then None
    else if IsFreeRun(v, k, m) then Some(k)
    else FirstFitFrom(v, m, k + 1)
  }

  /** First-fit placement of m blocks: the lowest start of a free run of m
      blocks, if there is one. */
  function FirstFit(v: seq<BlockFlags>, m: nat): (r: Option<nat>)
    ensures r.Some? <==> exists k :: IsFreeRun(v, k, m)
    ensures r.Some? ==> IsFreeRun(v, r.value, m) && forall j :: 0 <= j < r.value ==> !IsFreeRun(v, j, m)
  {
    FirstFitFrom(v, m, 0)
  }

  /** set_allocation_state(first, count, true): blocks [first, first+count)
      that are tracked become allocated, each with `hasNext` set except the
      block first+count-1; every other block keeps its flags. */
  function Marked(v: seq<BlockFlags>, first: nat, count: nat): (w: seq<BlockFlags>)
    ensures |w| == |v|
    ensures forall j :: 0 <= j < |v| ==>
              w[j] == if first <= j < first + count then BlockFlags(true, j + 1 < first + count) else v[j]
  {
    MarkedPrefix(v, first, count, |v|)
  }

  /** The first n blocks of Marked(v, first, count), built block by block. */
  function MarkedPrefix(v: seq<BlockFlags>, first: nat, count: nat, n: nat): (w: seq<BlockFlags>)
    requires n <= |v|
    ensures |w| == n
    ensures forall j :: 0 <= j < n ==>
              w[j] == if first <= j < first + count then BlockFlags(true, j + 1 < first + count) else v[j]
  {
    if n == 0 then []
    else
      MarkedPrefix(v, first, count, n - 1)
        + [if first <= n - 1 < first + count then BlockFlags(true, n < first + count) else v[n - 1]]
  }

  /** The block that ends the `hasNext` chain starting at k: the first block
      at or after k whose `hasNext` is clear, or the last tracked block. */
  function ChainEnd(v: seq<BlockFlags>, k: nat): (e: nat)
    requires k < |v|
    ensures k <= e < |v|
    ensures forall j :: k <= j < e ==> v[j].hasNext
    ensures e + 1 == |v| || !v[e].hasNext
    decreases |v| - k
  {
    if k + 1 == |v| || !v[k].hasNext then k else ChainEnd(v, k + 1)
  }

  /** heap_block_size in blocks: the length of the chain walked from block b,
      or 0 when b is not a tracked block. */
  function ChunkBlocks(v: seq<BlockFlags>, b: nat): (n: nat)
    ensures n <= |v|
    ensures n == 0 <==> b >= |v|
  {
    if b < |v| then ChainEnd(v, b) - b + 1 else 0
  }

  /** set_allocation_state(first, _, false): blocks from first through the
      end of its chain become free; nothing else changes, and nothing at all
      when first is not tracked. */
  function Erased(v: seq<BlockFlags>, first: nat): (w: seq<BlockFlags>)
    ensures |w| == |v|
    ensures forall j :: 0 <= j < |v| ==>
              w[j] == if first < |v| && first <= j <= ChainEnd(v, first) then Unused else v[j]
  {
    if first < |v| then ClearedPrefix(v, first, ChainEnd(v, first), |v|) else v
  }

  /** The first n blocks of v with blocks lo through hi made free. */
  function ClearedPrefix(v: seq<BlockFlags>, lo: nat, hi: nat, n: nat): (w: seq<BlockFlags>)
    requires n <= |v|
    ensures |w| == n
    ensures forall j :: 0 <= j < n ==> w[j] == if lo <= j <= hi then Unused else v[j]
  {
    if n == 0 then [] else ClearedPrefix(v, lo, hi, n - 1) + [if lo <= n - 1 <= hi then Unused else v[n - 1]]
  }

  /** Number of blocks whose allocated bit is clear. */
  function FreeCount(v: seq<BlockFlags>): (c: nat)
    ensures c <= |v|
  {
    if v == [] then 0 else FreeCount(v[..|v| - 1]) + (if v[|v| - 1].used then 0 else 1)
  }

  /** The invariant every operation keeps: a free block has no successor,
      and the last tracked block never has one. */
  predicate WellFormed(v: seq<BlockFlags>)
  {
    && (forall j :: 0 <= j < |v| && !v[j].used ==> !v[j].hasNext)
    && (|v| > 0 ==> !v[|v| - 1].hasNext)
  }

  /** Blocks [k, k+m) form one chunk: all allocated, linked by `hasNext`,
      the last one without a successor. */
  predicate ChunkAt(v: seq<BlockFlags>, k: nat, m: nat)
  {
    && 1 <= m && k + m <= |v|
    && (forall j :: k <= j < k + m ==> v[j].used)
    && (forall j :: k <= j < k + m - 1 ==> v[j].hasNext)
    && !v[k + m - 1].hasNext
  }

  /** The end of a chain is the first block at or after k without a
      successor, or the last tracked block. */
  lemma ChainEndAt(v: seq<BlockFlags>, k: nat, e: nat)
    requires k <= e < |v|
    requires forall j :: k <= j < e ==> v[j].hasNext
    requires e + 1 == |v| || !v[e].hasNext
    ensures ChainEnd(v, k) == e
  {
  }

  /** A chain whose blocks k .. c-1 all have a successor reaches block c. */
  lemma {:induction false} ChainEndBeyond(v: seq<BlockFlags>, k: nat, c: nat)
    requires k <= c < |v|
    requires forall j :: k <= j < c ==> v[j].hasNext
    ensures c <= ChainEnd(v, k)
    decreases c - k
  {
    if k < c {
      ChainEndBeyond(v, k + 1, c);
    }
  }

  /** Counting one more block of a prefix. */
  lemma FreeCountSnoc(v: seq<BlockFlags>, c: nat)
    requires c < |v|
    ensures FreeCount(v[..c + 1]) == FreeCount(v[..c]) + (if v[c].used then 0 else 1)
  {
    assert v[..c + 1][..c] == v[..c];
  }

  // ---------------------------------------------------------------------
  // Address mapping

  /** The address heap_alloc returns for a chunk starting at block k. */
  function BlockAddress(base: int, blockSize: nat, k: nat): (a: int)
    ensures a >= base
  {
    base + k * blockSize
  }

  /** The address of block k maps back to k. */
  lemma BlockNumberOfBlockAddress(base: int, blockSize: nat, k: nat)
    requires blockSize > 0 && k < U32Limit
    ensures BlockNumber(base, blockSize, BlockAddress(base, blockSize, k)) == k
  {
    assert (k * blockSize) / blockSize == k by {
      LemmaMulDiv(k, blockSize);
    }
  }

  /** The address of a tracked block lies inside the arena range that
      heap_free accepts, and block_number_by_addr maps it back to the block. */
  lemma TrackedBlockAddress(base: int, blockSize: nat, totalSize: nat, k: nat)
    requires blockSize > 0 && totalSize < U32Limit
    requires k < PageBlocks * PageCount(totalSize, blockSize)
    ensures base <= BlockAddress(base, blockSize, k) < base + totalSize
    ensures k < U32Limit
    ensures BlockNumber(base, blockSize, BlockAddress(base, blockSize, k)) == k
  {
    var c := BlockCount(totalSize, blockSize);
    assert k + 1 <= c;
    MulMonotone(k + 1, c, blockSize);
    MulMonotone(1, blockSize, c);
    BlockNumberOfBlockAddress(base, blockSize, k);
  }

  lemma LemmaMulDiv(k: nat, d: nat)
    requires d > 0
    ensures (k * d) / d == k
  {
    var q, r := (k * d) / d, (k * d) % d;
    assert k * d == q * d + r;
    assert (k - q) * d == r;
    MulSign(k - q, d);
  }

  lemma MulSign(a: int, d: int)
    requires d > 0
    ensures a >= 1 ==> a * d >= d
    ensures a <= -1 ==> a * d <= 0 - d
  {
  }

  /** The inclusive end address base+TotalSize that heap_free accepts maps
      to a block past the last tracked one. */
  lemma ArenaEndIsUntracked(base: int, blockSize: nat, totalSize: nat)
    requires blockSize > 0 && totalSize < U32Limit
    ensures BlockNumber(base, blockSize, base + totalSize) == BlockCount(totalSize, blockSize)
    ensures BlockNumber(base, blockSize, base + totalSize) >= PageBlocks * PageCount(totalSize, blockSize)
  {
    var q := totalSize / blockSize;
    DivBounds(totalSize, blockSize, U32Limit);
    MulMonotone(1, blockSize, q);
    assert q < U32Limit;
    assert BlockNumber(base, blockSize, base + totalSize) == q;
    assert PageBlocks * (q / PageBlocks) <= q;
  }

  // ---------------------------------------------------------------------
  // Request sizes

  /** A byte count below a chunk of L blocks needs at most L blocks, and
      exactly L when it exceeds L-1 whole blocks. */
  lemma BlocksForWithin(n: nat, blockSize: nat, l: nat)
    requires blockSize > 0 && n < l * blockSize
    ensures BlocksFor(n, blockSize) <= l
    ensures BlocksFor(n, blockSize) == l <==> (l - 1) * blockSize < n
  {
    var m := BlocksFor(n, blockSize);
    BlocksForIsCeiling(n, blockSize);
    if m > l {
      assert (m - 1) * blockSize >= l * blockSize by {
        MulMonotone(l, m - 1, blockSize);
      }
    }
    if m < l {
      assert m * blockSize <= (l - 1) * blockSize by {
        MulMonotone(m, l - 1, blockSize);
      }
    }
    if (l - 1) * blockSize < n && m < l {
      assert false;
    }
  }

  lemma MulMonotone(a: nat, b: nat, c: nat)
    requires a <= b
    ensures a * c <= b * c
  {
  }

  // ---------------------------------------------------------------------
  // First fit

  /** A free run of m blocks with no free run starting before it is the
      first-fit placement. */
  lemma FirstFitIs(v: seq<BlockFlags>, m: nat, k: nat)
    requires IsFreeRun(v, k, m)
    requires forall j :: 0 <= j < k ==> !IsFreeRun(v, j, m)
    ensures FirstFit(v, m) == Some(k)
  {
  }

  /** No free run of m blocks anywhere: first fit finds nothing. */
  lemma FirstFitNone(v: seq<BlockFlags>, m: nat)
    requires forall k :: 0 <= k && k + m <= |v| ==> !IsFreeRun(v, k, m)
    ensures FirstFit(v, m) == None
  {
  }

  /** A request of zero blocks is placed at block 0 whatever its state, and
      marking zero blocks changes nothing. */
  lemma ZeroBlockRequest(v: seq<BlockFlags>)
    requires |v| > 0
    ensures FirstFit(v, 0) == Some(0)
    ensures Marked(v, 0, 0) == v
  {
    FirstFitIs(v, 0, 0);
  }

  // ---------------------------------------------------------------------
  // Chunk shape

  /** The chain walked from the start of a chunk of m blocks ends at its
      last block, so its size is m blocks. */
  lemma ChunkBlocksOfChunk(v: seq<BlockFlags>, k: nat, m: nat)
    requires ChunkAt(v, k, m)
    ensures ChainEnd(v, k) == k + m - 1
    ensures ChunkBlocks(v, k) == m
  {
  }

  /** Committing m >= 1 blocks at k yields a chunk of exactly m blocks at k. */
  lemma MarkedIsChunk(v: seq<BlockFlags>, k: nat, m: nat)
    requires 1 <= m && k + m <= |v|
    ensures ChunkAt(Marked(v, k, m), k, m)
    ensures ChunkBlocks(Marked(v, k, m), k) == m
  {
    ChunkBlocksOfChunk(Marked(v, k, m), k, m);
  }

  /** The chunk that first fit commits for a request of n >= 1 bytes
      reports ceil(n / blockSize) blocks: the fewest whose bytes cover n. */
  lemma AllocatedSize(v: seq<BlockFlags>, n: nat, blockSize: nat, k: nat)
    requires blockSize > 0 && n >= 1 && FirstFit(v, BlocksFor(n, blockSize)) == Some(k)
    ensures var m := BlocksFor(n, blockSize);
            && ChunkBlocks(Marked(v, k, m), k) == m
            && n <= m * blockSize && (m - 1) * blockSize < n
  {
    MarkedIsChunk(v, k, BlocksFor(n, blockSize));
    BlocksForIsCeiling(n, blockSize);
  }

  /** The address first fit yields for a request of n >= 1 bytes maps back
      to the committed chunk, whose bytes cover n with less than one block
      to spare. */
  lemma AllocatedAddressSize(v: seq<BlockFlags>, n: nat, base: int, blockSize: nat, totalSize: nat, k: nat)
    requires blockSize > 0 && totalSize < U32Limit && |v| == PageBlocks * PageCount(totalSize, blockSize)
    requires n >= 1 && FirstFit(v, BlocksFor(n, blockSize)) == Some(k)
    ensures var m := BlocksFor(n, blockSize);
            var bytes := ChunkBlocks(Marked(v, k, m), BlockNumber(base, blockSize, BlockAddress(base, blockSize, k))) * blockSize;
            && bytes == m * blockSize
            && n <= bytes < n + blockSize
  {
    var m := BlocksFor(n, blockSize);
    TrackedBlockAddress(base, blockSize, totalSize, k);
    AllocatedSize(v, n, blockSize, k);
    MulPred(m, blockSize);
  }

  lemma MulPred(m: nat, d: nat)
    requires m >= 1
    ensures (m - 1) * d == m * d - d
  {
  }

  /** Committing a run that stays inside the tracked blocks keeps the
      invariant. */
  lemma MarkedWellFormed(v: seq<BlockFlags>, k: nat, m: nat)
    requires WellFormed(v) && k + m <= |v|
    ensures WellFormed(Marked(v, k, m))
  {
  }

  /** Erasing a chain from any block keeps the invariant. */
  lemma ErasedWellFormed(v: seq<BlockFlags>, k: nat)
    requires WellFormed(v)
    ensures WellFormed(Erased(v, k))
  {
  }

  /** Erasing from the start of a chunk of m blocks frees exactly those m
      blocks. */
  lemma ErasedChunk(v: seq<BlockFlags>, k: nat, m: nat)
    requires ChunkAt(v, k, m)
    ensures forall j :: 0 <= j < |v| ==>
              Erased(v, k)[j] == if k <= j < k + m then Unused else v[j]
  {
    ChunkBlocksOfChunk(v, k, m);
  }

  /** Freeing a chunk right after committing it on a free run restores the
      state exactly. */
  lemma FreeUndoesAlloc(v: seq<BlockFlags>, k: nat, m: nat)
    requires WellFormed(v) && IsFreeRun(v, k, m) && m >= 1
    ensures Erased(Marked(v, k, m), k) == v
  {
    MarkedIsChunk(v, k, m);
    ErasedChunk(Marked(v, k, m), k, m);
  }

  /** Committing a free run leaves every chunk already there in place, and
      the run does not overlap it. */
  lemma AllocKeepsChunk(v: seq<BlockFlags>, k: nat, m: nat, k2: nat, m2: nat)
    requires IsFreeRun(v, k, m) && ChunkAt(v, k2, m2)
    ensures m == 0 || k + m <= k2 || k2 + m2 <= k
    ensures ChunkAt(Marked(v, k, m), k2, m2)
  {
    var j := if k <= k2 then k2 else k;
    assert !(k <= j < k + m) || !v[j].used;
    assert !(k2 <= j < k2 + m2) || v[j].used;
    assert m == 0 || k + m <= k2 || k2 + m2 <= k;
  }

  /** Freeing one chunk leaves every chunk that does not overlap it in
      place. */
  lemma FreeKeepsChunk(v: seq<BlockFlags>, k: nat, m: nat, k2: nat, m2: nat)
    requires ChunkAt(v, k, m) && ChunkAt(v, k2, m2)
    requires k + m <= k2 || k2 + m2 <= k
    ensures ChunkAt(Erased(v, k), k2, m2)
  {
    ErasedChunk(v, k, m);
  }

  /** heap_truncate on a chunk of l blocks with a request of m <= l blocks:
      the first m blocks stay a chunk (none when m is 0), the trailing l-m
      become free, and every other block keeps its flags; with m == l the
      state is unchanged. */
  lemma TruncateShape(v: seq<BlockFlags>, k: nat, l: nat, m: nat)
    requires ChunkAt(v, k, l) && m <= l
    ensures forall j :: 0 <= j < |v| ==>
              Marked(Erased(v, k), k, m)[j] ==
                if k <= j < k + m then BlockFlags(true, j + 1 < k + m)
                else if k + m <= j < k + l then Unused
                else v[j]
    ensures m >= 1 ==> ChunkAt(Marked(Erased(v, k), k, m), k, m)
    ensures m == l ==> Marked(Erased(v, k), k, m) == v
  {
    ErasedChunk(v, k, l);
    if m >= 1 {
      MarkedIsChunk(Erased(v, k), k, m);
    }
  }

  // ---------------------------------------------------------------------
  // Free-space accounting

  lemma {:induction false} FreeCountAppend(a: seq<BlockFlags>, b: seq<BlockFlags>)
    ensures FreeCount(a + b) == FreeCount(a) + FreeCount(b)
    decreases |b|
  {
    if b == [] {
      assert a + b == a;
    } else {
      var b' := b[..|b| - 1];
      assert (a + b)[..|a + b| - 1] == a + b';
      FreeCountAppend(a, b');
    }
  }

  /** Counting the free blocks of a sequence none of which is allocated. */
  lemma {:induction false} FreeCountAllFree(s: seq<BlockFlags>)
    requires forall j :: 0 <= j < |s| ==> !s[j].used
    ensures FreeCount(s) == |s|
  {
    if s != [] {
      FreeCountAllFree(s[..|s| - 1]);
    }
  }

  /** Counting the free blocks of a sequence all of which are allocated. */
  lemma {:induction false} FreeCountNoneFree(s: seq<BlockFlags>)
    requires forall j :: 0 <= j < |s| ==> s[j].used
    ensures FreeCount(s) == 0
  {
    if s != [] {
      FreeCountNoneFree(s[..|s| - 1]);
    }
  }

  /** Two views that agree outside [lo, hi) differ in free count by what
      differs inside it. */
  lemma FreeCountSplice(v: seq<BlockFlags>, w: seq<BlockFlags>, lo: nat, hi: nat)
    requires |v| == |w| && lo <= hi <= |v|
    requires forall j :: 0 <= j < |v| && !(lo <= j < hi) ==> v[j] == w[j]
    ensures FreeCount(w) + FreeCount(v[lo..hi]) == FreeCount(v) + FreeCount(w[lo..hi])
  {
    assert v == v[..lo] + v[lo..hi] + v[hi..];
    assert w == w[..lo] + w[lo..hi] + w[hi..];
    assert v[..lo] == w[..lo];
    assert v[hi..] == w[hi..];
    FreeCountAppend(v[..lo] + v[lo..hi], v[hi..]);
    FreeCountAppend(v[..lo], v[lo..hi]);
    FreeCountAppend(w[..lo] + w[lo..hi], w[hi..]);
    FreeCountAppend(w[..lo], w[lo..hi]);
  }

  /** Committing a free run of m blocks removes exactly m free blocks. */
  lemma FreeCountAfterAlloc(v: seq<BlockFlags>, k: nat, m: nat)
    requires IsFreeRun(v, k, m)
    ensures FreeCount(Marked(v, k, m)) == FreeCount(v) - m
  {
    var w := Marked(v, k, m);
    FreeCountSplice(v, w, k, k + m);
    FreeCountAllFree(v[k..k + m]);
    FreeCountNoneFree(w[k..k + m]);
  }

  /** Freeing a chunk of m blocks adds exactly m free blocks. */
  lemma FreeCountAfterFree(v: seq<BlockFlags>, k: nat, m: nat)
    requires ChunkAt(v, k, m)
    ensures FreeCount(Erased(v, k)) == FreeCount(v) + m
  {
    var w := Erased(v, k);
    ErasedChunk(v, k, m);
    FreeCountSplice(v, w, k, k + m);
    FreeCountNoneFree(v[k..k + m]);
    FreeCountAllFree(w[k..k + m]);
  }

  /** Truncating a chunk of l blocks to m <= l blocks frees l - m blocks. */
  lemma FreeCountAfterTruncate(v: seq<BlockFlags>, k: nat, l: nat, m: nat)
    requires ChunkAt(v, k, l) && m <= l
    ensures FreeCount(Marked(Erased(v, k), k, m)) == FreeCount(v) + (l - m)
  {
    var u := Erased(v, k);
    FreeCountAfterFree(v, k, l);
    ErasedChunk(v, k, l);
    assert IsFreeRun(u, k, m);
    FreeCountAfterAlloc(u, k, m);
  }
}
