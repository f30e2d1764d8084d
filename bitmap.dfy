/** Layout of the block tracker's descriptor (ddo_heap.h): the size
    constants, the per-slot bit masks and the per-block view of the packed
    page bytes. Each page byte holds the two flags of PageBlocks consecutive
    blocks: bit 2*slot is "allocated", bit 2*slot+1 is "has next". */
module Bitmap {

  /** HEAP_PAGE_BLOCKS: blocks whose flags share one page byte. */
  const PageBlocks: nat := 4

  /** The compile-time defaults of HEAP_BLOCK_SIZE and HEAP_TOTAL_SIZE. */
  const DefaultBlockSize: nat := 64
  const DefaultTotalSize: nat := 8192

  /** One past the largest uint32 value. */
  const U32Limit: nat := 0x1_0000_0000

  /** HEAP_BLOCK_COUNT: the whole blocks that fit in the arena. */
  function BlockCount(totalSize: nat, blockSize: nat): (c: nat)
    requires blockSize > 0
    ensures c * blockSize <= totalSize < (c + 1) * blockSize
  {
    totalSize / blockSize
  }

  /** HEAP_PAGE_COUNT: the page bytes that hold only whole pages of
      blocks; trailing blocks that do not fill a page are not tracked. */
  function PageCount(totalSize: nat, blockSize: nat): (p: nat)
    requires blockSize > 0
    ensures p * PageBlocks <= BlockCount(totalSize, blockSize) < (p + 1) * PageBlocks
  {
    BlockCount(totalSize, blockSize) / PageBlocks
  }

  /** BIT_BLOCK_ALLOCATED(slot): bit 2*slot, written out per slot
      (MaskLayout proves it equals the macro's shift). */
  function AllocatedBit(slot: nat): bv8
    requires slot < PageBlocks
  {
    if slot == 0 then 0x01 else if slot == 1 then 0x04 else if slot == 2 then 0x10 else 0x40
  }

  /** BIT_BLOCK_HAS_NEXT(slot): bit 2*slot+1. */
  function HasNextBit(slot: nat): bv8
    requires slot < PageBlocks
  {
    if slot == 0 then 0x02 else if slot == 1 then 0x08 else if slot == 2 then 0x20 else 0x80
  }

  /** BIT_BLOCK_ALL_BITS(slot): both bits of the slot. */
  function AllBits(slot: nat): bv8
    requires slot < PageBlocks
  {
    if slot == 0 then 0x03 else if slot == 1 then 0x0C else if slot == 2 then 0x30 else 0xC0
  }

  /** The two flags the tracker keeps for one block: `used` is the
      "allocated" bit, `hasNext` says the next block belongs to the same chunk. */
  datatype BlockFlags = BlockFlags(used: bool, hasNext: bool)

  /** The flags of a free block (both bits clear). */
  const Unused := BlockFlags(false, false)

  /** The flags of slot `slot` of a page byte, read with the masks as the
      `page_raw & BIT_BLOCK_...(iBlock)` tests do: "allocated" is bit
      2*slot and "has next" is bit 2*slot+1. */
  function SlotFlags(page: bv8, slot: nat): BlockFlags
    requires slot < PageBlocks
  {
    BlockFlags(page & AllocatedBit(slot) != 0, page & HasNextBit(slot) != 0)
  }

  /** The flags of the four slots of one page byte, slot 0 first. */
  function PageFlags(page: bv8): (f: seq<BlockFlags>)
    ensures |f| == PageBlocks
  {
    [SlotFlags(page, 0), SlotFlags(page, 1), SlotFlags(page, 2), SlotFlags(page, 3)]
  }

  /** The flags of the blocks of the first n page bytes, page after page. */
  function PagesView(pages: seq<bv8>, n: nat): (v: seq<BlockFlags>)
    requires n <= |pages|
    ensures |v| == n * PageBlocks
  {
    if n == 0 then [] else PagesView(pages, n - 1) + PageFlags(pages[n - 1])
  }

  /** The flags of every tracked block; ViewAt proves that block b lives in
      page b / 4, slot b % 4. */
  function View(pages: seq<bv8>): (v: seq<BlockFlags>)
    ensures |v| == |pages| * PageBlocks
  {
    PagesView(pages, |pages|)
  }

  /** The masks are the macros' shifts of 0x01, 0x02 and 0x03 by twice the
      slot, and ALL_BITS is the union of the two disjoint flag bits. */
  lemma MaskLayout(slot: nat)
    requires slot < PageBlocks
    ensures AllocatedBit(slot) == (0x01 as bv8) << (slot * 2)
    ensures HasNextBit(slot) == (0x02 as bv8) << (slot * 2)
    ensures AllBits(slot) == (0x03 as bv8) << (slot * 2)
    ensures AllBits(slot) == AllocatedBit(slot) | HasNextBit(slot)
    ensures AllocatedBit(slot) & HasNextBit(slot) == 0
  {
    if slot == 0 {
    } else if slot == 1 {
    } else if slot == 2 {
    } else {
    }
  }

  /** The flags of a slot are bits 2*slot ("allocated") and 2*slot+1
      ("has next") of its page byte. */
  lemma SlotBitPositions(page: bv8, slot: nat)
    requires slot < PageBlocks
    ensures SlotFlags(page, slot).used == ((page >> (slot * 2)) & 1 == 1)
    ensures SlotFlags(page, slot).hasNext == ((page >> (slot * 2 + 1)) & 1 == 1)
  {
    if slot == 0 {
    } else if slot == 1 {
    } else if slot == 2 {
    } else {
    }
  }

  /** The masks of two distinct slots share no bit, and the four slots
      together cover the whole byte. */
  lemma SlotsPartitionByte(s: nat, t: nat)
    requires s < PageBlocks && t < PageBlocks && s != t
    ensures AllBits(s) & AllBits(t) == 0
    ensures AllBits(0) | AllBits(1) | AllBits(2) | AllBits(3) == 0xFF
  {
    MaskLayout(s);
    MaskLayout(t);
    MaskLayout(0);
    MaskLayout(1);
    MaskLayout(2);
    MaskLayout(3);
  }

  /** A page byte is determined by the flags of its four slots. */
  lemma {:induction false} ByteFromSlots(x: bv8, y: bv8)
    requires forall s :: 0 <= s < PageBlocks ==> SlotFlags(x, s) == SlotFlags(y, s)
    ensures x == y
  {
    assert SlotFlags(x, 0) == SlotFlags(y, 0);
    assert SlotFlags(x, 1) == SlotFlags(y, 1);
    assert SlotFlags(x, 2) == SlotFlags(y, 2);
    assert SlotFlags(x, 3) == SlotFlags(y, 3);
    MaskLayout(0);
    MaskLayout(1);
    MaskLayout(2);
    MaskLayout(3);
  }

  /** Block index b and the pair (page b / 4, slot b % 4) determine each other. */
  lemma BlockLocation(b: nat, page: nat, slot: nat)
    requires slot < PageBlocks
    ensures b == page * PageBlocks + slot <==> (b / PageBlocks == page && b % PageBlocks == slot)
  {
  }

  /** Block b of the first n pages' view holds the flags of slot b % 4 of
      page b / 4. */
  lemma {:induction false} PagesViewAt(ps: seq<bv8>, n: nat, b: nat)
    requires n <= |ps| && b < n * PageBlocks
    ensures PagesView(ps, n)[b] == SlotFlags(ps[b / PageBlocks], b % PageBlocks)
  {
    if b < (n - 1) * PageBlocks {
      PagesViewAt(ps, n - 1, b);
    } else {
      var s := b - (n - 1) * PageBlocks;
      BlockLocation(b, n - 1, s);
      assert PagesView(ps, n)[b] == PageFlags(ps[n - 1])[s];
    }
  }

  /** Block b of the view holds the flags of slot b % 4 of page b / 4. */
  lemma ViewAt(ps: seq<bv8>, b: nat)
    requires b < |ps| * PageBlocks
    ensures View(ps)[b] == SlotFlags(ps[b / PageBlocks], b % PageBlocks)
  {
    PagesViewAt(ps, |ps|, b);
  }

  /** The flags of slot `slot` of page `page` are those of block 4*page+slot. */
  lemma FlagsInPage(ps: seq<bv8>, page: nat, slot: nat)
    requires page < |ps| && slot < PageBlocks
    ensures page * PageBlocks + slot < |View(ps)|
    ensures View(ps)[page * PageBlocks + slot] == SlotFlags(ps[page], slot)
  {
    BlockLocation(page * PageBlocks + slot, page, slot);
    ViewAt(ps, page * PageBlocks + slot);
  }

  /** The ALLOCATED test on slot `slot` of page `page` reads the `used` flag
      of block 4*page+slot. */
  lemma UsedInPage(ps: seq<bv8>, page: nat, slot: nat)
    requires page < |ps| && slot < PageBlocks
    ensures page * PageBlocks + slot < |View(ps)|
    ensures View(ps)[page * PageBlocks + slot].used <==> ps[page] & AllocatedBit(slot) != 0
  {
    FlagsInPage(ps, page, slot);
  }

  /** Distinct page arrays of the same length have distinct views. */
  lemma ViewInjective(ps: seq<bv8>, qs: seq<bv8>)
    requires |ps| == |qs| && View(ps) == View(qs)
    ensures ps == qs
  {
    forall p | 0 <= p < |ps|
      ensures ps[p] == qs[p]
    {
      forall s | 0 <= s < PageBlocks
        ensures SlotFlags(ps[p], s) == SlotFlags(qs[p], s)
      {
        FlagsInPage(ps, p, s);
        FlagsInPage(qs, p, s);
      }
      ByteFromSlots(ps[p], qs[p]);
    }
  }

  /** `page |= ALL_BITS(slot)` marks the slot allocated with a successor and
      leaves the other three slots alone. */
  lemma SetAllBits(page: bv8, slot: nat)
    requires slot < PageBlocks
    ensures SlotFlags(page | AllBits(slot), slot) == BlockFlags(true, true)
    ensures forall t :: 0 <= t < PageBlocks && t != slot ==>
              SlotFlags(page | AllBits(slot), t) == SlotFlags(page, t)
  {
    MaskLayout(0);
    MaskLayout(1);
    MaskLayout(2);
    MaskLayout(3);
  }

  /** `page |= ALL_BITS(slot)` followed by `page &= ~HAS_NEXT(slot)` marks
      the slot allocated without a successor and leaves the others alone. */
  lemma SetLastBits(page: bv8, slot: nat)
    requires slot < PageBlocks
    ensures SlotFlags((page | AllBits(slot)) & !HasNextBit(slot), slot) == BlockFlags(true, false)
    ensures forall t :: 0 <= t < PageBlocks && t != slot ==>
              SlotFlags((page | AllBits(slot)) & !HasNextBit(slot), t) == SlotFlags(page, t)
  {
    MaskLayout(0);
    MaskLayout(1);
    MaskLayout(2);
    MaskLayout(3);
  }

  /** `page &= ~ALL_BITS(slot)` frees that slot and leaves the others alone. */
  lemma ClearAllBits(page: bv8, slot: nat)
    requires slot < PageBlocks
    ensures SlotFlags(page & !AllBits(slot), slot) == Unused
    ensures forall t :: 0 <= t < PageBlocks && t != slot ==>
              SlotFlags(page & !AllBits(slot), t) == SlotFlags(page, t)
  {
    MaskLayout(0);
    MaskLayout(1);
    MaskLayout(2);
    MaskLayout(3);
  }

  /** Writing one page byte that keeps three slots' flags changes the view
      at exactly one block. */
  lemma WriteSlot(ps: seq<bv8>, page: nat, slot: nat, x: bv8)
    requires page < |ps| && slot < PageBlocks
    requires forall t :: 0 <= t < PageBlocks && t != slot ==> SlotFlags(x, t) == SlotFlags(ps[page], t)
    ensures page * PageBlocks + slot < |View(ps)|
    ensures View(ps[page := x]) == View(ps)[page * PageBlocks + slot := SlotFlags(x, slot)]
  {
    var w := View(ps)[page * PageBlocks + slot := SlotFlags(x, slot)];
    forall b | 0 <= b < |View(ps)|
      ensures View(ps[page := x])[b] == w[b]
    {
      BlockLocation(b, page, slot);
      ViewAt(ps, b);
      ViewAt(ps[page := x], b);
    }
  }

  /** `page |= ALL_BITS(slot)` makes block 4*page+slot allocated with a
      successor and leaves every other block's flags alone. */
  lemma SetSlotInView(ps: seq<bv8>, page: nat, slot: nat)
    requires page < |ps| && slot < PageBlocks
    ensures page * PageBlocks + slot < |View(ps)|
    ensures View(ps[page := ps[page] | AllBits(slot)]) ==
            View(ps)[page * PageBlocks + slot := BlockFlags(true, true)]
  {
    SetAllBits(ps[page], slot);
    WriteSlot(ps, page, slot, ps[page] | AllBits(slot));
  }

  /** `page |= ALL_BITS(slot)` then `page &= ~HAS_NEXT(slot)` makes block
      4*page+slot allocated without a successor and leaves every other
      block's flags alone. */
  lemma SetLastSlotInView(ps: seq<bv8>, page: nat, slot: nat)
    requires page < |ps| && slot < PageBlocks
    ensures page * PageBlocks + slot < |View(ps)|
    ensures View(ps[page := (ps[page] | AllBits(slot)) & !HasNextBit(slot)]) ==
            View(ps)[page * PageBlocks + slot := BlockFlags(true, false)]
  {
    SetLastBits(ps[page], slot);
    WriteSlot(ps, page, slot, (ps[page] | AllBits(slot)) & !HasNextBit(slot));
  }

  /** `page &= ~ALL_BITS(slot)` frees block 4*page+slot and leaves every
      other block's flags alone. */
  lemma ClearSlotInView(ps: seq<bv8>, page: nat, slot: nat)
    requires page < |ps| && slot < PageBlocks
    ensures page * PageBlocks + slot < |View(ps)|
    ensures View(ps[page := ps[page] & !AllBits(slot)]) ==
            View(ps)[page * PageBlocks + slot := Unused]
  {
    ClearAllBits(ps[page], slot);
    WriteSlot(ps, page, slot, ps[page] & !AllBits(slot));
  }

  /** An all-zero page array is an all-free view. */
  lemma ZeroPagesAreFree(ps: seq<bv8>)
    requires forall p :: 0 <= p < |ps| ==> ps[p] == 0
    ensures forall b :: 0 <= b < |View(ps)| ==> View(ps)[b] == Unused
  {
    forall b | 0 <= b < |View(ps)|
      ensures View(ps)[b] == Unused
    {
      ViewAt(ps, b);
    }
  }

  /** Default configuration: 64-byte blocks in an 8192-byte arena give 128
      blocks tracked by 32 page bytes. */
  lemma DefaultConfiguration()
    ensures BlockCount(DefaultTotalSize, DefaultBlockSize) == 128
    ensures PageCount(DefaultTotalSize, DefaultBlockSize) == 32
  {
  }
}
