/** The client-visible behaviours that the allocator's own tests exercise,
    derived from the contracts of `Pool`. */
module PoolScenarios {

  import opened Wrappers
  import Pad
  import opened PoolSpec
  import opened Pool

  lemma NeededSizeUnpadded(size: nat)
    ensures NeededSize(size, 1) == size
  {
    Pad.PadMaskFixed(size, 1);
  }

  /** `[v; n]`. */
  function Fill(n: nat, v: byte): (r: seq<byte>)
    ensures |r| == n && forall i :: 0 <= i < n ==> r[i] == v
  {
    if n == 0 then [] else Fill(n - 1, v) + [v]
  }

  /** Two 80-byte requests on a 100-byte pool: the first splits region 0,
      the second does not fit the 20 bytes left and grows region 1. */
  method GrowForSecondBlock() returns (mgr: MemoryManager, b1: MemoryBlock, b2: MemoryBlock)
    ensures fresh(mgr) && mgr.alive && mgr.Valid()
    ensures b1.manager == mgr && b2.manager == mgr
    ensures b1.Range() == FreeSegment(0, 0, 80) && b2.Range() == FreeSegment(1, 0, 80)
    ensures mgr.live == [b1.Range(), b2.Range()]
  {
    mgr := new MemoryManager(100, 256);
    NeededSizeUnpadded(80);
    var o1 := mgr.Alloc(80, 1);
    b1 := o1.value;
    assert b1.Range() == FreeSegment(0, 0, 80);
    assert mgr.freeList == [FreeSegment(0, 80, 20)];
    var o2 := mgr.Alloc(80, 1);
    b2 := o2.value;
    assert FirstFit([FreeSegment(0, 80, 20)], 80) == None;
  }

  /** The second block starts at offset 0 of the grown region, and writes
      through the two blocks do not interfere. */
  method AutoGrow() returns (region1: nat, region2: nat, start2: nat, first1: byte, first2: byte)
    ensures region1 == 0 && region2 == 1 && start2 == 0
    ensures first1 == 0xAA && first2 == 0xBB
  {
    var mgr, b1, b2 := GrowForSecondBlock();
    assert b1.Range() in mgr.live && b2.Range() in mgr.live;
    InBoundsOfMember(mgr.live, b1.Range(), Sizes(mgr.regions));
    InBoundsOfMember(mgr.live, b2.Range(), Sizes(mgr.regions));
    b1.Write(Fill(10, 0xAA));
    assert mgr.regions[0][0] == 0xAA;
    b2.Write(Fill(10, 0xBB));
    assert mgr.regions[1][0] == 0xBB;
    var d1 := b1.Read();
    var d2 := b2.Read();
    return b1.regionId, b2.regionId, b2.start, d1[0], d2[0];
  }

  /** A request larger than the default page grows a region of exactly
      the request, taken whole. */
  method LargeAllocationGrows() returns (region: nat, len: nat)
    ensures region == 1 && len == 1000
  {
    var mgr := new MemoryManager(100, 256);
    NeededSizeUnpadded(1000);
    var o := mgr.Alloc(1000, 1);
    return o.value.regionId, o.value.len;
  }

  /** After 50 and 30 bytes only 20 remain in region 0, so another 50
      comes from a new region. */
  method FragmentationGrows() returns (region: nat)
    ensures region != 0
  {
    var mgr := new MemoryManager(100, 256);
    NeededSizeUnpadded(50);
    NeededSizeUnpadded(30);
    var o1 := mgr.Alloc(50, 1);
    var o2 := mgr.Alloc(30, 1);
    assert mgr.freeList == [FreeSegment(0, 80, 20)];
    var o3 := mgr.Alloc(50, 1);
    return o3.value.regionId;
  }

  /** Two 100-byte requests on a 100-byte pool fill region 0 and a grown
      region 1, each taken whole. */
  method FillTwoRegions() returns (mgr: MemoryManager, b1: MemoryBlock, b2: MemoryBlock)
    ensures fresh(mgr) && mgr.alive && mgr.Valid()
    ensures b1.manager == mgr && !b1.dropped
    ensures b1.Range() == FreeSegment(0, 0, 100) && b2.Range() == FreeSegment(1, 0, 100)
    ensures mgr.live == [b1.Range(), b2.Range()] && mgr.freeList == [] && |mgr.regions| == 2
    ensures mgr.defaultPageSize == 100 && mgr.sizeCompareRatio == 256
  {
    mgr := new MemoryManager(100, 256);
    NeededSizeUnpadded(100);
    var o1 := mgr.Alloc(100, 1);
    b1 := o1.value;
    var o2 := mgr.Alloc(100, 1);
    b2 := o2.value;
  }

  /** Releasing into an empty free-list leaves just the released range. */
  lemma ReleaseIntoEmpty(x: FreeSegment)
    ensures Released([], x) == [x]
  {
    assert [] + [x] == [x];
    assert SortByKey([x]) == [x];
  }

  /** A 100-byte request on a free 100-byte region 0 takes it whole. */
  lemma HundredReusesRegionZero(regions: seq<seq<byte>>)
    ensures var out := AllocOutcome(regions, [FreeSegment(0, 0, 100)], 100, 256, 100);
            out.regions == regions && out.block.regionId == 0
  {
    AllocTakesFirstFit(regions, [FreeSegment(0, 0, 100)], 100, 256, 100, 0);
  }

  /** A released full region is reused by the next request of its size
      instead of growing the heap. */
  method ReleaseReusesRegion() returns (released: nat, reused: nat, regionCount: nat)
    ensures reused == released == 0 && regionCount == 2
  {
    var mgr, b1, b2 := FillTwoRegions();
    released := b1.regionId;
    ReleaseIntoEmpty(b1.Range());
    b1.Drop();
    NeededSizeUnpadded(100);
    HundredReusesRegionZero(mgr.regions);
    var o3 := mgr.Alloc(100, 1);
    reused := o3.value.regionId;
    regionCount := |mgr.regions|;
  }

  /** A 10-byte request against a lone free segment of region 0 that
      reaches its end at 100 is split off the segment's front. */
  lemma TenSplitsFront(regions: seq<seq<byte>>, off: nat)
    requires off + 10 < 100
    ensures var out := AllocOutcome(regions, [FreeSegment(0, off, 100 - off)], 100, 256, 10);
            && out.regions == regions && out.freeList == [FreeSegment(0, off + 10, 90 - off)]
            && out.block == FreeSegment(0, off, 10)
  {
    FullRatioWholeOnlyOnExactFit(100 - off, 10);
    AllocTakesFirstFit(regions, [FreeSegment(0, off, 100 - off)], 100, 256, 10, 0);
  }

  /** A 10-byte request on a 100-byte region whose only free segment
      starts at `off`: the block is split off the front of that segment. */
  method TakeTenAt(mgr: MemoryManager, off: nat) returns (b: MemoryBlock)
    requires mgr.alive && mgr.Valid() && mgr.defaultPageSize == 100 && mgr.sizeCompareRatio == 256
    requires off + 10 < 100 && mgr.freeList == [FreeSegment(0, off, 100 - off)]
    modifies mgr`regions, mgr`freeList, mgr`live
    ensures mgr.Valid() && b.manager == mgr && b.Range() == FreeSegment(0, off, 10)
    ensures mgr.freeList == [FreeSegment(0, off + 10, 90 - off)]
    ensures mgr.regions == old(mgr.regions) && mgr.live == old(mgr.live) + [b.Range()]
  {
    NeededSizeUnpadded(10);
    TenSplitsFront(mgr.regions, off);
    var o := mgr.Alloc(10, 1);
    b := o.value;
  }

  /** Two 10-byte requests on a 100-byte pool: both are split off the
      front of region 0, one after the other. */
  method TwoAdjacentBlocks() returns (mgr: MemoryManager, b1: MemoryBlock, b2: MemoryBlock)
    ensures fresh(mgr) && mgr.alive && mgr.Valid()
    ensures b1.manager == mgr && b2.manager == mgr
    ensures b1.Range() == FreeSegment(0, 0, 10) && b2.Range() == FreeSegment(0, 10, 10)
    ensures b1.Range() in mgr.live && b2.Range() in mgr.live
    ensures |mgr.regions| == 1 && mgr.regions[0] == Zeros(100)
  {
    mgr := new MemoryManager(100, 256);
    b1 := TakeTenAt(mgr, 0);
    b2 := TakeTenAt(mgr, 10);
    assert mgr.live == [b1.Range(), b2.Range()];
  }

  /** With the region bound alone, a 20-byte write through the first of
      two adjacent 10-byte blocks lands in the second. */
  method BlockWriteOverrun() returns (neighbour: seq<byte>)
    ensures neighbour == Fill(10, 0xAA)
  {
    var mgr, b1, b2 := TwoAdjacentBlocks();
    b1.Write(Fill(20, 0xAA));
    neighbour := b2.Read();
    assert forall k :: 0 <= k < 10 ==> neighbour[k] == Fill(20, 0xAA)[10 + k];
  }

  /** Once the manager is gone its blocks are orphaned: reading gives
      nothing, and writing or dropping leaves the pool's state as it was. */
  method OrphanedBlock(mgr: MemoryManager, b: MemoryBlock, bytes: seq<byte>) returns (data: seq<byte>)
    requires b.manager == mgr && !b.dropped
    modifies mgr`alive, mgr`regions, mgr`freeList, mgr`live, b`dropped
    ensures !mgr.alive && data == []
    ensures mgr.regions == old(mgr.regions) && mgr.freeList == old(mgr.freeList) && mgr.live == old(mgr.live)
  {
    mgr.Teardown();
    data := b.Read();
    b.Write(bytes);
    b.Drop();
  }

  /** With the corrected bound, a write through the first of the two
      blocks stays inside it: the second still reads back zeros. */
  method BlockWriteContained() returns (own: seq<byte>, neighbour: seq<byte>)
    ensures own == Fill(10, 0xAA)
    ensures neighbour == Zeros(10)
  {
    var mgr, b1, b2 := TwoAdjacentBlocks();
    b1.WriteWithin(Fill(10, 0xAA));
    own := b1.Read();
    neighbour := b2.Read();
    assert forall k :: 0 <= k < 10 ==> neighbour[k] == Zeros(100)[10 + k];
  }


  /** The free-list after `n` requests of 40 bytes on a pool of 50-byte
      pages: the 10-byte tail of each region. */
  function Tails(n: nat): (r: seq<FreeSegment>)
    ensures |r| == n && forall k :: 0 <= k < n ==> r[k] == FreeSegment(k, 40, 10)
  {
    seq(n, k requires 0 <= k < n => FreeSegment(k, 40, 10))
  }

  /** The first 40-byte request on a fresh 50-byte page splits it. */
  lemma FortyOnFirstPage(regions: seq<seq<byte>>)
    ensures var out := AllocOutcome(regions, [FreeSegment(0, 0, 50)], 50, 256, 40);
            out.regions == regions && out.freeList == Tails(1) && out.block == FreeSegment(0, 0, 40)
  {
    AllocTakesFirstFit(regions, [FreeSegment(0, 0, 50)], 50, 256, 40, 0);
    assert Threshold(50, 256) == 50;
  }

  /** A 40-byte request misses every 10-byte tail, grows page `i` and
      splits it. */
  lemma FortyOnTails(regions: seq<seq<byte>>, i: nat)
    requires |regions| == i && i > 0
    ensures var out := AllocOutcome(regions, Tails(i), 50, 256, 40);
            && out.regions == regions + [Zeros(50)] && out.freeList == Tails(i + 1)
            && out.block == FreeSegment(i, 0, 40)
  {
    var fl := Tails(i);
    assert forall j :: 0 <= j < |fl| ==> fl[j].len < 40;
    AllocOutcomeOnMiss(regions, fl, 50, 256, 40);
    assert Threshold(50, 256) == 50;
    var grown := fl + [FreeSegment(i, 0, 50)];
    assert grown[i := FreeSegment(i, 40, 10)] == Tails(i + 1);
  }

  /** Writes round `i`'s bytes through the block at the head of page `i`. */
  method FillBlock(mgr: MemoryManager, b: MemoryBlock, i: nat)
    requires mgr.alive && mgr.Valid() && b.manager == mgr
    requires b.Range() == FreeSegment(i, 0, 40) && b.Range() in mgr.live
    requires i < 256 && |mgr.regions| == i + 1
    modifies mgr`regions
    ensures mgr.Valid() && |mgr.regions| == i + 1
    ensures forall j :: 0 <= j < i ==> mgr.regions[j] == old(mgr.regions)[j]
    ensures |mgr.regions[i]| >= 40 && mgr.regions[i][..40] == Fill(40, i as byte)
  {
    ghost var r := mgr.regions[i];
    InBoundsOfMember(mgr.live, b.Range(), Sizes(mgr.regions));
    b.Write(Fill(40, i as byte));
    ReadAfterWrite(r, 0, Fill(40, i as byte));
  }

  /** One round of the loop below: a 40-byte request that misses every
      10-byte tail (or, first, splits the initial page) and is filled with
      its round number. */
  method FillNext(mgr: MemoryManager, i: nat) returns (b: MemoryBlock)
    requires mgr.alive && mgr.Valid() && mgr.defaultPageSize == 50 && mgr.sizeCompareRatio == 256
    requires i < 256
    requires i == 0 ==> mgr.freeList == [FreeSegment(0, 0, 50)] && |mgr.regions| == 1
    requires i > 0 ==> mgr.freeList == Tails(i) && |mgr.regions| == i
    modifies mgr`regions, mgr`freeList, mgr`live
    ensures mgr.Valid() && mgr.freeList == Tails(i + 1) && |mgr.regions| == i + 1
    ensures b.manager == mgr && b.Range() == FreeSegment(i, 0, 40)
    ensures mgr.live == old(mgr.live) + [b.Range()]
    ensures forall j :: 0 <= j < i ==> mgr.regions[j] == old(mgr.regions)[j]
    ensures |mgr.regions[i]| >= 40 && mgr.regions[i][..40] == Fill(40, i as byte)
  {
    NeededSizeUnpadded(40);
    if i == 0 {
      FortyOnFirstPage(mgr.regions);
    } else {
      FortyOnTails(mgr.regions, i);
    }
    var o := mgr.Alloc(40, 1);
    b := o.value;
    FillBlock(mgr, b, i);
  }

  /** What holds after `n` rounds: page `j` holds block `j`, live in
      slot `j` and filled with `j`, and its 10-byte tail is free. */
  ghost predicate Filled(mgr: MemoryManager, blocks: seq<MemoryBlock>, n: nat)
    reads mgr
  {
    && mgr.alive && mgr.Valid() && mgr.defaultPageSize == 50 && mgr.sizeCompareRatio == 256
    && n <= 256 && |blocks| == n && mgr.freeList == Tails(n) && |mgr.regions| == n && |mgr.live| == n
    && (forall j :: 0 <= j < n ==> blocks[j].manager == mgr && blocks[j].Range() == FreeSegment(j, 0, 40))
    && (forall j :: 0 <= j < n ==> mgr.live[j] == blocks[j].Range())
    && (forall j :: 0 <= j < n ==> |mgr.regions[j]| >= 40 && mgr.regions[j][..40] == Fill(40, j as byte))
  }

  /** One round after the first: `Filled` moves from `i` to `i + 1`. */
  method FillRound(mgr: MemoryManager, blocks: seq<MemoryBlock>, i: nat) returns (more: seq<MemoryBlock>)
    requires 0 < i < 256 && Filled(mgr, blocks, i)
    modifies mgr`regions, mgr`freeList, mgr`live
    ensures Filled(mgr, more, i + 1)
  {
    var b := FillNext(mgr, i);
    more := blocks + [b];
  }

  /** Five rounds of `FillNext` on a pool of 50-byte pages. */
  method FillFive() returns (mgr: MemoryManager, blocks: seq<MemoryBlock>)
    ensures Filled(mgr, blocks, 5)
  {
    mgr := new MemoryManager(50, 256);
    var b := FillNext(mgr, 0);
    blocks := [b];
    var i := 1;
    while i < 5
      invariant 1 <= i <= 5 && Filled(mgr, blocks, i)
    {
      blocks := FillRound(mgr, blocks, i);
      i := i + 1;
    }
  }

  /** Five 40-byte requests on 50-byte pages each land at offset 0 of
      their own region, and each keeps the bytes written through it. */
  method CrossRegionIndependence() returns (contents: seq<seq<byte>>)
    ensures |contents| == 5
    ensures forall i :: 0 <= i < 5 ==> contents[i] == Fill(40, i as byte)
  {
    var mgr, blocks := FillFive();
    contents := [];
    var i := 0;
    while i < 5
      invariant 0 <= i <= 5 && |contents| == i
      invariant Filled(mgr, blocks, 5)
      invariant forall j :: 0 <= j < i ==> contents[j] == Fill(40, j as byte)
    {
      assert mgr.live[i] == blocks[i].Range();
      var d := blocks[i].Read();
      assert d == mgr.regions[i][..40];
      contents := contents + [d];
      i := i + 1;
    }
  }
}
