/** The segmented pool allocator of `src/memory_manager.rs` as classes:
    a manager that owns growable zeroed regions and a free-list, and
    blocks that hold a range of one region and hand it back when dropped.
    The manager's behaviour is proved against the functions of `PoolSpec`. */
module Pool {

  import opened Wrappers
  import Pad
  import opened PoolSpec

  /** The pool. `alive` is false once the last strong handle to the
      manager is gone; a block's weak handle then no longer upgrades.
      `live` records the ranges of the blocks handed out and not yet
      released. */
  class MemoryManager {
    var regions: seq<seq<byte>>
    var freeList: seq<FreeSegment>
    var defaultPageSize: nat
    const sizeCompareRatio: nat
    var alive: bool
    ghost var live: seq<FreeSegment>

    /** Every byte of every region is in exactly one free segment or one
        live block. */
    ghost predicate Valid()
      reads this
    {
      PoolInvariant(Sizes(regions), freeList, live)
    }

    /** `MemoryManager::new`: an empty pool grown once by `initialSize`. */
    constructor (initialSize: nat, sizeCompareRatio: nat)
      ensures Valid() && alive
      ensures this.sizeCompareRatio == sizeCompareRatio && defaultPageSize == initialSize
      ensures regions == [Zeros(initialSize)]
      ensures freeList == [FreeSegment(0, 0, initialSize)]
      ensures live == []
    {
      regions := [];
      freeList := [];
      defaultPageSize := initialSize;
      this.sizeCompareRatio := sizeCompareRatio;
      alive := true;
      live := [];
      new;
      ExpandHeapInternal(initialSize);
    }

    /** `expand_heap_internal`: append a zeroed region of
        `max(default_page_size, min_size)` bytes and one free segment
        spanning it. */
    method ExpandHeapInternal(minSize: nat)
      requires Valid()
      modifies this`regions, this`freeList
      ensures Valid()
      ensures regions == old(regions) + [Zeros(GrowthSize(defaultPageSize, minSize))]
      ensures freeList == old(freeList) + [FreeSegment(|old(regions)|, 0, GrowthSize(defaultPageSize, minSize))]
    {
      var allocSize := if defaultPageSize >= minSize then defaultPageSize else minSize;
      var regionId := |regions|;
      ExpandPreserves(Sizes(regions), freeList, live, allocSize);
      regions := regions + [Zeros(allocSize)];
      freeList := freeList + [FreeSegment(regionId, 0, allocSize)];
      assert Sizes(regions) == Sizes(old(regions)) + [allocSize];
    }

    /** The `position` search of `alloc`. */
    method FindFirstFit(needed: nat) returns (index: Option<nat>)
      ensures index == FirstFit(freeList, needed)
    {
      var i := 0;
      while i < |freeList|
        invariant 0 <= i <= |freeList|
        invariant forall j :: 0 <= j < i ==> freeList[j].len < needed
      {
        if freeList[i].len >= needed {
          return Some(i);
        }
        i := i + 1;
      }
      return None;
    }

    /** Hand out segment `index` whole, or split `needed` bytes off its
        front in place. */
    method TakeSegment(index: nat, needed: nat) returns (span: FreeSegment)
      requires Valid()
      requires index < |freeList| && freeList[index].len >= needed
      modifies this`freeList, this`live
      ensures Valid()
      ensures span == TakenSpan(old(freeList)[index], needed, sizeCompareRatio)
      ensures freeList == AfterTake(old(freeList), index, needed, sizeCompareRatio)
      ensures live == old(live) + [span]
    {
      TakePreserves(Sizes(regions), freeList, live, index, needed, sizeCompareRatio);
      var segment := freeList[index];
      var product := segment.len * sizeCompareRatio;
      var threshold := (if product > USIZE_MAX then USIZE_MAX else product) / 256;
      if segment.len == needed || (segment.len > needed && threshold <= needed) {
        freeList := freeList[..index] + freeList[index + 1..];
        span := segment;
      } else {
        freeList := freeList[index := FreeSegment(segment.regionId, segment.start + needed, segment.len - needed)];
        span := FreeSegment(segment.regionId, segment.start, needed);
      }
      live := live + [span];
    }

    /** One pass of `alloc` under the lock: take the first fit if there
        is one. */
    method TryTake(needed: nat) returns (b: Option<MemoryBlock>)
      requires Valid()
      modifies this`freeList, this`live
      ensures Valid()
      ensures FirstFit(old(freeList), needed).None? ==>
        b.None? && freeList == old(freeList) && live == old(live)
      ensures FirstFit(old(freeList), needed).Some? ==>
        var i := FirstFit(old(freeList), needed).value;
        && b.Some? && fresh(b.value) && b.value.manager == this && !b.value.dropped
        && b.value.Range() == TakenSpan(old(freeList)[i], needed, sizeCompareRatio)
        && freeList == AfterTake(old(freeList), i, needed, sizeCompareRatio)
        && live == old(live) + [b.value.Range()]
    {
      var index := FindFirstFit(needed);
      b := None;
      if index.Some? {
        var span := TakeSegment(index.value, needed);
        var block := new MemoryBlock(span, this);
        b := Some(block);
      }
    }

    /** `alloc`: two passes of first fit; a miss on the first grows the
        heap by at least the needed size, so the second pass always finds
        the new segment and the result is never `None`. */
    method Alloc(size: nat, padding: nat) returns (b: Option<MemoryBlock>)
      requires Valid() && alive
      modifies this`regions, this`freeList, this`live
      ensures Valid()
      ensures b.Some? && fresh(b.value) && b.value.manager == this && !b.value.dropped
      ensures var out := AllocOutcome(old(regions), old(freeList), defaultPageSize, sizeCompareRatio,
                                      NeededSize(size, padding));
              regions == out.regions && freeList == out.freeList && b.value.Range() == out.block
      ensures live == old(live) + [b.value.Range()]
    {
      var needed := if padding > 0 then Pad.PadMask(size, padding) else size;
      ghost var out := AllocOutcome(regions, freeList, defaultPageSize, sizeCompareRatio, needed);
      ghost var growth := FreeSegment(|regions|, 0, GrowthSize(defaultPageSize, needed));
      b := None;
      var pass := 0;
      while pass < 2 && b.None?
        invariant 0 <= pass <= 2
        invariant Valid()
        invariant b.None? ==> pass <= 1 && live == old(live)
        invariant b.None? && pass == 0 ==> regions == old(regions) && freeList == old(freeList)
        invariant b.None? && pass == 1 ==>
          && FirstFit(old(freeList), needed) == None
          && regions == old(regions) + [Zeros(growth.len)]
          && freeList == old(freeList) + [growth]
        invariant b.Some? ==>
          && fresh(b.value) && b.value.manager == this && !b.value.dropped
          && regions == out.regions && freeList == out.freeList && b.value.Range() == out.block
          && live == old(live) + [out.block]
        decreases 2 - pass
      {
        if pass == 0 {
          var fit := FirstFit(freeList, needed);
          if fit.Some? {
            AllocTakesFirstFit(regions, freeList, defaultPageSize, sizeCompareRatio, needed, fit.value);
          }
        } else {
          FirstFitAfterGrowth(old(freeList), growth, needed);
          AllocOutcomeOnMiss(old(regions), old(freeList), defaultPageSize, sizeCompareRatio, needed);
        }
        b := TryTake(needed);
        if b.None? {
          ExpandHeapInternal(needed);
        }
        pass := pass + 1;
      }
    }

    /** The merge pass of `release`: one left-to-right sweep that extends
        the current segment while the next one touches it. */
    static method CoalesceSorted(sorted: seq<FreeSegment>) returns (merged: seq<FreeSegment>)
      ensures merged == Coalesce(sorted)
    {
      ghost var target := Coalesce(sorted);
      merged := [];
      if |sorted| > 0 {
        var current := sorted[0];
        var rest := sorted[1..];
        while rest != []
          invariant merged + CoalesceFrom(current, rest) == target
          decreases |rest|
        {
          var next := rest[0];
          if current.regionId == next.regionId && current.End() == next.start {
            current := FreeSegment(current.regionId, current.start, current.len + next.len);
          } else {
            ghost var tail := CoalesceFrom(next, rest[1..]);
            assert merged + ([current] + tail) == (merged + [current]) + tail;
            merged := merged + [current];
            current := next;
          }
          rest := rest[1..];
        }
        merged := merged + [current];
      }
    }

    /** `release`: push the range, sort the free-list by (region, start)
        and merge touching neighbours. */
    method Release(regionId: nat, start: nat, len: nat)
      requires Valid()
      requires FreeSegment(regionId, start, len) in live
      modifies this`freeList, this`live
      ensures Valid()
      ensures freeList == Released(old(freeList), FreeSegment(regionId, start, len))
      ensures live == RemoveOne(old(live), FreeSegment(regionId, start, len))
      ensures Sorted(freeList) && NoTouch(freeList)
      ensures SumLen(freeList) == SumLen(old(freeList)) + len
    {
      var segment := FreeSegment(regionId, start, len);
      ghost var fl0, live0 := freeList, live;
      var sorted := SortByKey(freeList + [segment]);
      var newFreeList := CoalesceSorted(sorted);
      assert newFreeList == Released(fl0, segment);
      freeList := newFreeList;
      live := RemoveOne(live, segment);
      assert Valid() by {
        ReleasePreserves(Sizes(regions), fl0, live0, segment);
      }
      ReleasedSortedAndCoalesced(fl0, segment);
      ReleasedGrowsByLen(fl0, segment);
    }

    /** `read_memory`: a copy of `len` bytes from `start`; an unknown
        region or a range past the region's end panics. */
    method ReadMemory(regionId: nat, start: nat, len: nat) returns (data: seq<byte>)
      requires regionId < |regions|
      requires start + len <= |regions[regionId]|
      ensures |data| == len
      ensures forall k :: 0 <= k < len ==> data[k] == regions[regionId][start + k]
    {
      data := regions[regionId][start..start + len];
    }

    /** `write_memory`: copy `data` in at `start`; an unknown region or a
        range past the region's end panics. */
    method WriteMemory(regionId: nat, start: nat, data: seq<byte>)
      requires Valid()
      requires regionId < |regions|
      requires start + |data| <= |regions[regionId]|
      modifies this`regions
      ensures Valid()
      ensures regions == old(regions)[regionId := Overwrite(old(regions)[regionId], start, data)]
    {
      regions := regions[regionId := Overwrite(regions[regionId], start, data)];
      assert Sizes(regions) == Sizes(old(regions));
    }

    /** The last strong handle is dropped: the regions go with it and no
        block's weak handle upgrades any more. */
    method Teardown()
      modifies this`alive
      ensures !alive
    {
      alive := false;
    }
  }

  /** A block handed out by `alloc`: a range of one region and a weak
      handle on its manager. */
  class MemoryBlock {
    const regionId: nat
    const start: nat
    const len: nat
    const manager: MemoryManager
    var dropped: bool

    function Range(): FreeSegment
    {
      FreeSegment(regionId, start, len)
    }

    constructor (span: FreeSegment, manager: MemoryManager)
      ensures Range() == span && this.manager == manager && !dropped
    {
      regionId := span.regionId;
      start := span.start;
      len := span.len;
      this.manager := manager;
      dropped := false;
    }

    /** `MemoryBlock::read`: the block's bytes, or nothing once the
        manager is gone. */
    method Read() returns (data: seq<byte>)
      requires manager.alive ==> manager.Valid() && Range() in manager.live
      ensures manager.alive ==> InBounds(Range(), Sizes(manager.regions))
      ensures manager.alive ==> |data| == len
      ensures manager.alive ==> forall k :: 0 <= k < len ==> data[k] == manager.regions[regionId][start + k]
      ensures !manager.alive ==> data == []
    {
      if manager.alive {
        InBoundsOfMember(manager.live, Range(), Sizes(manager.regions));
        data := manager.ReadMemory(regionId, start, len);
      } else {
        data := [];
      }
    }

    /** `MemoryBlock::write`: forwards to `write_memory`, which checks the
        write against the end of the region only, not of the block. */
    method Write(data: seq<byte>)
      requires manager.alive ==> manager.Valid() && regionId < |manager.regions|
      requires manager.alive ==> start + |data| <= |manager.regions[regionId]|
      modifies manager`regions
      ensures manager.alive ==> manager.Valid()
      ensures manager.alive ==>
        manager.regions == old(manager.regions)[regionId := Overwrite(old(manager.regions)[regionId], start, data)]
      ensures !manager.alive ==> manager.regions == old(manager.regions)
    {
      if manager.alive {
        manager.WriteMemory(regionId, start, data);
      }
    }

    /** A block write bounded by the block's own length. */
    method WriteWithin(data: seq<byte>)
      requires manager.alive ==> manager.Valid() && Range() in manager.live
      requires |data| <= len
      modifies manager`regions
      ensures manager.alive ==> manager.Valid()
      ensures manager.alive ==>
        manager.regions == old(manager.regions)[regionId := Overwrite(old(manager.regions)[regionId], start, data)]
      ensures !manager.alive ==> manager.regions == old(manager.regions)
    {
      if manager.alive {
        InBoundsOfMember(manager.live, Range(), Sizes(manager.regions));
        manager.WriteMemory(regionId, start, data);
      }
    }

    /** `Drop for MemoryBlock`: release the range if the manager is still
        there. */
    method Drop()
      requires !dropped
      requires manager.alive ==> manager.Valid() && Range() in manager.live
      modifies this`dropped, manager`freeList, manager`live
      ensures dropped
      ensures manager.alive ==> manager.Valid()
      ensures manager.alive ==> manager.freeList == Released(old(manager.freeList), Range())
      ensures manager.alive ==> manager.live == RemoveOne(old(manager.live), Range())
      ensures !manager.alive ==> manager.freeList == old(manager.freeList) && manager.live == old(manager.live)
    {
      if manager.alive {
        manager.Release(regionId, start, len);
      }
      dropped := true;
    }
  }
}
