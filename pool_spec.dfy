/** The value-level specification of the segmented pool allocator in
    `src/memory_manager.rs`: free segments, the first-fit choice, the
    whole-or-split decision, the release-time sort and coalescing, and the
    byte-coverage invariant that gives conservation. */
module PoolSpec {

  import opened Wrappers
  import Pad

  type byte = bv8

  /** `usize::MAX`: where `checked_mul(..).unwrap_or(..)` saturates. */
  const USIZE_MAX: nat := 0xFFFF_FFFF_FFFF_FFFF

  /** A range `[start, start + len)` of one region. The free-list holds
      these, and a block's range is one of these once released. */
  datatype FreeSegment = FreeSegment(regionId: nat, start: nat, len: nat)
  {
    /** `FreeSegment::end`. */
    function End(): nat
    {
      start + len
    }
  }

  /** A zero-filled region of `n` bytes. */
  function Zeros(n: nat): (r: seq<byte>)
    ensures |r| == n
    ensures forall i :: 0 <= i < n ==> r[i] == 0
  {
    seq(n, _ => 0)
  }

  // ---------------------------------------------------------------------
  // Sizing a request
  // ---------------------------------------------------------------------

  /** The size `alloc` looks for: `size` rounded up with the padding mask,
      or `size` itself when `padding` is 0. */
  function NeededSize(size: nat, padding: nat): nat
  {
    if padding > 0 then Pad.PadMask(size, padding) else size
  }

  /** Whatever the padding, it adds fewer than `padding` bytes. */
  lemma NeededSizeAnyPadding(size: nat, padding: nat)
    ensures padding == 0 ==> NeededSize(size, padding) == size
    ensures padding > 0 ==> NeededSize(size, padding) < size + padding
  {
    if padding > 0 {
      Pad.PadMaskAtMost(size, padding);
    }
  }

  /** For a power-of-two padding the needed size is the smallest multiple
      of `padding` that holds `size`. */
  lemma NeededSizeBounds(size: nat, padding: nat)
    requires padding == 0 || Pad.IsPowerOfTwo(padding)
    ensures padding == 0 ==> NeededSize(size, padding) == size
    ensures padding > 0 ==> NeededSize(size, padding) % padding == 0
    ensures padding > 0 ==> size <= NeededSize(size, padding) < size + padding
  {
    if padding > 0 {
      Pad.PadMaskBounds(size, padding);
    }
  }

  /** The size of the region the heap grows by. */
  function GrowthSize(defaultPageSize: nat, minSize: nat): nat
  {
    if defaultPageSize >= minSize then defaultPageSize else minSize
  }

  /** The growth size is the larger of the two sizes. */
  lemma GrowthSizeIsMax(defaultPageSize: nat, minSize: nat)
    ensures GrowthSize(defaultPageSize, minSize) >= defaultPageSize
    ensures GrowthSize(defaultPageSize, minSize) >= minSize
    ensures GrowthSize(defaultPageSize, minSize) == defaultPageSize || GrowthSize(defaultPageSize, minSize) == minSize
  {
  }

  // ---------------------------------------------------------------------
  // Whole or split
  // ---------------------------------------------------------------------

  /** `(len * ratio, saturating at usize::MAX) >> 8`. */
  function Threshold(len: nat, ratio: nat): nat
  {
    var product := len * ratio;
    (if product > USIZE_MAX then USIZE_MAX else product) / 256
  }

  /** Ratio 0 gives threshold 0, and a ratio of at most 256 never puts the
      threshold above the segment's length, saturated or not. */
  lemma ThresholdBounds(len: nat, ratio: nat)
    ensures ratio == 0 ==> Threshold(len, ratio) == 0
    ensures ratio <= 256 ==> Threshold(len, ratio) <= len
  {
    if ratio <= 256 {
      Pad.MulMono(ratio, 256, len);
      assert ratio * len == len * ratio;
      ProductDiv256(len);
    }
  }

  /** The fitting segment is handed out whole: exact fit, or a larger one
      whose threshold does not exceed the request. */
  predicate TakeWhole(len: nat, needed: nat, ratio: nat)
  {
    len == needed || (len > needed && Threshold(len, ratio) <= needed)
  }

  /** Only a segment that fits the request is taken whole. */
  lemma TakeWholeFits(len: nat, needed: nat, ratio: nat)
    ensures TakeWhole(len, needed, ratio) ==> len >= needed
  {
  }

  lemma ProductDiv256(len: nat)
    ensures (len * 256) / 256 == len
  {
    Pad.DivModUnique(len * 256, 256, len, 0);
  }

  /** With ratio 256 only an exact fit is taken whole (below saturation). */
  lemma FullRatioWholeOnlyOnExactFit(len: nat, needed: nat)
    requires len >= needed && len * 256 <= USIZE_MAX
    ensures TakeWhole(len, needed, 256) <==> len == needed
  {
    ProductDiv256(len);
  }

  /** With ratio 0 every fitting segment is taken whole. */
  lemma ZeroRatioAlwaysWhole(len: nat, needed: nat)
    requires len >= needed
    ensures TakeWhole(len, needed, 0)
  {
  }

  // ---------------------------------------------------------------------
  // First fit
  // ---------------------------------------------------------------------

  /** `free_list.iter().position(|seg| seg.len >= needed)`: the lowest
      index whose segment is long enough. */
  function FirstFit(fl: seq<FreeSegment>, needed: nat): (r: Option<nat>)
    ensures r.Some? ==> r.value < |fl| && fl[r.value].len >= needed
    ensures r.Some? ==> forall j :: 0 <= j < r.value ==> fl[j].len < needed
    ensures r.None? <==> forall j :: 0 <= j < |fl| ==> fl[j].len < needed
    decreases |fl|
  {
    if fl == [] then None
    else
      var init := fl[..|fl| - 1];
      match FirstFit(init, needed)
      case Some(i) => Some(i)
      case None => if fl[|fl| - 1].len >= needed then Some(|fl| - 1) else None
  }

  /** After a miss, the segment that growth appends is the first fit. */
  lemma FirstFitAfterGrowth(fl: seq<FreeSegment>, seg: FreeSegment, needed: nat)
    requires FirstFit(fl, needed) == None && seg.len >= needed
    ensures FirstFit(fl + [seg], needed) == Some(|fl|)
  {
    var fl' := fl + [seg];
    assert fl'[|fl|] == seg;
    assert forall j :: 0 <= j < |fl| ==> fl'[j] == fl[j];
  }

  // ---------------------------------------------------------------------
  // Taking from a segment
  // ---------------------------------------------------------------------

  /** The range the block receives from the fitting segment `seg`. */
  function TakenSpan(seg: FreeSegment, needed: nat, ratio: nat): (b: FreeSegment)
    requires seg.len >= needed
    ensures b.regionId == seg.regionId && b.start == seg.start
    ensures TakeWhole(seg.len, needed, ratio) ==> b.len == seg.len
    ensures !TakeWhole(seg.len, needed, ratio) ==> b.len == needed
    ensures needed <= b.len <= seg.len
  {
    if TakeWhole(seg.len, needed, ratio) then seg else FreeSegment(seg.regionId, seg.start, needed)
  }

  /** What is left of the fitting segment after a split. */
  function SplitRest(seg: FreeSegment, needed: nat): FreeSegment
    requires seg.len >= needed
  {
    FreeSegment(seg.regionId, seg.start + needed, seg.len - needed)
  }

  /** The free-list after taking from segment `i`: the segment removed,
      or shrunk from the front in place. */
  function AfterTake(fl: seq<FreeSegment>, i: nat, needed: nat, ratio: nat): seq<FreeSegment>
    requires i < |fl| && fl[i].len >= needed
  {
    if TakeWhole(fl[i].len, needed, ratio) then fl[..i] + fl[i + 1..]
    else fl[i := SplitRest(fl[i], needed)]
  }

  /** Taken whole, the free-list loses the fitting entry and the others
      close up in order; split, only the fitting slot changes, to what is
      left after the block. */
  lemma AfterTakeShape(fl: seq<FreeSegment>, i: nat, needed: nat, ratio: nat)
    requires i < |fl| && fl[i].len >= needed
    ensures var r := AfterTake(fl, i, needed, ratio);
            && (forall j :: 0 <= j < i ==> r[j] == fl[j])
            && (TakeWhole(fl[i].len, needed, ratio) ==>
                  |r| == |fl| - 1 && forall j :: i <= j < |r| ==> r[j] == fl[j + 1])
            && (!TakeWhole(fl[i].len, needed, ratio) ==>
                  |r| == |fl| && r[i] == SplitRest(fl[i], needed) && forall j :: i < j < |r| ==> r[j] == fl[j])
  {
  }

  /** The state `alloc` leaves and the block it returns. */
  datatype AllocResult = AllocResult(regions: seq<seq<byte>>, freeList: seq<FreeSegment>, block: FreeSegment)

  /** `alloc`: take from the first fit; on a miss, grow by one zeroed
      region of `max(default_page_size, needed)` with one free segment
      spanning it, and take from that segment on the retry. */
  function AllocOutcome(regions: seq<seq<byte>>, fl: seq<FreeSegment>, defaultPageSize: nat,
                        ratio: nat, needed: nat): (r: AllocResult)
    ensures needed <= r.block.len
  {
    match FirstFit(fl, needed)
    case Some(i) =>
      AllocResult(regions, AfterTake(fl, i, needed, ratio), TakenSpan(fl[i], needed, ratio))
    case None =>
      var size := GrowthSize(defaultPageSize, needed);
      var grown := fl + [FreeSegment(|regions|, 0, size)];
      AllocResult(regions + [Zeros(size)], AfterTake(grown, |fl|, needed, ratio),
                  TakenSpan(grown[|fl|], needed, ratio))
  }

  /** First fit: when some segment fits, the block comes from the
      lowest-index one and no region is added. */
  lemma AllocTakesFirstFit(regions: seq<seq<byte>>, fl: seq<FreeSegment>, dps: nat, ratio: nat, needed: nat, i: nat)
    requires i < |fl| && fl[i].len >= needed
    requires forall j :: 0 <= j < i ==> fl[j].len < needed
    ensures AllocOutcome(regions, fl, dps, ratio, needed).regions == regions
    ensures AllocOutcome(regions, fl, dps, ratio, needed).block == TakenSpan(fl[i], needed, ratio)
    ensures AllocOutcome(regions, fl, dps, ratio, needed).freeList == AfterTake(fl, i, needed, ratio)
  {
    assert FirstFit(fl, needed) == Some(i);
  }

  /** Growth: when nothing fits, exactly one zeroed region of
      `max(default_page_size, needed)` is added and the block starts at
      offset 0 of it. */
  lemma AllocGrowsOnMiss(regions: seq<seq<byte>>, fl: seq<FreeSegment>, dps: nat, ratio: nat, needed: nat)
    requires forall j :: 0 <= j < |fl| ==> fl[j].len < needed
    ensures AllocOutcome(regions, fl, dps, ratio, needed).regions == regions + [Zeros(GrowthSize(dps, needed))]
    ensures AllocOutcome(regions, fl, dps, ratio, needed).block.regionId == |regions|
    ensures AllocOutcome(regions, fl, dps, ratio, needed).block.start == 0
    ensures AllocOutcome(regions, fl, dps, ratio, needed).freeList[..|fl|] == fl
  {
    var size := GrowthSize(dps, needed);
    var grown := fl + [FreeSegment(|regions|, 0, size)];
    var after := AfterTake(grown, |fl|, needed, ratio);
    assert after[..|fl|] == fl;
  }

  /** On a miss the block and the free-list come from the segment that
      growth appends. */
  lemma AllocOutcomeOnMiss(regions: seq<seq<byte>>, fl: seq<FreeSegment>, dps: nat, ratio: nat, needed: nat)
    requires FirstFit(fl, needed) == None
    ensures var growth := FreeSegment(|regions|, 0, GrowthSize(dps, needed));
            var out := AllocOutcome(regions, fl, dps, ratio, needed);
            && out.regions == regions + [Zeros(growth.len)]
            && out.freeList == AfterTake(fl + [growth], |fl|, needed, ratio)
            && out.block == TakenSpan(growth, needed, ratio)
  {
    var growth := FreeSegment(|regions|, 0, GrowthSize(dps, needed));
    assert (fl + [growth])[|fl|] == growth;
  }

  // ---------------------------------------------------------------------
  // Release: stable sort by (region_id, start), then coalescing
  // ---------------------------------------------------------------------

  /** The order `release` sorts by: region id, then start. */
  predicate KeyLe(a: FreeSegment, b: FreeSegment)
  {
    a.regionId < b.regionId || (a.regionId == b.regionId && a.start <= b.start)
  }

  /** Sorted by (region_id, start), stated on neighbours. */
  predicate Sorted(s: seq<FreeSegment>)
  {
    forall i :: 0 <= i < |s| - 1 ==> KeyLe(s[i], s[i + 1])
  }

  /** Two segments of one region that are next to each other. */
  predicate Touches(a: FreeSegment, b: FreeSegment)
  {
    a.regionId == b.regionId && a.End() == b.start
  }

  /** No two neighbours in the list touch. */
  predicate NoTouch(s: seq<FreeSegment>)
  {
    forall i :: 0 <= i < |s| - 1 ==> !Touches(s[i], s[i + 1])
  }

  /** Stable insertion: `x` goes after every element whose key is not
      greater than its own. */
  function Insert(s: seq<FreeSegment>, x: FreeSegment): (r: seq<FreeSegment>)
    ensures |r| == |s| + 1
    ensures r[|r| - 1] == x || (s != [] && r[|r| - 1] == s[|s| - 1])
    decreases |s|
  {
    if s == [] then [x]
    else if KeyLe(s[|s| - 1], x) then s + [x]
    else Insert(s[..|s| - 1], x) + [s[|s| - 1]]
  }

  /** `sort_by` on (region_id, start): a stable sort, written as insertion sort. */
  function SortByKey(s: seq<FreeSegment>): (r: seq<FreeSegment>)
    ensures |r| == |s|
    decreases |s|
  {
    if s == [] then [] else Insert(SortByKey(s[..|s| - 1]), s[|s| - 1])
  }

  /** The coalescing pass from the accumulating segment `current` on. */
  function CoalesceFrom(current: FreeSegment, rest: seq<FreeSegment>): seq<FreeSegment>
    decreases |rest|
  {
    if rest == [] then [current]
    else if Touches(current, rest[0]) then
      CoalesceFrom(FreeSegment(current.regionId, current.start, current.len + rest[0].len), rest[1..])
    else [current] + CoalesceFrom(rest[0], rest[1..])
  }

  /** The merge pass of `release` over the sorted list. */
  function Coalesce(s: seq<FreeSegment>): seq<FreeSegment>
  {
    if s == [] then [] else CoalesceFrom(s[0], s[1..])
  }

  /** The free-list `release` leaves. */
  function Released(fl: seq<FreeSegment>, x: FreeSegment): seq<FreeSegment>
  {
    Coalesce(SortByKey(fl + [x]))
  }

  /** Merging from an accumulating segment gives at least one segment and
      never more than it started with. */
  lemma {:induction false} CoalesceFromLength(current: FreeSegment, rest: seq<FreeSegment>)
    ensures 1 <= |CoalesceFrom(current, rest)| <= |rest| + 1
    decreases |rest|
  {
    if rest != [] {
      if Touches(current, rest[0]) {
        CoalesceFromLength(FreeSegment(current.regionId, current.start, current.len + rest[0].len), rest[1..]);
      } else {
        CoalesceFromLength(rest[0], rest[1..]);
      }
    }
  }

  /** The merge pass never lengthens the list and keeps a non-empty list
      non-empty. */
  lemma CoalesceLength(s: seq<FreeSegment>)
    ensures |Coalesce(s)| <= |s|
    ensures s != [] ==> Coalesce(s) != []
  {
    if s != [] {
      CoalesceFromLength(s[0], s[1..]);
    }
  }

  /** After `release` the free-list holds at least one segment and at most
      one more than before. */
  lemma ReleasedLength(fl: seq<FreeSegment>, x: FreeSegment)
    ensures 1 <= |Released(fl, x)| <= |fl| + 1
  {
    CoalesceLength(SortByKey(fl + [x]));
  }

  lemma {:induction false} InsertSorted(s: seq<FreeSegment>, x: FreeSegment)
    requires Sorted(s)
    ensures Sorted(Insert(s, x))
    decreases |s|
  {
    if s != [] && !KeyLe(s[|s| - 1], x) {
      var init := s[..|s| - 1];
      assert Sorted(init);
      InsertSorted(init, x);
    }
  }

  lemma {:induction false} SortByKeySorted(s: seq<FreeSegment>)
    ensures Sorted(SortByKey(s))
    decreases |s|
  {
    if s != [] {
      SortByKeySorted(s[..|s| - 1]);
      InsertSorted(SortByKey(s[..|s| - 1]), s[|s| - 1]);
    }
  }

  lemma {:induction false} InsertMultiset(s: seq<FreeSegment>, x: FreeSegment)
    ensures multiset(Insert(s, x)) == multiset(s) + multiset{x}
    decreases |s|
  {
    if s != [] {
      var init := s[..|s| - 1];
      assert s == init + [s[|s| - 1]];
      if !KeyLe(s[|s| - 1], x) {
        InsertMultiset(init, x);
      }
    }
  }

  /** The sort only reorders: it is a permutation of its input. */
  lemma {:induction false} SortByKeyPermutes(s: seq<FreeSegment>)
    ensures multiset(SortByKey(s)) == multiset(s)
    decreases |s|
  {
    if s != [] {
      var init := s[..|s| - 1];
      assert s == init + [s[|s| - 1]];
      SortByKeyPermutes(init);
      InsertMultiset(SortByKey(init), s[|s| - 1]);
    }
  }

  /** The first segment of a coalesced run keeps the region and start of
      the segment that began it. */
  lemma {:induction false} CoalesceFromHead(current: FreeSegment, rest: seq<FreeSegment>)
    ensures |CoalesceFrom(current, rest)| >= 1
    ensures CoalesceFrom(current, rest)[0].regionId == current.regionId
    ensures CoalesceFrom(current, rest)[0].start == current.start
    decreases |rest|
  {
    if rest != [] {
      if Touches(current, rest[0]) {
        CoalesceFromHead(FreeSegment(current.regionId, current.start, current.len + rest[0].len), rest[1..]);
      } else {
        CoalesceFromHead(rest[0], rest[1..]);
      }
    }
  }

  /** Coalescing leaves no two neighbours touching. */
  lemma {:induction false} CoalesceFromNoTouch(current: FreeSegment, rest: seq<FreeSegment>)
    ensures NoTouch(CoalesceFrom(current, rest))
    decreases |rest|
  {
    if rest != [] {
      if Touches(current, rest[0]) {
        CoalesceFromNoTouch(FreeSegment(current.regionId, current.start, current.len + rest[0].len), rest[1..]);
      } else {
        var tail := CoalesceFrom(rest[0], rest[1..]);
        CoalesceFromNoTouch(rest[0], rest[1..]);
        CoalesceFromHead(rest[0], rest[1..]);
        assert !Touches(current, tail[0]);
        var r := [current] + tail;
        forall i | 0 <= i < |r| - 1
          ensures !Touches(r[i], r[i + 1])
        {
          if i > 0 {
            assert r[i] == tail[i - 1] && r[i + 1] == tail[i];
          }
        }
      }
    }
  }

  /** Coalescing a sorted list keeps it sorted. */
  lemma {:induction false} CoalesceFromSorted(current: FreeSegment, rest: seq<FreeSegment>)
    requires Sorted([current] + rest)
    ensures Sorted(CoalesceFrom(current, rest))
    decreases |rest|
  {
    var s := [current] + rest;
    if rest != [] {
      assert s[1] == rest[0];
      assert Sorted(rest) by {
        forall i | 0 <= i < |rest| - 1
          ensures KeyLe(rest[i], rest[i + 1])
        {
          assert rest[i] == s[i + 1] && rest[i + 1] == s[i + 2];
        }
      }
      assert rest == [rest[0]] + rest[1..];
      if Touches(current, rest[0]) {
        var merged := FreeSegment(current.regionId, current.start, current.len + rest[0].len);
        var s' := [merged] + rest[1..];
        assert Sorted(s') by {
          forall i | 0 <= i < |s'| - 1
            ensures KeyLe(s'[i], s'[i + 1])
          {
            if i == 0 {
              assert s'[1] == rest[1];
              assert KeyLe(rest[0], rest[1]);
            } else {
              assert s'[i] == rest[i] && s'[i + 1] == rest[i + 1];
            }
          }
        }
        CoalesceFromSorted(merged, rest[1..]);
      } else {
        var tail := CoalesceFrom(rest[0], rest[1..]);
        CoalesceFromSorted(rest[0], rest[1..]);
        CoalesceFromHead(rest[0], rest[1..]);
        assert KeyLe(s[0], s[1]);
        assert KeyLe(current, tail[0]);
        var r := [current] + tail;
        forall i | 0 <= i < |r| - 1
          ensures KeyLe(r[i], r[i + 1])
        {
          if i > 0 {
            assert r[i] == tail[i - 1] && r[i + 1] == tail[i];
          }
        }
      }
    }
  }

  /** After `release` the free-list is sorted by (region_id, start) and no
      two neighbours touch. */
  lemma ReleasedSortedAndCoalesced(fl: seq<FreeSegment>, x: FreeSegment)
    ensures Sorted(Released(fl, x)) && NoTouch(Released(fl, x))
  {
    var s := SortByKey(fl + [x]);
    SortByKeySorted(fl + [x]);
    assert s != [];
    assert s == [s[0]] + s[1..];
    CoalesceFromSorted(s[0], s[1..]);
    CoalesceFromNoTouch(s[0], s[1..]);
  }

  // ---------------------------------------------------------------------
  // Byte coverage: every byte of every region is in exactly one free
  // segment or one live block
  // ---------------------------------------------------------------------

  /** Byte `k` of region `r` lies in `seg`. */
  predicate Covers(seg: FreeSegment, r: nat, k: nat)
  {
    seg.regionId == r && seg.start <= k < seg.End()
  }

  function Cover(seg: FreeSegment, r: nat, k: nat): nat
  {
    if Covers(seg, r, k) then 1 else 0
  }

  /** How many segments of `s` hold byte `k` of region `r`. */
  function Count(s: seq<FreeSegment>, r: nat, k: nat): nat
    decreases |s|
  {
    if s == [] then 0 else Count(s[..|s| - 1], r, k) + Cover(s[|s| - 1], r, k)
  }

  /** The segment lies inside a region of the given sizes. */
  predicate InBounds(seg: FreeSegment, sizes: seq<nat>)
  {
    seg.regionId < |sizes| && seg.End() <= sizes[seg.regionId]
  }

  predicate AllInBounds(s: seq<FreeSegment>, sizes: seq<nat>)
  {
    forall i :: 0 <= i < |s| ==> InBounds(s[i], sizes)
  }

  /** The sizes of the regions: all the invariant needs of their bytes. */
  function Sizes(regions: seq<seq<byte>>): (r: seq<nat>)
    ensures |r| == |regions|
    ensures forall i :: 0 <= i < |regions| ==> r[i] == |regions[i]|
  {
    seq(|regions|, i requires 0 <= i < |regions| => |regions[i]|)
  }

  /** The pool invariant: every free segment and every live block lies in
      its region, and every byte of every region belongs to exactly one of
      them. */
  ghost predicate PoolInvariant(sizes: seq<nat>, fl: seq<FreeSegment>, live: seq<FreeSegment>)
  {
    && AllInBounds(fl, sizes)
    && AllInBounds(live, sizes)
    && forall r, k :: 0 <= r < |sizes| && 0 <= k < sizes[r] ==> Count(fl + live, r, k) == 1
  }

  lemma {:induction false} CountAppend(a: seq<FreeSegment>, b: seq<FreeSegment>, r: nat, k: nat)
    ensures Count(a + b, r, k) == Count(a, r, k) + Count(b, r, k)
    decreases |b|
  {
    if b == [] {
      assert a + b == a;
    } else {
      var init := b[..|b| - 1];
      assert (a + b)[..|a + b| - 1] == a + init;
      CountAppend(a, init, r, k);
    }
  }

  lemma CountOne(x: FreeSegment, r: nat, k: nat)
    ensures Count([x], r, k) == Cover(x, r, k)
  {
    assert [x][..0] == [];
  }

  /** A list of segments all in regions below `|sizes|` covers nothing of
      region `|sizes|`. */
  lemma {:induction false} CountBeyondRegions(s: seq<FreeSegment>, sizes: seq<nat>, k: nat)
    requires AllInBounds(s, sizes)
    ensures Count(s, |sizes|, k) == 0
    decreases |s|
  {
    if s != [] {
      CountBeyondRegions(s[..|s| - 1], sizes, k);
    }
  }

  /** Growing the heap keeps the invariant: the new region is covered by
      exactly the one new free segment. */
  lemma ExpandPreserves(sizes: seq<nat>, fl: seq<FreeSegment>, live: seq<FreeSegment>, n: nat)
    requires PoolInvariant(sizes, fl, live)
    ensures PoolInvariant(sizes + [n], fl + [FreeSegment(|sizes|, 0, n)], live)
  {
    var sizes' := sizes + [n];
    var x := FreeSegment(|sizes|, 0, n);
    var fl' := fl + [x];
    forall i | 0 <= i < |fl'|
      ensures InBounds(fl'[i], sizes')
    {
      if i < |fl| {
        assert fl'[i] == fl[i] && InBounds(fl[i], sizes);
      }
    }
    forall i | 0 <= i < |live|
      ensures InBounds(live[i], sizes')
    {
      assert InBounds(live[i], sizes);
    }
    forall r, k | 0 <= r < |sizes'| && 0 <= k < sizes'[r]
      ensures Count(fl' + live, r, k) == 1
    {
      CountAppend(fl, [x], r, k);
      CountAppend(fl', live, r, k);
      CountAppend(fl, live, r, k);
      CountOne(x, r, k);
      if r == |sizes| {
        CountBeyondRegions(fl, sizes, k);
        CountBeyondRegions(live, sizes, k);
      } else {
        assert sizes'[r] == sizes[r];
      }
    }
  }

  lemma CountSplit3(a: seq<FreeSegment>, x: FreeSegment, b: seq<FreeSegment>, r: nat, k: nat)
    ensures Count(a + [x] + b, r, k) == Count(a, r, k) + Cover(x, r, k) + Count(b, r, k)
  {
    CountAppend(a + [x], b, r, k);
    CountAppend(a, [x], r, k);
    CountOne(x, r, k);
  }

  /** Taking from segment `i` keeps the invariant: the taken range moves
      from the free-list to the live blocks, and a split leaves the rest
      of the segment free. */
  lemma TakePreserves(sizes: seq<nat>, fl: seq<FreeSegment>, live: seq<FreeSegment>, i: nat, needed: nat, ratio: nat)
    requires PoolInvariant(sizes, fl, live)
    requires i < |fl| && fl[i].len >= needed
    ensures PoolInvariant(sizes, AfterTake(fl, i, needed, ratio), live + [TakenSpan(fl[i], needed, ratio)])
  {
    var seg := fl[i];
    var b := TakenSpan(seg, needed, ratio);
    var fl' := AfterTake(fl, i, needed, ratio);
    var live' := live + [b];
    assert fl == fl[..i] + [seg] + fl[i + 1..];
    assert InBounds(seg, sizes);
    forall j | 0 <= j < |live'|
      ensures InBounds(live'[j], sizes)
    {
      if j < |live| {
        assert live'[j] == live[j];
      }
    }
    if TakeWhole(seg.len, needed, ratio) {
      forall j | 0 <= j < |fl'|
        ensures InBounds(fl'[j], sizes)
      {
        if j < i {
          assert fl'[j] == fl[j];
        } else {
          assert fl'[j] == fl[j + 1];
        }
      }
      forall r, k | 0 <= r < |sizes| && 0 <= k < sizes[r]
        ensures Count(fl' + live', r, k) == 1
      {
        CountSplit3(fl[..i], seg, fl[i + 1..], r, k);
        CountAppend(fl[..i], fl[i + 1..], r, k);
        CountAppend(fl', live', r, k);
        CountAppend(live, [b], r, k);
        CountOne(b, r, k);
        CountAppend(fl, live, r, k);
      }
    } else {
      var rest := SplitRest(seg, needed);
      assert fl' == fl[..i] + [rest] + fl[i + 1..];
      forall j | 0 <= j < |fl'|
        ensures InBounds(fl'[j], sizes)
      {
        if j != i {
          assert fl'[j] == fl[j];
        }
      }
      forall r, k | 0 <= r < |sizes| && 0 <= k < sizes[r]
        ensures Count(fl' + live', r, k) == 1
      {
        assert Cover(b, r, k) + Cover(rest, r, k) == Cover(seg, r, k);
        CountSplit3(fl[..i], seg, fl[i + 1..], r, k);
        CountSplit3(fl[..i], rest, fl[i + 1..], r, k);
        CountAppend(fl', live', r, k);
        CountAppend(live, [b], r, k);
        CountOne(b, r, k);
        CountAppend(fl, live, r, k);
      }
    }
  }

  lemma {:induction false} CountInsert(s: seq<FreeSegment>, x: FreeSegment, r: nat, k: nat)
    ensures Count(Insert(s, x), r, k) == Count(s, r, k) + Cover(x, r, k)
    decreases |s|
  {
    if s == [] {
      CountOne(x, r, k);
    } else if KeyLe(s[|s| - 1], x) {
      CountAppend(s, [x], r, k);
      CountOne(x, r, k);
    } else {
      var init := s[..|s| - 1];
      CountInsert(init, x, r, k);
      CountAppend(Insert(init, x), [s[|s| - 1]], r, k);
      CountOne(s[|s| - 1], r, k);
    }
  }

  lemma {:induction false} CountSort(s: seq<FreeSegment>, r: nat, k: nat)
    ensures Count(SortByKey(s), r, k) == Count(s, r, k)
    decreases |s|
  {
    if s != [] {
      CountSort(s[..|s| - 1], r, k);
      CountInsert(SortByKey(s[..|s| - 1]), s[|s| - 1], r, k);
    }
  }

  /** Merging two touching segments covers exactly what the two covered. */
  lemma {:induction false} CountCoalesceFrom(current: FreeSegment, rest: seq<FreeSegment>, r: nat, k: nat)
    ensures Count(CoalesceFrom(current, rest), r, k) == Cover(current, r, k) + Count(rest, r, k)
    decreases |rest|
  {
    if rest == [] {
      CountOne(current, r, k);
    } else {
      assert rest == [rest[0]] + rest[1..];
      CountAppend([rest[0]], rest[1..], r, k);
      CountOne(rest[0], r, k);
      if Touches(current, rest[0]) {
        var merged := FreeSegment(current.regionId, current.start, current.len + rest[0].len);
        assert Cover(merged, r, k) == Cover(current, r, k) + Cover(rest[0], r, k);
        CountCoalesceFrom(merged, rest[1..], r, k);
      } else {
        CountCoalesceFrom(rest[0], rest[1..], r, k);
        CountAppend([current], CoalesceFrom(rest[0], rest[1..]), r, k);
        CountOne(current, r, k);
      }
    }
  }

  lemma {:induction false} CoalesceFromInBounds(current: FreeSegment, rest: seq<FreeSegment>, sizes: seq<nat>)
    requires InBounds(current, sizes) && AllInBounds(rest, sizes)
    ensures AllInBounds(CoalesceFrom(current, rest), sizes)
    decreases |rest|
  {
    if rest != [] {
      assert InBounds(rest[0], sizes);
      assert AllInBounds(rest[1..], sizes) by {
        forall j | 0 <= j < |rest[1..]|
          ensures InBounds(rest[1..][j], sizes)
        {
          assert rest[1..][j] == rest[j + 1];
        }
      }
      if Touches(current, rest[0]) {
        CoalesceFromInBounds(FreeSegment(current.regionId, current.start, current.len + rest[0].len), rest[1..], sizes);
      } else {
        CoalesceFromInBounds(rest[0], rest[1..], sizes);
        var tail := CoalesceFrom(rest[0], rest[1..]);
        forall j | 0 <= j < |[current] + tail|
          ensures InBounds(([current] + tail)[j], sizes)
        {
          if j > 0 {
            assert ([current] + tail)[j] == tail[j - 1];
          }
        }
      }
    }
  }

  /** The live list with the first occurrence of `x` removed. */
  function RemoveOne(s: seq<FreeSegment>, x: FreeSegment): (r: seq<FreeSegment>)
    requires x in s
    ensures |r| == |s| - 1
    ensures multiset(r) == multiset(s) - multiset{x}
  {
    if s[0] == x then
      assert s == [s[0]] + s[1..];
      s[1..]
    else
      assert s == [s[0]] + s[1..];
      [s[0]] + RemoveOne(s[1..], x)
  }

  lemma {:induction false} CountRemoveOne(s: seq<FreeSegment>, x: FreeSegment, r: nat, k: nat)
    requires x in s
    ensures Count(RemoveOne(s, x), r, k) + Cover(x, r, k) == Count(s, r, k)
    decreases |s|
  {
    assert s == [s[0]] + s[1..];
    CountAppend([s[0]], s[1..], r, k);
    CountOne(s[0], r, k);
    if s[0] != x {
      CountRemoveOne(s[1..], x, r, k);
      CountAppend([s[0]], RemoveOne(s[1..], x), r, k);
    }
  }

  /** Membership in a list whose elements are all in bounds. */
  lemma InBoundsOfMember(s: seq<FreeSegment>, x: FreeSegment, sizes: seq<nat>)
    requires AllInBounds(s, sizes) && x in multiset(s)
    ensures InBounds(x, sizes)
  {
    var i :| 0 <= i < |s| && s[i] == x;
  }

  /** Every segment of the released free-list lies in its region. */
  lemma ReleasedInBounds(sizes: seq<nat>, fl: seq<FreeSegment>, x: FreeSegment)
    requires AllInBounds(fl, sizes) && InBounds(x, sizes)
    ensures AllInBounds(Released(fl, x), sizes)
  {
    var grown := fl + [x];
    var sorted := SortByKey(grown);
    SortByKeyPermutes(grown);
    forall j | 0 <= j < |sorted|
      ensures InBounds(sorted[j], sizes)
    {
      assert sorted[j] in multiset(grown);
      forall m | 0 <= m < |grown|
        ensures InBounds(grown[m], sizes)
      {
        if m < |fl| {
          assert grown[m] == fl[m];
        }
      }
      InBoundsOfMember(grown, sorted[j], sizes);
    }
    assert sorted != [];
    assert AllInBounds(sorted[1..], sizes) by {
      forall j | 0 <= j < |sorted[1..]|
        ensures InBounds(sorted[1..][j], sizes)
      {
        assert sorted[1..][j] == sorted[j + 1];
      }
    }
    CoalesceFromInBounds(sorted[0], sorted[1..], sizes);
  }

  /** Removing a block keeps the rest of the live list in bounds. */
  lemma RemoveOneInBounds(sizes: seq<nat>, live: seq<FreeSegment>, x: FreeSegment)
    requires AllInBounds(live, sizes) && x in live
    ensures AllInBounds(RemoveOne(live, x), sizes)
  {
    var live' := RemoveOne(live, x);
    forall j | 0 <= j < |live'|
      ensures InBounds(live'[j], sizes)
    {
      assert live'[j] in multiset(live');
      assert live'[j] in multiset(live);
      InBoundsOfMember(live, live'[j], sizes);
    }
  }

  /** Moving a block from the live list into the free-list, sorting and
      merging, leaves the number of entries covering each byte unchanged. */
  lemma ReleaseCount(fl: seq<FreeSegment>, live: seq<FreeSegment>, x: FreeSegment, r: nat, k: nat)
    requires x in live
    ensures Count(Released(fl, x) + RemoveOne(live, x), r, k) == Count(fl + live, r, k)
  {
    var grown := fl + [x];
    var sorted := SortByKey(grown);
    assert sorted != [];
    assert sorted == [sorted[0]] + sorted[1..];
    CountAppend(Released(fl, x), RemoveOne(live, x), r, k);
    CountAppend([sorted[0]], sorted[1..], r, k);
    CountOne(sorted[0], r, k);
    CountCoalesceFrom(sorted[0], sorted[1..], r, k);
    CountSort(grown, r, k);
    CountAppend(fl, [x], r, k);
    CountOne(x, r, k);
    CountRemoveOne(live, x, r, k);
    CountAppend(fl, live, r, k);
  }

  /** Releasing a live block keeps the invariant: its range moves back to
      the free-list, which is then sorted and coalesced. */
  lemma ReleasePreserves(sizes: seq<nat>, fl: seq<FreeSegment>, live: seq<FreeSegment>, x: FreeSegment)
    requires PoolInvariant(sizes, fl, live)
    requires x in live
    ensures PoolInvariant(sizes, Released(fl, x), RemoveOne(live, x))
  {
    InBoundsOfMember(live, x, sizes);
    ReleasedInBounds(sizes, fl, x);
    RemoveOneInBounds(sizes, live, x);
    forall r, k | 0 <= r < |sizes| && 0 <= k < sizes[r]
      ensures Count(Released(fl, x) + RemoveOne(live, x), r, k) == 1
    {
      ReleaseCount(fl, live, x, r, k);
    }
  }


  // ---------------------------------------------------------------------
  // Conservation and disjointness, from the coverage invariant
  // ---------------------------------------------------------------------

  /** The bytes that the segments of `s` in region `r` hold. */
  function RegionBytes(s: seq<FreeSegment>, r: nat): nat
    decreases |s|
  {
    if s == [] then 0
    else RegionBytes(s[..|s| - 1], r) + (if s[|s| - 1].regionId == r then s[|s| - 1].len else 0)
  }

  /** `sum over k < n of Cover(x, r, k)`. */
  function SumCover(x: FreeSegment, r: nat, n: nat): nat
  {
    if n == 0 then 0 else SumCover(x, r, n - 1) + Cover(x, r, n - 1)
  }

  /** `sum over k < n of Count(s, r, k)`. */
  function SumCount(s: seq<FreeSegment>, r: nat, n: nat): nat
  {
    if n == 0 then 0 else SumCount(s, r, n - 1) + Count(s, r, n - 1)
  }

  /** How much of `[0, n)` a segment of region `r` covers. */
  function Overlap(x: FreeSegment, r: nat, n: nat): nat
  {
    if x.regionId != r || n <= x.start then 0
    else if n >= x.End() then x.len
    else n - x.start
  }

  lemma {:induction false} SumCoverIsOverlap(x: FreeSegment, r: nat, n: nat)
    ensures SumCover(x, r, n) == Overlap(x, r, n)
  {
    if n > 0 {
      SumCoverIsOverlap(x, r, n - 1);
    }
  }

  lemma {:induction false} SumCountSnoc(s: seq<FreeSegment>, x: FreeSegment, r: nat, n: nat)
    ensures SumCount(s + [x], r, n) == SumCount(s, r, n) + SumCover(x, r, n)
  {
    if n > 0 {
      SumCountSnoc(s, x, r, n - 1);
      assert (s + [x])[..|s|] == s;
    }
  }

  /** Summing the coverage counts over a region adds up the lengths of its
      segments. */
  lemma {:induction false} SumCountIsBytes(s: seq<FreeSegment>, r: nat, n: nat)
    requires forall i :: 0 <= i < |s| && s[i].regionId == r ==> s[i].End() <= n
    ensures SumCount(s, r, n) == RegionBytes(s, r)
    decreases |s|
  {
    if s == [] {
      SumCountEmpty(r, n);
    } else {
      var init := s[..|s| - 1];
      var x := s[|s| - 1];
      assert s == init + [x];
      SumCountIsBytes(init, r, n);
      SumCountSnoc(init, x, r, n);
      SumCoverIsOverlap(x, r, n);
    }
  }

  lemma {:induction false} SumCountEmpty(r: nat, n: nat)
    ensures SumCount([], r, n) == 0
  {
    if n > 0 {
      SumCountEmpty(r, n - 1);
    }
  }

  lemma {:induction false} SumCountOnes(s: seq<FreeSegment>, r: nat, n: nat)
    requires forall k :: 0 <= k < n ==> Count(s, r, k) == 1
    ensures SumCount(s, r, n) == n
  {
    if n > 0 {
      SumCountOnes(s, r, n - 1);
    }
  }

  lemma {:induction false} RegionBytesAppend(a: seq<FreeSegment>, b: seq<FreeSegment>, r: nat)
    ensures RegionBytes(a + b, r) == RegionBytes(a, r) + RegionBytes(b, r)
    decreases |b|
  {
    if b == [] {
      assert a + b == a;
    } else {
      assert (a + b)[..|a + b| - 1] == a + b[..|b| - 1];
      RegionBytesAppend(a, b[..|b| - 1], r);
    }
  }

  /** Conservation: in every region the free bytes and the bytes of live
      blocks add up to the region's size. */
  lemma Conservation(sizes: seq<nat>, fl: seq<FreeSegment>, live: seq<FreeSegment>, r: nat)
    requires PoolInvariant(sizes, fl, live)
    requires r < |sizes|
    ensures RegionBytes(fl, r) + RegionBytes(live, r) == sizes[r]
  {
    var s := fl + live;
    forall i | 0 <= i < |s| && s[i].regionId == r
      ensures s[i].End() <= sizes[r]
    {
      if i < |fl| {
        assert s[i] == fl[i] && InBounds(fl[i], sizes);
      } else {
        assert s[i] == live[i - |fl|] && InBounds(live[i - |fl|], sizes);
      }
    }
    SumCountIsBytes(s, r, sizes[r]);
    SumCountOnes(s, r, sizes[r]);
    RegionBytesAppend(fl, live, r);
  }

  lemma {:induction false} CountAtLeastOne(s: seq<FreeSegment>, i: nat, r: nat, k: nat)
    requires i < |s| && Covers(s[i], r, k)
    ensures Count(s, r, k) >= 1
    decreases |s|
  {
    if i < |s| - 1 {
      CountAtLeastOne(s[..|s| - 1], i, r, k);
    }
  }

  lemma {:induction false} CountAtLeastTwo(s: seq<FreeSegment>, i: nat, j: nat, r: nat, k: nat)
    requires i < j < |s| && Covers(s[i], r, k) && Covers(s[j], r, k)
    ensures Count(s, r, k) >= 2
    decreases |s|
  {
    if j == |s| - 1 {
      CountAtLeastOne(s[..|s| - 1], i, r, k);
    } else {
      CountAtLeastTwo(s[..|s| - 1], i, j, r, k);
    }
  }

  /** No byte is in two places at once: two different entries of the
      free-list and the live blocks never share a byte. */
  lemma Disjoint(sizes: seq<nat>, fl: seq<FreeSegment>, live: seq<FreeSegment>, i: nat, j: nat, r: nat, k: nat)
    requires PoolInvariant(sizes, fl, live)
    requires i < j < |fl + live|
    ensures !(Covers((fl + live)[i], r, k) && Covers((fl + live)[j], r, k))
  {
    var s := fl + live;
    if Covers(s[i], r, k) && Covers(s[j], r, k) {
      if i < |fl| {
        assert s[i] == fl[i] && InBounds(fl[i], sizes);
      } else {
        assert s[i] == live[i - |fl|] && InBounds(live[i - |fl|], sizes);
      }
      CountAtLeastTwo(s, i, j, r, k);
    }
  }

  /** The total length of a list of segments. */
  function SumLen(s: seq<FreeSegment>): nat
    decreases |s|
  {
    if s == [] then 0 else SumLen(s[..|s| - 1]) + s[|s| - 1].len
  }

  lemma {:induction false} SumLenAppend(a: seq<FreeSegment>, b: seq<FreeSegment>)
    ensures SumLen(a + b) == SumLen(a) + SumLen(b)
    decreases |b|
  {
    if b == [] {
      assert a + b == a;
    } else {
      assert (a + b)[..|a + b| - 1] == a + b[..|b| - 1];
      SumLenAppend(a, b[..|b| - 1]);
    }
  }

  lemma SumLenOne(x: FreeSegment)
    ensures SumLen([x]) == x.len
  {
    assert [x][..0] == [];
  }

  lemma {:induction false} SumLenInsert(s: seq<FreeSegment>, x: FreeSegment)
    ensures SumLen(Insert(s, x)) == SumLen(s) + x.len
    decreases |s|
  {
    if s != [] && !KeyLe(s[|s| - 1], x) {
      SumLenInsert(s[..|s| - 1], x);
    }
  }

  lemma {:induction false} SumLenSort(s: seq<FreeSegment>)
    ensures SumLen(SortByKey(s)) == SumLen(s)
    decreases |s|
  {
    if s != [] {
      SumLenSort(s[..|s| - 1]);
      SumLenInsert(SortByKey(s[..|s| - 1]), s[|s| - 1]);
    }
  }

  lemma {:induction false} SumLenCoalesceFrom(current: FreeSegment, rest: seq<FreeSegment>)
    ensures SumLen(CoalesceFrom(current, rest)) == current.len + SumLen(rest)
    decreases |rest|
  {
    if rest == [] {
      SumLenOne(current);
    } else {
      assert rest == [rest[0]] + rest[1..];
      SumLenAppend([rest[0]], rest[1..]);
      SumLenOne(rest[0]);
      if Touches(current, rest[0]) {
        SumLenCoalesceFrom(FreeSegment(current.regionId, current.start, current.len + rest[0].len), rest[1..]);
      } else {
        SumLenCoalesceFrom(rest[0], rest[1..]);
        SumLenAppend([current], CoalesceFrom(rest[0], rest[1..]));
        SumLenOne(current);
      }
    }
  }

  /** Release returns exactly the block's length to the free-list. */
  lemma ReleasedGrowsByLen(fl: seq<FreeSegment>, x: FreeSegment)
    ensures SumLen(Released(fl, x)) == SumLen(fl) + x.len
  {
    var sorted := SortByKey(fl + [x]);
    SumLenSort(fl + [x]);
    SumLenAppend(fl, [x]);
    SumLenOne(x);
    assert sorted == [sorted[0]] + sorted[1..];
    SumLenAppend([sorted[0]], sorted[1..]);
    SumLenOne(sorted[0]);
    SumLenCoalesceFrom(sorted[0], sorted[1..]);
  }

  lemma SumLenAround(a: seq<FreeSegment>, x: FreeSegment, b: seq<FreeSegment>)
    ensures SumLen(a + [x] + b) == SumLen(a) + x.len + SumLen(b)
  {
    SumLenAppend(a + [x], b);
    SumLenAppend(a, [x]);
    SumLenOne(x);
  }

  lemma SumLenSplit(fl: seq<FreeSegment>, i: nat)
    requires i < |fl|
    ensures SumLen(fl) == SumLen(fl[..i]) + fl[i].len + SumLen(fl[i + 1..])
  {
    var before, x, after := fl[..i], fl[i], fl[i + 1..];
    assert before + [x] + after == fl;
    SumLenAround(before, x, after);
  }

  lemma SumLenRemove(fl: seq<FreeSegment>, i: nat)
    requires i < |fl|
    ensures SumLen(fl[..i] + fl[i + 1..]) + fl[i].len == SumLen(fl)
  {
    SumLenSplit(fl, i);
    SumLenAppend(fl[..i], fl[i + 1..]);
  }

  lemma SumLenReplace(fl: seq<FreeSegment>, i: nat, x: FreeSegment)
    requires i < |fl|
    ensures SumLen(fl[i := x]) + fl[i].len == SumLen(fl) + x.len
  {
    var r := fl[i := x];
    SumLenSplit(fl, i);
    SumLenSplit(r, i);
    assert r[..i] == fl[..i];
    assert r[i + 1..] == fl[i + 1..];
  }

  /** Taking a block removes exactly the block's length from the free-list. */
  lemma AfterTakeShrinksByLen(fl: seq<FreeSegment>, i: nat, needed: nat, ratio: nat)
    requires i < |fl| && fl[i].len >= needed
    ensures SumLen(AfterTake(fl, i, needed, ratio)) + TakenSpan(fl[i], needed, ratio).len == SumLen(fl)
  {
    if TakeWhole(fl[i].len, needed, ratio) {
      SumLenRemove(fl, i);
    } else {
      SumLenReplace(fl, i, SplitRest(fl[i], needed));
    }
  }

  // ---------------------------------------------------------------------
  // Reading and writing region bytes
  // ---------------------------------------------------------------------

  /** The region after `data` is copied in at `start`. */
  function Overwrite(region: seq<byte>, start: nat, data: seq<byte>): (r: seq<byte>)
    requires start + |data| <= |region|
    ensures |r| == |region|
  {
    region[..start] + data + region[start + |data|..]
  }

  /** Reading back what was written returns it. */
  lemma ReadAfterWrite(region: seq<byte>, start: nat, data: seq<byte>)
    requires start + |data| <= |region|
    ensures Overwrite(region, start, data)[start..start + |data|] == data
  {
  }

  /** Bytes outside the written range keep their value. */
  lemma WriteFrame(region: seq<byte>, start: nat, data: seq<byte>, k: nat)
    requires start + |data| <= |region|
    requires k < |region| && (k < start || k >= start + |data|)
    ensures Overwrite(region, start, data)[k] == region[k]
  {
  }

  /** A write of at most a live block's length at the block's start leaves
      the bytes of every other live block as they were. */
  lemma WriteWithinIsolation(regions: seq<seq<byte>>, fl: seq<FreeSegment>, live: seq<FreeSegment>,
                             i: nat, j: nat, data: seq<byte>)
    requires PoolInvariant(Sizes(regions), fl, live)
    requires i < |live| && j < |live| && i != j
    requires |data| <= live[i].len
    ensures InBounds(live[i], Sizes(regions)) && InBounds(live[j], Sizes(regions))
    ensures var a := live[i];
            var b := live[j];
            var written := regions[a.regionId := Overwrite(regions[a.regionId], a.start, data)];
            written[b.regionId][b.start..b.End()] == regions[b.regionId][b.start..b.End()]
  {
    var sizes := Sizes(regions);
    var a := live[i];
    var b := live[j];
    assert InBounds(a, sizes) && InBounds(b, sizes);
    var written := regions[a.regionId := Overwrite(regions[a.regionId], a.start, data)];
    if b.regionId == a.regionId {
      var r := a.regionId;
      var s := fl + live;
      assert s[|fl| + i] == a && s[|fl| + j] == b;
      forall k | b.start <= k < b.End()
        ensures written[r][k] == regions[r][k]
      {
        if i < j {
          Disjoint(sizes, fl, live, |fl| + i, |fl| + j, r, k);
        } else {
          Disjoint(sizes, fl, live, |fl| + j, |fl| + i, r, k);
        }
        assert Covers(b, r, k);
        WriteFrame(regions[r], a.start, data, k);
      }
    }
  }

  /** Every live block lies inside its region and shares no byte with any
      free segment. */
  lemma LiveBlockApart(sizes: seq<nat>, fl: seq<FreeSegment>, live: seq<FreeSegment>, j: nat)
    requires PoolInvariant(sizes, fl, live)
    requires j < |live|
    ensures InBounds(live[j], sizes)
    ensures forall i, k :: 0 <= i < |fl| && Covers(fl[i], live[j].regionId, k) ==>
              !Covers(live[j], live[j].regionId, k)
  {
    var s := fl + live;
    assert s[|fl| + j] == live[j];
    forall i, k | 0 <= i < |fl| && Covers(fl[i], live[j].regionId, k)
      ensures !Covers(live[j], live[j].regionId, k)
    {
      assert s[i] == fl[i];
      Disjoint(sizes, fl, live, i, |fl| + j, live[j].regionId, k);
    }
  }
}
