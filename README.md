# feml memory layer in Dafny

This project models the memory layer under feml's tensor storage and proves properties of it.

- **Segmented pool allocator** (`src/memory_manager.rs`).
  - A `MemoryManager` owns growable zero-filled byte regions and a free-list of `(region_id, start, len)` segments.
  - It hands out `MemoryBlock`s by first fit. It either takes a segment whole or splits the block off its front.
  - On a miss it grows the heap once and retries.
  - On release it sorts the free-list by `(region_id, start)` and merges segments that touch.
- **Bump arena** (`src/common/context.rs`, and its private copy in `src/context/context.rs`). It packs object descriptors end to end, each padded to 16 bytes.
- **Padding mask** `feml_pad!` (`src/utils/pad.rs`).
- **Tensor size and stride arithmetic** of `feml_nbytes` and `feml_new_tensor` (`src/common/tensor.rs`).
- **Element-type trait table** and its lookups (`src/types/type_traits.rs`).
- **Zero-filled `MemoryBuffer`** (`src/common/buf.rs`).
- **Error value** with its builder, `source`, the `From` conversions and its `Display` text (`src/error.rs`).

Modules, one per source file:

- `Wrappers` in `wrappers.dfy`: `Option`
- `Pad` in `pad.dfy`: `src/utils/pad.rs`
- `Buf` in `buf.dfy`: `src/common/buf.rs`
- `TypeTraits` in `type_traits.dfy`: `src/types/type_traits.rs`
- `ErrorModel` in `error.dfy`: `src/error.rs`
- `Arena` in `arena.dfy`: `src/common/context.rs`
- `ArenaPrivate` in `arena_private.dfy`: `src/context/context.rs`
- `Tensor` in `tensor.dfy`: `src/common/tensor.rs`
- `PoolSpec` in `pool_spec.dfy`: value-level specification of `src/memory_manager.rs`
- `Pool` in `memory_manager.dfy`: the `MemoryManager` and `MemoryBlock` classes
- `PoolScenarios` in `pool_scenarios.dfy`: the allocator's own test scenarios, derived from the contracts

## How the pool is modelled

`Pool.MemoryManager` is a class, and its methods update the fields in place.

Its fields:
- `regions: seq<seq<bv8>>`
- `freeList: seq<FreeSegment>`
- `defaultPageSize`
- the constant `sizeCompareRatio`
- `alive`: false once the last strong handle is dropped, so a block's weak handle no longer upgrades.
- the ghost list `live` of ranges handed out and not yet released.

`PoolSpec` defines the specification functions (`FirstFit`, `TakenSpan`, `AfterTake`, `AllocOutcome`, `SortByKey`, `Coalesce`, `Released`, `Overwrite`). Every method's `ensures` ties the new state to them.

The class invariant is `PoolSpec.PoolInvariant`:
- every free segment and every live block lies inside its region;
- every byte of every region is covered by exactly one of them.

Per-region conservation of bytes and the disjointness of blocks are derived from it by lemmas.

`release` uses the library's stable `sort_by`. It is modelled by `SortByKey`, a stable insertion sort; every stable sort on the same key gives this same order. The merge loop that follows is imperative: `Pool.MemoryManager.CoalesceSorted`.

## Model

| member | source | states |
|---|---|---|
| `Pad.AndNotLowBits` | src/utils/pad.rs:6 | for a power of two `n`, clearing the low bits `n-1` of `y` gives `(y/n)*n` |
| `Pad.PadMaskAtMost` | src/utils/pad.rs:6 | `PadMask`, for any `n >= 1`: the mask only clears bits of `x + n - 1`, so the padded value never exceeds it, and with `n == 1` it is `x` itself; for powers of two `Pad.PadMaskIsRoundUp` gives its exact value |
| `Pad.PadMaskIsRoundUp` | src/utils/pad.rs:6 | for a power of two `n`, `(x+n-1) & !(n-1)` equals `((x+n-1)/n)*n`, the smallest multiple of `n` not below `x` |
| `Pad.PadMaskBounds` | src/utils/pad.rs:6 | the padded value is a multiple of `n` and lies in `[x, x+n)` |
| `Pad.PadMaskFixed` | src/utils/pad.rs:6 | padding leaves `x` unchanged exactly when `x` is already a multiple of `n` |
| `Pad.PadMaskIdempotent` | src/utils/pad.rs:6 | padding twice is padding once |
| `Pad.MemAlignIsPowerOfTwo` | src/utils/pad.rs:1 | FEML_MEM_ALIGN (16) is a power of two, so the lemmas above apply to it |
| `Buf.NewBuffer` | src/common/buf.rs:8-13 | `new(size)` records `size`, and its buffer has `size` bytes, all zero |
| `Buf.MemoryBuffer.IsEmpty` | src/common/buf.rs:15-17 | `is_empty` asks the byte vector: a buffer is empty exactly when it holds no bytes, whatever `size` records |
| `Buf.NewBufferEmpty` | src/common/buf.rs:15-17 | a new buffer is empty exactly when `size == 0` |
| `TypeTraits.TableShape` | src/types/type_traits.rs:12-27 | the table has FEML_TYPE_COUNT = 2 entries: f32 of 4 bytes then f16 of 2 bytes, both with block size 1 and not quantized |
| `TypeTraits.BlockSize` | src/types/type_traits.rs:30-32 | lookup by discriminant; only discriminants below 2 can be looked up, and every entry has block size 1 |
| `TypeTraits.TypeSize` | src/types/type_traits.rs:34-36 | lookup by discriminant: `TensorUnknown` gets 4 bytes and `TensorTypeF32` gets 2 |
| `TypeTraits.RowSize` | src/types/type_traits.rs:38-41 | asserts that `ne` is a multiple of the block size; the row is `type_size * ne` bytes |
| `TypeTraits.LookupOffByOne` | src/types/type_traits.rs:30-36 | as written, `TensorTypeF32` reads the f16 entry and `TensorTypeF16` is past the end of the table |
| `TypeTraits.EntryOf` | src/types/type_traits.rs:12-36 | corrected lookup: each known type gets the entry that carries its own name |
| `TypeTraits.CorrectedTypeSize` | src/types/type_traits.rs:34-36 | corrected: f32 is 4 bytes and f16 is 2 |
| `TypeTraits.CorrectedBlockSize` | src/types/type_traits.rs:30-32 | corrected: block size 1 for both known types |
| `TypeTraits.CorrectedRowSize` | src/types/type_traits.rs:38-41 | corrected: a row is the type's own size times `ne` |
| `ErrorModel.NewError` | src/error.rs:108-110 | `Error::new(k)` has kind `k`, no context and no path |
| `ErrorModel.FromMessage` | src/error.rs:123-125 | `Error::msg(m)` has kind `Msg(m)`, no context and no path |
| `ErrorModel.AddContext` | src/error.rs:142-145 | `context(c)` keeps the earlier contexts in order, puts `c` last, and leaves kind and path alone |
| `ErrorModel.WithPath` | src/error.rs:157-160 | `with_path(p)` sets the path to `p` and changes nothing else |
| `ErrorModel.FromIoError` | src/error.rs:266-270 | converting an I/O error gives an `Io` kind with no context and no path |
| `ErrorModel.FromParseIntError` | src/error.rs:279-283 | converting an integer-parse error gives a `ParseInt` kind with no context and no path |
| `ErrorModel.Source` | src/error.rs:250-256 | `source()` is present exactly for `Io` and `ParseInt`, and it is the wrapped error |
| `ErrorModel.KindText` | src/error.rs:216-238 | I/O, parse and message errors print their own text verbatim; a dtype error starts with its message, an unsupported-op error ends with the op name, and a rank error ends with the `)` that closes the shape |
| `ErrorModel.ErrorText` | src/error.rs:189-210 | the text of an error starts with the text of its kind, and is exactly that when there is no context and no path |
| `ErrorModel.BuilderChain` | src/error.rs:333-341 | `msg(m).context(c1).context(c2).with_path(p)` has contexts `[c1, c2]`, path `p` and kind `Msg(m)` |
| `ErrorModel.Decimal` | src/error.rs:228 | a `usize` is written as a non-empty string of decimal digits with no leading zero |
| `ErrorModel.DecimalRoundTrip` | src/error.rs:228 | reading the decimal text of `n` back gives `n` |
| `ErrorModel.UnescapeEscape` | src/error.rs:201 | undoing the debug escaping of a path gives the path back |
| `ErrorModel.QuoteRoundTrip` | src/error.rs:201 | a debug-quoted path starts and ends with `"` and unquotes to the path |
| `ErrorModel.EscapePlain` | src/error.rs:201 | text with no quote, backslash, newline, carriage return, tab or NUL is written verbatim inside the quotes |
| `ErrorModel.Fmt` | src/error.rs:189-210 | the formatter loop writes the kind, then one context line per context in order, then the path line |
| `ErrorModel.WriteContexts` | src/error.rs:195-197 | the context loop appends one `"\ncontext: "` line per context, in order, to the text so far |
| `ErrorModel.DisplayAddContext` | src/error.rs:195-197 | with no path, adding a context appends exactly `"\ncontext: " + c` to the text |
| `ErrorModel.DisplayWithPath` | src/error.rs:200-202 | the quoted path line comes after every context line |
| `ErrorModel.DisplayMessage` | src/error.rs:235 | a bare `Msg(m)` error displays as `m` exactly |
| `ErrorModel.ContextLinesTwo` | src/error.rs:195-197 | two contexts give two `"\ncontext: "` lines, oldest first |
| `ErrorModel.DisplayLayout` | src/error.rs:411-421 | message, two contexts and a plain path display as the message, both context lines in order, then `"\npath: "` and the quoted path |
| `Arena.InitMemorySize` | src/common/context.rs:26-37 | the capacity is positive: a zero request becomes 16 and any other request is kept unpadded, with or without a caller buffer |
| `Arena.PaddedSize` | src/common/context.rs:55 | the stored object size is a multiple of 16 in `[size, size+16)` |
| `Arena.PackedEndIsTotal` | src/common/context.rs:53-72 | in a packed object list the bump cursor is the sum of the sizes, is a multiple of 16, and bounds every object |
| `Arena.AppendKeepsPacked` | src/common/context.rs:65-72 | appending the new object at the cursor keeps the objects contiguous from offset 0 |
| `Arena.ObjectEndAfterAppend` | src/common/context.rs:53-72 | the bump cursor is 0 in an empty arena and, after an append, the end of the object just appended |
| `Arena.FemlContext.constructor` | src/common/context.rs:26-45 | `new` records the capacity above and the caller's buffer, with no objects and `n_objects == 0` |
| `Arena.NewObject` | src/common/context.rs:48-73 | appends exactly one object, at the end of the last one (or 0), with the padded size; returns it as `Some`; earlier objects and `n_objects` are unchanged; running past capacity is only flagged |
| `Arena.OverCapacityStillAppends` | src/common/context.rs:57-72 | a 20-byte object in a 16-byte arena is padded to 32, flagged over capacity, and still appended and returned |
| `ArenaPrivate.FemlContext.constructor` | src/context/context.rs:26-45 | the private copy of `new`: the same capacity, buffer, no objects and `n_objects == 0` |
| `ArenaPrivate.NewObject` | src/context/context.rs:48-73 | the private copy of `feml_new_object`: the same append at the cursor with padded size, returned even past capacity |
| `Tensor.NBytes` | src/common/tensor.rs:27-53 | the loops compute 0 when one of `ne[0..3)` is 0; otherwise, with block size 1, the type size plus `(ne[i]-1)*nb[i]` over `i < 3`; otherwise the first row's blocks plus those terms over `1 <= i < 3` |
| `Tensor.NBytesOfBounds` | src/common/tensor.rs:27-53 | `NBytesOf`: a tensor with a zero among its first three extents spans 0 bytes; otherwise it spans at least one element (block size 1) or the first row's blocks |
| `Tensor.AddStrideSteps` | src/common/tensor.rs:36-49 | the stride loop adds `(ne[i]-1)*nb[i]` for every axis from `lo` on whose extent exceeds 1, to the starting count |
| `Tensor.FlattenView` | src/common/tensor.rs:68-73 | flattening keeps a view a view and addresses the same root tensor and offset; it removes exactly one level from a view of a view and leaves anything shallower unchanged |
| `Tensor.FlattenOneLevelOnly` | src/common/tensor.rs:68-73 | a view three deep still has a view source after flattening |
| `Tensor.DataSize` | src/common/tensor.rs:75-78 | the data size is the row size times the product of `ne[1..dims)` |
| `Tensor.ObjAllocSize` | src/common/tensor.rs:86-90 | a view, or a tensor in a context with a caller buffer, reserves no inline bytes; any other tensor reserves all its data bytes |
| `Tensor.PlaceTensor` | src/common/tensor.rs:86-96 | the arena gains exactly one tensor object, at the old cursor, of the padded size of the header plus the inline bytes |
| `Tensor.Extents` | src/common/tensor.rs:102-125 | the first `dims` extents come from the request and the rest stay 1 |
| `Tensor.ShapeOf` | src/common/tensor.rs:101-125 | the copy loop over `ne = [1, 1, 1, 1]` gives exactly `Extents`: the requested extents first, then 1 |
| `Tensor.Strides` | src/common/tensor.rs:127-131 | `nb[0]` is the type size, `nb[1] = nb[0]*(ne[0]/block)`, `nb[2] = nb[1]*ne[1]`, and `nb[3]` stays 0 |
| `Tensor.RowMajorStridesContiguous` | src/common/tensor.rs:126-130 | `RowMajorStrides`: `nb[0]` is the type size and `nb[3]` stays 0; with block size 1 the strides are the contiguous products `type_size*ne[0]` and `type_size*ne[0]*ne[1]` |
| `Tensor.ContiguousNBytes` | src/common/tensor.rs:27-41 | with block size 1 and these strides, the byte count is the type size times `ne[0]*ne[1]*ne[2]` |
| `Tensor.NewTensor` | src/common/tensor.rs:55-131 | asks the arena for FEML_TENSOR_SIZE plus the inline data size (the data size only for a non-view in a context without buffer); sets type, extents, strides, a zeroed op and flags, no sources, and the flattened view |
| `PoolSpec.Zeros` | src/memory_manager.rs:112 | a new region holds `n` zero bytes |
| `PoolSpec.NeededSizeBounds` | src/memory_manager.rs:136 | with zero padding the request is kept; with power-of-two padding it becomes a multiple of the padding in `[size, size+padding)` |
| `PoolSpec.NeededSizeAnyPadding` | src/memory_manager.rs:136 | `NeededSize`, for any padding: zero padding keeps the request as it is; any other padding adds fewer than `padding` bytes |
| `PoolSpec.GrowthSizeIsMax` | src/memory_manager.rs:102 | `GrowthSize`: the grown region is `max(default_page_size, min_size)`: at least both, and equal to one of them |
| `PoolSpec.ThresholdBounds` | src/memory_manager.rs:149-151 | `Threshold`: with ratio 0 the threshold is 0; with any ratio up to 256 it never exceeds the segment's length, saturation included |
| `PoolSpec.TakeWholeFits` | src/memory_manager.rs:154-155 | `TakeWhole`: a segment is only ever taken whole when it fits the request |
| `PoolSpec.FullRatioWholeOnlyOnExactFit` | src/memory_manager.rs:149-156 | with ratio 256, below saturation, a segment is taken whole exactly when it fits exactly |
| `PoolSpec.ZeroRatioAlwaysWhole` | src/context.rs:33 | with ratio 0, the ratio the context uses, every fitting segment is taken whole |
| `PoolSpec.FirstFit` | src/memory_manager.rs:141 | the index found is the lowest one whose segment is long enough, and there is none exactly when no segment is long enough |
| `PoolSpec.FirstFitAfterGrowth` | src/memory_manager.rs:138-188 | after a miss, the segment that growth appends is the first fit, so the second pass always succeeds |
| `PoolSpec.TakenSpan` | src/memory_manager.rs:143-183 | the block starts where the segment starts; taken whole it gets the segment's whole length, otherwise exactly the needed size; never less than needed |
| `PoolSpec.AfterTakeShape` | src/memory_manager.rs:154-171 | `AfterTake`: the entries before the fit stay in place; taken whole, the fitting entry goes and the rest close up in order; split, only the fitting slot changes, to what is left after the block |
| `PoolSpec.AfterTakeShrinksByLen` | src/memory_manager.rs:143-183 | taking a block removes exactly the block's length from the total free length |
| `PoolSpec.AllocOutcome` | src/memory_manager.rs:135-191 | the block `alloc` returns is at least the needed size |
| `PoolSpec.AllocTakesFirstFit` | src/memory_manager.rs:141-183 | when some segment fits, the block comes from the lowest-index one and no region is added |
| `PoolSpec.AllocGrowsOnMiss` | src/memory_manager.rs:186-187 | when nothing fits, one zero region of `max(default_page_size, needed)` is added, the block is at offset 0 of it, and the earlier free segments stay in place |
| `PoolSpec.SortByKeySorted` | src/memory_manager.rs:207-210 | the sort orders the free-list by region, then start |
| `PoolSpec.SortByKeyPermutes` | src/memory_manager.rs:207-210 | the sort only reorders: the multiset of segments is unchanged |
| `PoolSpec.SortByKey` | src/memory_manager.rs:207-210 | the sort keeps the number of segments; `PoolSpec.SortByKeySorted` and `PoolSpec.SortByKeyPermutes` state its order and that it only reorders |
| `PoolSpec.CoalesceFromLength` | src/memory_manager.rs:213-225 | `CoalesceFrom`: merging from an accumulating segment yields at least one segment and never more than it started with |
| `PoolSpec.CoalesceLength` | src/memory_manager.rs:212-225 | `Coalesce`: the merge pass never lengthens the list and leaves a non-empty list non-empty |
| `PoolSpec.ReleasedLength` | src/memory_manager.rs:200-227 | `Released`: after `release` the free-list holds at least one segment and at most one more than before |
| `PoolSpec.CoalesceFromNoTouch` | src/memory_manager.rs:213-225 | after merging, no two neighbours are in one region with `end == next.start` |
| `PoolSpec.CoalesceFromSorted` | src/memory_manager.rs:213-225 | merging a sorted list keeps it sorted |
| `PoolSpec.ReleasedSortedAndCoalesced` | src/memory_manager.rs:200-227 | after `release` the free-list is sorted by `(region_id, start)` and no neighbours touch |
| `PoolSpec.ReleasedGrowsByLen` | src/memory_manager.rs:200-227 | `release` grows the total free length by exactly the block's length |
| `PoolSpec.ExpandPreserves` | src/memory_manager.rs:99-120 | growth keeps every byte covered exactly once: the new region is covered by its one new free segment |
| `PoolSpec.TakePreserves` | src/memory_manager.rs:143-183 | taking a block keeps every byte covered exactly once: the range moves from the free-list to the live blocks, and a split leaves the rest free |
| `PoolSpec.ReleasePreserves` | src/memory_manager.rs:200-227 | releasing a live block keeps every byte covered exactly once |
| `PoolSpec.Conservation` | src/memory_manager.rs:99-227 | in every region, free bytes plus live-block bytes equal the region's size |
| `PoolSpec.Disjoint` | src/memory_manager.rs:141-183 | no byte is in two free segments or blocks at once |
| `PoolSpec.LiveBlockApart` | src/memory_manager.rs:141-183 | a block lies inside its region and shares no byte with any free segment |
| `PoolSpec.Overwrite` | src/memory_manager.rs:260-272 | a write keeps the region's length |
| `PoolSpec.ReadAfterWrite` | src/memory_manager.rs:240-272 | reading back the written range returns the data written |
| `PoolSpec.WriteFrame` | src/memory_manager.rs:260-272 | a write changes no byte outside `[start, start+len(data))` |
| `PoolSpec.WriteWithinIsolation` | src/memory_manager.rs:293-297 | corrected block write: a write no longer than the block leaves every other live block's bytes unchanged |
| `Pool.MemoryManager.constructor` | src/memory_manager.rs:79-92 | `new(initial, ratio)` has one zero region of `initial` bytes, the free-list `[(0, 0, initial)]`, `default_page_size == initial`, and no blocks |
| `Pool.MemoryManager.ExpandHeapInternal` | src/memory_manager.rs:99-123 | appends a zero region of `max(default_page_size, min)` bytes with id `old regions.len()`, plus one free segment spanning it; nothing else changes |
| `Pool.MemoryManager.FindFirstFit` | src/memory_manager.rs:141 | the search loop returns the first fit |
| `Pool.MemoryManager.TryTake` | src/memory_manager.rs:139-184 | one pass of the loop: `None` with nothing changed when no segment fits, otherwise a fresh block over the first fit's `TakenSpan`, with the free-list `AfterTake` and the block recorded live; the invariant holds either way |
| `Pool.MemoryManager.TakeSegment` | src/memory_manager.rs:143-183 | removes the segment or shrinks it from the front in place, and records the block as live |
| `Pool.MemoryManager.Alloc` | src/memory_manager.rs:135-191 | the two-pass loop never returns `None`; it leaves the regions, free-list and block of `AllocOutcome` and keeps the invariant |
| `Pool.MemoryManager.CoalesceSorted` | src/memory_manager.rs:212-225 | the merge loop with an accumulating current segment computes `Coalesce` |
| `Pool.MemoryManager.Release` | src/memory_manager.rs:200-227 | the free-list becomes the sorted and merged list with the range added; it is sorted, has no touching neighbours and gains exactly `len` free bytes; the invariant holds |
| `Pool.MemoryManager.ReadMemory` | src/memory_manager.rs:240-251 | returns the `len` bytes from `start`; an unknown region or a range past the region's end panics |
| `Pool.MemoryManager.WriteMemory` | src/memory_manager.rs:260-272 | copies the data in at `start` and changes nothing else; an unknown region or a range past the region's end panics |
| `Pool.MemoryManager.Teardown` | src/memory_manager.rs:14-25 | dropping the last strong handle clears the manager's liveness and nothing else; `PoolScenarios.OrphanedBlock` shows that no block's weak handle upgrades after it |
| `Pool.MemoryBlock.constructor` | src/memory_manager.rs:163-182 | a block records its region, start, length and manager |
| `Pool.MemoryBlock.Read` | src/memory_manager.rs:304-310 | the block's bytes while the manager lives, and empty once it is gone |
| `Pool.MemoryBlock.Write` | src/memory_manager.rs:293-297 | as written: copies into the region at the block's start, bounded only by the region's end; a no-op once the manager is gone |
| `Pool.MemoryBlock.WriteWithin` | src/memory_manager.rs:293-297 | corrected: the same copy, refused when longer than the block |
| `Pool.MemoryBlock.Drop` | src/memory_manager.rs:313-320 | releases the block's range once, while the manager lives, and does nothing after |
| `PoolScenarios.NeededSizeUnpadded` | src/memory_manager.rs:136 | a padding of 1 leaves the request as it is |
| `PoolScenarios.GrowForSecondBlock` | src/memory_manager.rs:344-355 | on a 100-byte pool, two 80-byte requests land at region 0 offset 0, then region 1 offset 0 |
| `PoolScenarios.AutoGrow` | src/memory_manager.rs:342-363 | the second block is in region 1 at offset 0, and the two blocks read back their own first bytes 0xAA and 0xBB |
| `PoolScenarios.LargeAllocationGrows` | src/memory_manager.rs:366-374 | 1000 bytes on a 100-byte pool come whole from a new region 1 |
| `PoolScenarios.FragmentationGrows` | src/memory_manager.rs:377-387 | after 50 and 30 bytes, another 50 come from a region other than 0 |
| `PoolScenarios.FillTwoRegions` | src/memory_manager.rs:410-413 | two 100-byte requests fill region 0 and a new region 1, each taken whole |
| `PoolScenarios.ReleaseReusesRegion` | src/memory_manager.rs:409-424 | once region 0's block is dropped, the next 100 bytes reuse region 0 and no third region is grown |
| `PoolScenarios.FillNext` | src/memory_manager.rs:395-398 | a 40-byte request on 50-byte pages grows a new region, lands at its offset 0 and keeps the bytes written to it |
| `PoolScenarios.FillBlock` | src/memory_manager.rs:397 | writing `[i; 40]` through the block at the head of page `i` fills its first 40 bytes and leaves the earlier regions unchanged |
| `PoolScenarios.FillRound` | src/memory_manager.rs:395-398 | one more round keeps the picture of the rounds so far: block `j` at offset 0 of region `j`, live, its 40 bytes filled with `j`, and only the 10-byte tails free |
| `PoolScenarios.FillFive` | src/memory_manager.rs:391-399 | five rounds give five blocks, each at offset 0 of its own region, each region holding its round's bytes |
| `PoolScenarios.CrossRegionIndependence` | src/memory_manager.rs:390-406 | each of the five blocks reads back exactly the 40 bytes written through it |
| `PoolScenarios.TenSplitsFront` | src/memory_manager.rs:139-184 | with ratio 256, a 10-byte request against a lone free segment of region 0 ending at 100 is split off its front, and no region is added |
| `PoolScenarios.TakeTenAt` | src/memory_manager.rs:135-191 | `alloc(10, 1)` on such a pool returns the block at the segment's start and leaves the segment shortened by 10 |
| `PoolScenarios.TwoAdjacentBlocks` | src/memory_manager.rs:139-184 | on a 100-byte pool with ratio 256, two `alloc(10, 1)` calls split region 0 into adjacent blocks at offsets 0 and 10 |
| `PoolScenarios.BlockWriteOverrun` | src/memory_manager.rs:293-297 | as written: a 20-byte write through the first of two adjacent 10-byte blocks overwrites all of the second block |
| `PoolScenarios.BlockWriteContained` | src/memory_manager.rs:293-297 | corrected: a write through the first of the two blocks reads back from it, and the second block still reads back zeros |
| `PoolScenarios.OrphanedBlock` | src/memory_manager.rs:304-320 | once the manager is torn down, a block reads back nothing, and its write and its drop leave the regions, the free-list and the live blocks as they were |

## Left out

- Fixed-width integers. `usize` arithmetic is unbounded here:
  - the `x + n - 1` of the padding mask;
  - `start + len`;
  - the merged `current.len + next.len`;
  - the tensor size and stride products.

  None of these wrap. The one saturating product the code asks for, `checked_mul(..).unwrap_or(usize::MAX)`, is modelled.
- `Mutex`, `Arc` and `Weak`. The manager is one sequential object. The weak handle is the `alive` flag, and dropping the last strong handle is `Pool.MemoryManager.Teardown`.
- Raw memory. `alloc`/`dealloc`, the out-of-memory panic, `Layout` errors and the pointer copies become byte sequences (`PoolSpec.Zeros`, `PoolSpec.Overwrite`).
- Output that has no effect on the model:
  - the `println!`/`eprintln!` traces;
  - the `Debug` text of `MemoryBlock`.
- `FreeSegment::end` is the member `PoolSpec.FreeSegment.End`. It has no contract of its own; the coalescing lemmas state what it is used for.
- `Pool.MemoryBlock.Read`, `Pool.MemoryBlock.WriteWithin`, `Pool.MemoryBlock.Drop`: each requires the block's range to be among the manager's live blocks. `Drop` also requires that it has not run before. Rust's ownership guarantees both. The model states them as preconditions instead of tracking every block.
- `Pool.MemoryBlock.Write`: requires only that the manager holds its invariant, that the block's region exists and that `start + |data|` is within that region. The last is the `assert!(end <= region.size)` panic of `write_memory`, made a precondition. The block's range need not be live, which is what lets the overrun finding be stated.
- `Pool.MemoryManager.ReadMemory`, `Pool.MemoryManager.WriteMemory`: the panics on an unknown region or an out-of-bounds range are preconditions.
- `Tensor.NewTensor`: the panics of `feml_new_tensor` are preconditions: `tensor_type != TensorUnknown` and `0 < dims < FEML_MAX_DIMS` (its two `assert!`s), `dims <= |ne|` (indexing `ne`), and a non-zero block size (the division in `nb[1]`).
- `Tensor.NewTensor`:
  - it does not place the tensor header in the context's byte buffer;
  - it does not set the `data`, `name` and `extra` pointers;
  - the `unsafe` cast of buffer bytes to a tensor is not modelled.
- `TypeTraits.BlockSize`, `TypeTraits.TypeSize`: indexing the two-entry table with a discriminant of 2 or more panics; the model requires `Discriminant(t) < 2` instead.
- `TypeTraits.RowSize`: requires `Discriminant(t) < 2` for the same index panic, and `ne % BlockSize(t) == 0` for its `assert!`.
- `src/common/type_traits.rs` is not part of this model. `src/common/tensor.rs` takes its trait functions from that file, not from `src/types/type_traits.rs`, so the tensor model takes the type size, the block size and the row-size function as parameters.
- `ErrorModel`: opaque texts.
  - The texts of `io::Error`, `ParseIntError` and the `Debug` text of a shape are kept as given strings.
  - Backtrace capture is left out; with the feature off it is always absent.
- `ErrorModel.Escape`: covers the escapes `{:?}` uses for `"`, `\`, newline, carriage return, tab and NUL. The `\u{..}` escapes for other control characters are not modelled.
- The specification of the arena describes a failing allocation past the capacity. The code only prints a warning and still appends the object and returns it; the model follows the code (`Arena.NewObject`, `Arena.OverCapacityStillAppends`).

## Findings

| source | as written | input that shows it | evidently intended | confidence | as-written member | corrected member |
|---|---|---|---|---|---|---|
| src/types/type_traits.rs:30-36 | the trait table is indexed by the raw discriminant of `TensorType`, whose first variant is `TensorUnknown` | `feml_type_size(TensorTypeF32)` reads the f16 entry (2 bytes); `TensorTypeF16` indexes past the two-entry table and panics | each known type reads its own entry: f32 is 4 bytes, f16 is 2 | high; not executed | `TypeTraits.LookupOffByOne` | `TypeTraits.CorrectedTypeSize` |
| src/memory_manager.rs:293-297 | `MemoryBlock::write` forwards to `write_memory`, which checks the write only against the end of the region | on a 100-byte pool with ratio 256, `alloc(10,1)` twice gives blocks at offsets 0 and 10; writing 20 bytes of 0xAA through the first sets all 10 bytes of the second to 0xAA | a block's write stays within the block's own length | medium; not executed | `PoolScenarios.BlockWriteOverrun` | `Pool.MemoryBlock.WriteWithin` |
