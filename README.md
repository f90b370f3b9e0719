# voxel-rs brick streaming, modelled in Dafny

voxel-rs renders a voxel world by ray marching a sparse **brickgrid** on the
GPU. Every grid cell is a 32-bit word holding a load-state flag (Empty,
Unloaded, Loading, Loaded) and a pointer into the **brickmap cache**. The cache
is a ring of slots, each naming the grid cell it serves and where the cell's
colours live in the **shading table**. The shading table is one flat array of
colour words, handed out by a slab allocator whose buckets hold slots of 512,
256, 128 and 64 words.

Each frame the GPU writes back a list of cells it needs. For each one the CPU
`BrickmapManager` does the following:

1. It culls the 8x8x8 brick at that cell down to its surface voxels, giving 16
   mask words and one packed colour per surface voxel.
2. It claims shading space for the colours.
3. It writes the brick into the next ring slot, evicting the slot's previous
   owner.
4. It points the cell at the slot and releases whatever the cell held before.
5. It stages bounded batches of grid words and brickmaps for upload.

The repository holds two versions of this manager, and both are modelled:

- **Refactored manager** (`src/voxel/brickworld/`): split into `Brickgrid`,
  `BrickmapCache`, `ShadingTableAllocator` and the culling helpers. It advances
  the ring index before writing.
- **Older manager** (`src/voxel/brickmap.rs`): one type. It writes the ring slot
  before advancing, and does its deallocation inside
  `update_brickgrid_element`.

The model is built as follows:

- **Imperative classes.** The stateful structures are classes whose methods
  update fields, as the Rust `&mut self` methods do:
  - `Grid.Brickgrid`;
  - `Cache.BrickmapCache`;
  - `ShadingTable.ShadingBucket` and `ShadingTable.ShadingTableAllocator`;
  - `Manager.BrickmapManager` and `Legacy.BrickmapManager`.
- **The culler** is a method with the source's z/y/x loops, proved equal to a
  geometric definition of "surface voxel".
- **Pure views.** Each manager's state is abstracted to a `Consistency.View`
  value. A request is a pure step function of that value:
  `Consistency.HandleStep` for the refactored manager, `Legacy.Request` for the
  older one. Each manager method is proved to realise its step function, and
  each `ProcessFeedback` to realise the fold of that step over the feedback
  buffer's requests (`Consistency.HandleAll`, `Legacy.RequestAll`).
- **The invariant.** `Consistency.Consistent` says:
  - grid cells and cache slots point at each other;
  - the allocator's live addresses are exactly the offsets the slots hold,
    each held by one slot.

  It is proved preserved by every request of both managers. So the
  error-logging paths (a refused deallocation, a grid-index mismatch, a missing
  cache entry) never fire.

## Model

The functions that only compute a value have no row of their own. Their
meaning is stated by the lemmas and methods about them, which do have rows:

- `Math.To1dIndex` (`src/math.rs:81-83`): `IndexInRange`, `IndexRoundTrip`, `IndexSurjective`, `IndexInjective`, `IndexSteps`.
- `Grid.ElementNew`, `Grid.GetPointer`, `Grid.GetFlag` (`src/voxel/brickworld/brickgrid.rs:31-42`): `ElementRoundTrip`, `ShiftKeepsLow24Bits`, `DefaultElementIsEmpty`, `VoxelUtil.ToBrickgridElement`.
- `VoxelUtil.PackColor` (`src/voxel/brickworld/util.rs:88-91`): `UnpackColor`.
- `VoxelUtil.SurfaceBits` and `VoxelUtil.SurfaceColors` (`src/voxel/brickworld/util.rs:5-104`): `CullInteriorVoxels`, `SurfaceBitsByCoords`, `MaskBit`, `SurfaceByOffsets`, `SurfaceColorsFacts`.
- `Consistency.Admit`, `Consistency.Place`, `Consistency.HandleStep` (`src/voxel/brickworld/brickmap.rs:154-224`): `AdmitPending`, `PlaceLoaded`, `PlaceEmpty`, `HandleStepConsistent`. The manager methods `AdmitBrick`, `PlaceCell`, `ApplyBrick` and `HandleRequest` are proved to realise them.
- `Legacy.Update`, `Legacy.Cleared`, `Legacy.Fill`, `Legacy.Request` (`src/voxel/brickmap.rs:213-314`): `UpdateIsPlace`, `DetachCell`, `EvictOwner`, `ClearedVacant`, `FillConsistent`, `RequestConsistent`. The methods `UpdateBrickgridElement`, `ClearSlot`, `FillSlot`, `LoadBrick` and `HandleRequest` are proved to realise them.
- `Manager.RequestPos` (`src/voxel/brickworld/brickmap.rs:142-143`): `ReqAt`, `Requests`, and both `HandleAt` methods.
- The two `RequestStep` ghost functions: the `HandleRequest` method of their class.

| member | source | states |
|---|---|---|
| Math.IndexInRange | src/math.rs:81-83 | an in-bounds position maps to a flat index below the grid volume |
| Math.IndexRoundTrip | src/math.rs:81-83 | the row-major index of an in-bounds position decodes back to that position |
| Math.IndexSurjective | src/math.rs:81-83 | every flat index below the volume is the index of some in-bounds position |
| Math.IndexInjective | src/math.rs:81-83 | distinct in-bounds positions have distinct flat indices |
| Math.IndexSteps | src/math.rs:81-83 | a unit step in x, y or z moves the index by 1, `dim.x` or `dim.x * dim.y` |
| Grid.FlagFrom | src/voxel/brickworld/brickgrid.rs:16-25 | 1, 2 and 4 decode to Unloaded, Loading and Loaded; every other value, and only those, decodes to Empty |
| Grid.FlagRoundTrip | src/voxel/brickworld/brickgrid.rs:9-25 | decoding a flag's own discriminant gives the flag back |
| Grid.ShiftKeepsLow24Bits | src/voxel/brickworld/brickgrid.rs:32-34 | `(idx as u32) << 8` computed on 32-bit words keeps exactly the low 24 bits of the index |
| Grid.ElementRoundTrip | src/voxel/brickworld/brickgrid.rs:31-42 | `get_pointer` and `get_flag` read back what `BrickgridElement::new` packed; the pointer is the cache index modulo 2^24 |
| Grid.DefaultElementIsEmpty | src/voxel/brickworld/brickgrid.rs:27-42 | the default (all-zero) element reads as Empty with pointer 0 |
| Grid.UploadWords | src/voxel/brickworld/brickgrid.rs:108-110 | the upload payload is two words per drained cell, its index then its word |
| Grid.PartitionStaged | src/voxel/brickworld/brickgrid.rs:100-114 | the retain pass picks `min(max, staged)` distinct staged cells and keeps exactly the others |
| Grid.DrainStaged | src/voxel/brickworld/brickgrid.rs:98-114 | the drained batch has `min(max, staged)` distinct staged cells, each with its current word; the staged set loses exactly those |
| Grid.Brickgrid.constructor | src/voxel/brickworld/brickgrid.rs:56-80 | every cell `Unloaded` with pointer 0, one per cell of the volume, nothing staged |
| Grid.Brickgrid.Set | src/voxel/brickworld/brickgrid.rs:84-89 | returns the previous word, overwrites exactly that cell and stages it |
| Grid.Brickgrid.Get | src/voxel/brickworld/brickgrid.rs:94-96 | returns the cell's word |
| Grid.Brickgrid.Upload | src/voxel/brickworld/brickgrid.rs:98-118 | a bounded batch of distinct staged cells with their words leaves the staged set; the header count is two words per cell; the grid is untouched |
| Cache.CountSome | src/voxel/brickworld/brickmap_cache.rs:28-30 | the occupied-slot count never exceeds the ring size |
| Cache.CountSomeUpdate | src/voxel/brickworld/brickmap_cache.rs:84-87 | overwriting a slot changes the occupied count by what arrived minus what left |
| Cache.CountSomeNone | src/voxel/brickworld/brickmap_cache.rs:52-55 | an all-empty ring has no occupied slot, so `num_loaded` starts right |
| Cache.Padded | src/voxel/brickworld/brickmap_cache.rs:101-103 | the upload colours are exactly 512 words: the albedo data, then zeros |
| Cache.BrickmapCache.constructor | src/voxel/brickworld/brickmap_cache.rs:38-61 | `size` empty slots, ring index 0, `num_loaded` 0, nothing staged |
| Cache.BrickmapCache.AddEntry | src/voxel/brickworld/brickmap_cache.rs:72-114 | the index advances first, modulo the ring; the new entry lands there; the previous occupant is returned; `num_loaded` grows only for a free slot; one upload element for that slot is staged |
| Cache.BrickmapCache.RemoveEntry | src/voxel/brickworld/brickmap_cache.rs:117-125 | returns the slot's entry and leaves it empty; `num_loaded` drops only if it was occupied |
| Cache.BrickmapCache.GetEntry | src/voxel/brickworld/brickmap_cache.rs:127-129 | returns the slot's entry |
| Cache.BrickmapCache.Upload | src/voxel/brickworld/brickmap_cache.rs:131-135 | the oldest `min(max, staged)` elements leave the queue in order; the rest stay in order |
| Cache.FifoEviction | src/voxel/brickworld/brickmap_cache.rs:79-86 | on a ring of n slots the first entry lands on a free slot, and the (n+1)-th `add_entry` evicts it |
| Cache.RingStep | src/voxel/brickworld/brickmap_cache.rs:82 | the ring index wraps to 0 after the last slot |
| ShadingTable.CountdownPop | src/voxel/brickworld/shading_table.rs:35 | popping a new free stack yields the lowest index, and the rest is the countdown from the next index |
| ShadingTable.CountdownMultiset | src/voxel/brickworld/shading_table.rs:13-15 | a new free stack holds every slot index exactly once |
| ShadingTable.SwapRemoveMultiset | src/voxel/brickworld/shading_table.rs:61 | `swap_remove` drops exactly one occurrence of the removed element |
| ShadingTable.Position | src/voxel/brickworld/shading_table.rs:60 | finds the first position holding the element |
| ShadingTable.FreeStack | src/voxel/brickworld/shading_table.rs:12-15 | the loop builds the countdown stack |
| ShadingTable.ShadingBucket.constructor | src/voxel/brickworld/shading_table.rs:11-25 | all slots free, stacked so slot 0 is popped first, none used |
| ShadingTable.ShadingBucket.SlotFacts | src/voxel/brickworld/shading_table.rs:6-7 | a slot index is in range and in exactly one of `free` and `used`, once |
| ShadingTable.ShadingBucket.AddressInjective | src/voxel/brickworld/shading_table.rs:39 | distinct slots have distinct global addresses |
| ShadingTable.ShadingBucket.AddressesMember | src/voxel/brickworld/shading_table.rs:39 | a slot's address is handed out iff the slot is in `used` |
| ShadingTable.ShadingBucket.TryAlloc | src/voxel/brickworld/shading_table.rs:33-40 | None iff no slot is free; otherwise pops the top free slot into `used` and returns a fresh address, by which the handed-out set grows |
| ShadingTable.ShadingBucket.TryDealloc | src/voxel/brickworld/shading_table.rs:42-64 | out-of-range, misaligned and unallocated addresses fail with their own error and change nothing; succeeds iff the address was handed out, then frees exactly that slot |
| ShadingTable.ShadingBucket.ReleaseSlot | src/voxel/brickworld/shading_table.rs:59-63 | the slot moves from `used` to the top of `free`, and only its address stops being handed out |
| ShadingTable.ShadingBucket.NotInRange | src/voxel/brickworld/shading_table.rs:44-47 | an address outside the bucket was never handed out by it |
| ShadingTable.ShadingBucket.SlotAddress | src/voxel/brickworld/shading_table.rs:27-47 | a slot's address lies in the bucket's range, on its slot grid, and routes back to that slot |
| ShadingTable.ShadingBucket.NotAligned | src/voxel/brickworld/shading_table.rs:49-52 | a misaligned address was never handed out by the bucket |
| ShadingTable.ShadingBucket.SlotAddressesCount | src/voxel/brickworld/shading_table.rs:39 | n slots have n distinct addresses |
| ShadingTable.ShadingBucket.FullBucket | src/voxel/brickworld/shading_table.rs:35 | a bucket with no free slot has handed out all `slot_count` addresses |
| ShadingTable.SlotInBucketRange | src/voxel/brickworld/shading_table.rs:84-86 | every slot of global bucket i lies inside `[i * epb, (i + 1) * epb)` |
| ShadingTable.SlotBucketIndex | src/voxel/brickworld/shading_table.rs:131 | an address of global bucket i divides by `elements_per_bucket` to i |
| ShadingTable.BuildBuckets | src/voxel/brickworld/shading_table.rs:81-94 | vector entry j is a fresh, empty global bucket `count - 1 - j` with slot size `2^(9 - i)` |
| ShadingTable.ShadingTableAllocator.constructor | src/voxel/brickworld/shading_table.rs:77-103 | the bucket layout, total `count * epb`, nothing used, nothing allocated |
| ShadingTable.ShadingTableAllocator.FirstFitFrom | src/voxel/brickworld/shading_table.rs:106-124 | a returned bucket is large enough and has a free slot |
| ShadingTable.ShadingTableAllocator.FirstFit | src/voxel/brickworld/shading_table.rs:106-124 | a returned bucket is large enough and has a free slot |
| ShadingTable.ShadingTableAllocator.FirstFitFromIsFirst | src/voxel/brickworld/shading_table.rs:106-126 | the chosen bucket is the first qualifying one, and there is none iff no bucket qualifies |
| ShadingTable.ShadingTableAllocator.SlotSizesAscend | src/voxel/brickworld/shading_table.rs:81-85 | slot sizes strictly ascend along the vector, so first fit tries the smallest slots first |
| ShadingTable.ShadingTableAllocator.AddressOwner | src/voxel/brickworld/shading_table.rs:130-132 | a handed-out address lies in its bucket's range, and its slot fits in the table |
| ShadingTable.ShadingTableAllocator.FreeSlotUnowned | src/voxel/brickworld/shading_table.rs:33-39 | a free slot's address is handed out by no bucket |
| ShadingTable.ShadingTableAllocator.OwnerUnique | src/voxel/brickworld/shading_table.rs:130-133 | no address is handed out by two buckets |
| ShadingTable.ShadingTableAllocator.AllocatedInTable | src/voxel/brickworld/shading_table.rs:78 | every handed-out address is below `total_elements` |
| ShadingTable.ShadingTableAllocator.NextAddressFresh | src/voxel/brickworld/shading_table.rs:105-127 | the address the next `try_alloc` returns is not handed out yet and lies in the table |
| ShadingTable.ShadingTableAllocator.CapacityFromLargestBucket | src/voxel/brickworld/shading_table.rs:105-127 | while fewer addresses are out than the 512-word bucket has slots, any request of at most 512 words succeeds |
| ShadingTable.ShadingTableAllocator.FindBucket | src/voxel/brickworld/shading_table.rs:106-124 | the search loop stops at the first-fit bucket |
| ShadingTable.ShadingTableAllocator.FirstFitByFrees | src/voxel/brickworld/shading_table.rs:106-124 | the first-fit search depends on nothing but the free stacks |
| ShadingTable.ShadingTableAllocator.NextFromFrees | src/voxel/brickworld/shading_table.rs:105-127 | the next address for a size is read off the free stacks alone |
| ShadingTable.ShadingTableAllocator.RoomKept | src/voxel/brickworld/shading_table.rs:105-136 | a request that would have been served is still served after releases, since no free stack empties |
| ShadingTable.ShadingTableAllocator.TryAlloc | src/voxel/brickworld/shading_table.rs:105-127 | returns the predicted address, None iff no bucket fits, and then nothing changes; on success the first-fit bucket is large enough, its top free slot moves onto its used list, every other bucket keeps its stacks, exactly that fresh address joins the allocated set and `used_elements` grows by the slot size |
| ShadingTable.ShadingTableAllocator.AllocIn | src/voxel/brickworld/shading_table.rs:112-122 | bucket j's top free slot is popped onto its used list and its address returned; every other bucket keeps its free and used stacks; only that fresh address joins the allocated set; the counter grows by the slot size |
| ShadingTable.ShadingTableAllocator.BucketFor | src/voxel/brickworld/shading_table.rs:131-132 | the reversed bucket index is the vector position of the address's global bucket |
| ShadingTable.ShadingTableAllocator.AddressRouted | src/voxel/brickworld/shading_table.rs:131-132 | an address inside the table routes to an existing bucket |
| ShadingTable.ShadingTableAllocator.TryDealloc | src/voxel/brickworld/shading_table.rs:129-136 | the routed bucket answers: out-of-range, misaligned and unallocated addresses fail with their own error and keep every stack; success, exactly when the address is handed out, pushes the slot onto that bucket's free stack and removes it from its used list; other buckets keep their stacks; `used_elements` drops by the slot size in every case; no free stack empties |
| ShadingTable.ShadingTableAllocator.DeallocIn | src/voxel/brickworld/shading_table.rs:133-135 | bucket j answers as `Release` says: each refusal keeps all stacks and the allocated set; a release pushes the slot onto j's free stack, swap-removes it from j's used list and drops exactly the address; other buckets unchanged |
| ShadingTable.ShadingTableAllocator.ReleasedSlot | src/voxel/brickworld/shading_table.rs:59-63 | a successful release of slot k puts k on top of its bucket's free stack and takes one k off its used list |
| ShadingTable.ShadingTableAllocator.RefusedSlot | src/voxel/brickworld/shading_table.rs:54-57 | releasing a slot not in use is refused as `NotAllocated` and changes no stack |
| ShadingTable.BucketReuse | src/voxel/brickworld/shading_table.rs:33-63 | in a four-slot bucket, the first allocation is slot 0, and a freed slot is the next one handed out |
| ShadingTable.FirstAlloc | src/voxel/brickworld/shading_table.rs:11-40 | a new bucket's first allocation pops slot 0 and leaves `[3, 2, 1]` free |
| ShadingTable.CountdownFour | src/voxel/brickworld/shading_table.rs:13-15 | four slots are stacked as `[3, 2, 1, 0]` |
| ShadingTable.BucketRefusals | src/voxel/brickworld/shading_table.rs:42-57 | a never-allocated, a misaligned and an out-of-range address each get their own error |
| ShadingTable.AllocatorDoubleFree | src/voxel/brickworld/shading_table.rs:105-136 | in the manager's four-bucket table a 300-word request succeeds, its release succeeds, and a second release fails |
| ShadingTable.BucketAllocFree | src/voxel/brickworld/shading_table.rs:33-64 | for any bucket with a free slot, alloc then free restores the free stack and the handed-out set; a second free is refused as not allocated |
| ShadingTable.FreeTwice | src/voxel/brickworld/shading_table.rs:129-136 | freeing an in-use slot twice: the first release succeeds and pushes it back, the second fails `NotAllocated`; the counter drops by two slot sizes |
| ShadingTable.AllocatorAllocFree | src/voxel/brickworld/shading_table.rs:105-136 | for any table with room, alloc then free restores every free stack, the allocated set and every later `try_alloc` answer; a second free is refused, yet `used_elements` loses the slot size twice |
| VoxelUtil.BrickIndexFacts | src/voxel/brickworld/util.rs:39 | the brick index is `to_1d_index` for 8x8x8, is below 512, and is inverted by `% 8`, `/ 8 % 8`, `/ 64` |
| VoxelUtil.CoordsOfIndex | src/voxel/brickworld/util.rs:33-39 | every brick index below 512 comes from its decoded coordinates |
| VoxelUtil.UnpackColor | src/voxel/brickworld/util.rs:88-91 | the packed colour's bytes are r, g, b and 255, so packing loses nothing |
| VoxelUtil.CollectFacts | src/voxel/brickworld/util.rs:85-92 | one colour per flagged voxel, each the colour of a flagged voxel |
| VoxelUtil.SurfaceColorsFacts | src/voxel/brickworld/util.rs:85-92 | the colour count is the mask's popcount, so at most 512, and every colour has low byte 255 |
| VoxelUtil.Pack | src/voxel/brickworld/util.rs:87 | n flags pack below `2^n` |
| VoxelUtil.PackSplit | src/voxel/brickworld/util.rs:87 | packing a concatenation puts the second part above the first |
| VoxelUtil.PackBit | src/voxel/brickworld/util.rs:87 | bit j of the packed word is flag j |
| VoxelUtil.PackNone | src/voxel/brickworld/util.rs:87 | no flag set packs to 0 |
| VoxelUtil.PackWord | src/voxel/brickworld/util.rs:99-100 | 32 flags fit a u32 word |
| VoxelUtil.MaskBit | src/voxel/brickworld/util.rs:85-100 | mask bit `i % 32` of word `i / 32` is the surface flag of voxel i |
| VoxelUtil.SurfaceByOffsets | src/voxel/brickworld/util.rs:42-85 | the source's flat-offset neighbour test accepts exactly the solid voxels with an empty face neighbour |
| VoxelUtil.FaceOffsets | src/voxel/brickworld/util.rs:47-81 | each of the six offsets (±1, ±8, ±64 inside, ∓7, ∓56, ∓448 across a face) reads the geometric face neighbour |
| VoxelUtil.PackExtend | src/voxel/brickworld/util.rs:87 | one more flag adds weight `2^n` |
| VoxelUtil.PackRunSlice | src/voxel/brickworld/util.rs:87 | the index-based packed run equals packing the slice |
| VoxelUtil.SplitWords | src/voxel/brickworld/util.rs:99-100 | the low and high 32-bit halves of a 64-bit entry are recovered by `& 0xFFFFFFFF` and `>> 32` |
| VoxelUtil.LayerWords | src/voxel/brickworld/util.rs:98-100 | the halves of layer z's 64-bit entry are mask words 2z and 2z+1 |
| VoxelUtil.LayerWordsOf | src/voxel/brickworld/util.rs:98-100 | the halves of layer z's entry are the layer's two mask words |
| VoxelUtil.SurfaceBitsByCoords | src/voxel/brickworld/util.rs:39-85 | the flag at `BrickIndex(x, y, z)` is the surface predicate of `(x, y, z)` |
| VoxelUtil.CullInteriorVoxels | src/voxel/brickworld/util.rs:5-104 | the mask is exactly the surface flags packed into 16 words, and the colours are exactly the surface voxels' packed colours in index order |
| VoxelUtil.StoreLayer | src/voxel/brickworld/util.rs:98-100 | words 2z and 2z+1 become the layer's mask words; lower words are kept |
| VoxelUtil.CullLayer | src/voxel/brickworld/util.rs:35-97 | the layer's entry packs its 64 surface flags, and its surface colours are appended in order |
| VoxelUtil.CullRow | src/voxel/brickworld/util.rs:37-96 | one row's surface bits and colours are appended in order |
| VoxelUtil.VoxelStep | src/voxel/brickworld/util.rs:86-93 | visiting a voxel extends the packed run and the colours exactly when it is a surface voxel |
| VoxelUtil.VisitVoxel | src/voxel/brickworld/util.rs:39-93 | the loop body decides exactly "surface voxel" and then yields that voxel's packed colour |
| VoxelUtil.SolidVoxelHidden | src/voxel/brickworld/util.rs:45-85 | inside an all-solid neighbourhood no voxel is on the surface |
| VoxelUtil.SolidBrick | src/voxel/brickworld/util.rs:5-104 | an all-solid brick with all-solid neighbours culls to 16 zero mask words and no colours |
| VoxelUtil.CollectNone | src/voxel/brickworld/util.rs:92 | no flag set collects no colour |
| VoxelUtil.CollectSingle | src/voxel/brickworld/util.rs:92 | one flag set collects exactly its colour |
| VoxelUtil.IsolatedVoxel | src/voxel/brickworld/util.rs:5-104 | a lone solid voxel is always on the surface, whatever the neighbours hold: exactly its bit, exactly its colour |
| VoxelUtil.IsolatedOnSurface | src/voxel/brickworld/util.rs:47-57 | the lone voxel has an empty x neighbour inside the brick |
| VoxelUtil.ToBrickgridElement | src/voxel/brickworld/util.rs:106-108 | equals `BrickgridElement::new`; reads back as the index modulo 2^24 and the flag |
| VoxelUtil.ShiftU32 | src/voxel/brickworld/util.rs:107 | `idx << 8` on a u32 keeps the index's low 24 bits |
| VoxelUtil.GridPosToWorldPos | src/voxel/brickworld/util.rs:110-120 | chunk times dims plus block recomposes the position, with each block coordinate in `[0, dims)` |
| VoxelUtil.GridPosUnique | src/voxel/brickworld/util.rs:110-120 | that split is the only one with the block inside the chunk (floored division) |
| VoxelUtil.GridPosNegative | src/voxel/brickworld/util.rs:114-117 | x = -1 lies in chunk -1 at the last block, not in chunk 0 |
| Consistency.QueuesFree | src/voxel/brickworld/brickmap.rs:226-229 | draining the upload queues cannot break the invariant |
| Consistency.InitialConsistent | src/voxel/brickworld/brickmap.rs:49-56 | a new manager (all cells Unloaded, all slots empty, nothing allocated) is consistent |
| Consistency.ConsistentReady | src/voxel/brickworld/brickmap.rs:178-191 | in a consistent state, an entry that `add_entry` evicts names a grid cell and holds an allocated address |
| Consistency.CellSlotHeld | src/voxel/brickworld/brickmap.rs:202-221 | a Loaded cell's slot is occupied and holds an allocated address |
| Consistency.OffsetsClear | src/voxel/brickworld/brickmap_cache.rs:117-125 | emptying a slot removes exactly its offset from the held offsets |
| Consistency.OffsetsFill | src/voxel/brickworld/brickmap_cache.rs:89-92 | filling a free slot with a fresh offset adds exactly that offset |
| Consistency.OffsetsBound | src/voxel/brickworld/brickmap_cache.rs:28 | no more distinct offsets are held than there are slots |
| Consistency.AdmitPending | src/voxel/brickworld/brickmap.rs:172-199 | after allocation, `add_entry` and eviction, nothing is logged, the new slot holds `(g, off)`, and all links but the new one hold |
| Consistency.AdmitFreeLinks | src/voxel/brickworld/brickmap.rs:178-183 | writing a free slot keeps every other link |
| Consistency.AdmitEvictedLinks | src/voxel/brickworld/brickmap.rs:184-196 | marking the evicted cell Unloaded keeps every other link |
| Consistency.PlaceLoaded | src/voxel/brickworld/brickmap.rs:198-223 | pointing the cell at the new slot and releasing its old slot restores consistency with no log |
| Consistency.UnlinkedCell | src/voxel/brickworld/brickmap.rs:206-213 | a linked slot other than the cell's own does not name the cell |
| Consistency.PlaceEmpty | src/voxel/brickworld/brickmap.rs:169-223 | an empty brick leaves the cell Empty, releases its old slot, keeps consistency, and logs nothing |
| Consistency.HandleStepConsistent | src/voxel/brickworld/brickmap.rs:154-224 | a request keeps the invariant and logs nothing; staged cells stay staged and the queue only grows at its end; a non-empty brick leaves the cell Loaded at the next ring slot, which holds `(g, off)`, and queues one element; an empty one leaves it Empty and claims nothing |
| Consistency.HandleAll | src/voxel/brickworld/brickmap.rs:141-144 | a pass of requests from a consistent state ends consistent, with the grid and the ring the same size |
| Consistency.HandleAllSnoc | src/voxel/brickworld/brickmap.rs:141-144 | one more ready request extends the pass by one `HandleStep` |
| Consistency.HandleAllEffects | src/voxel/brickworld/brickmap.rs:141-144 | after a pass every requested cell is staged, earlier staged cells stay, one upload element per non-empty brick is queued behind the old queue, and the ring index moves on by as many slots |
| Manager.ReqAt | src/voxel/brickworld/brickmap.rs:142-143 | request k names a cell inside the grid and a brick of at most 512 colours |
| Manager.Requests | src/voxel/brickworld/brickmap.rs:141-143 | one request per given address, request k being buffer request k |
| Manager.RequestsSnoc | src/voxel/brickworld/brickmap.rs:141-143 | one more address appends buffer request `|offs|` |
| Manager.HandleAllNext | src/voxel/brickworld/brickmap.rs:141-144 | the pass over the first i requests followed by request i is the pass over the first i + 1 |
| Manager.BrickmapManager.constructor | src/voxel/brickworld/brickmap.rs:36-92 | all cells Unloaded, all slots empty, four buckets, consistent |
| Manager.BrickmapManager.Offer | src/voxel/brickworld/brickmap.rs:173-176 | the address `try_alloc` hands out is not allocated yet |
| Manager.BrickmapManager.HandleRequest | src/voxel/brickworld/brickmap.rs:154-224 | the three structures change as `HandleStep` says on the culled brick; they stay consistent; nothing is logged |
| Manager.BrickmapManager.ApplyBrick | src/voxel/brickworld/brickmap.rs:169-223 | the bookkeeping after culling realises `HandleStep` |
| Manager.BrickmapManager.AdmitBrick | src/voxel/brickworld/brickmap.rs:172-200 | allocation, `add_entry` and eviction realise `Admit`; the new element points Loaded at the cache index |
| Manager.BrickmapManager.ClaimEntry | src/voxel/brickworld/brickmap.rs:173-183 | claims the predicted address; the cache advances and writes `(g, off)`; the evicted entry is returned |
| Manager.BrickmapManager.ClaimShading | src/voxel/brickworld/brickmap.rs:172-175 | `try_alloc(...).unwrap()` returns the offered address, which alone joins the allocated set |
| Manager.BrickmapManager.Evict | src/voxel/brickworld/brickmap.rs:186-195 | the evicted address is released (refusal logged), and the evicted cell is set Unloaded and staged |
| Manager.BrickmapManager.PlaceCell | src/voxel/brickworld/brickmap.rs:202-223 | the cell write and its old slot's release realise `Place` |
| Manager.BrickmapManager.ReleaseEntry | src/voxel/brickworld/brickmap.rs:206-222 | an occupied slot is emptied and its address released, with a mismatch and a refusal each logged; an empty slot changes nothing |
| Manager.BrickmapManager.ReleaseShading | src/voxel/brickworld/brickmap.rs:186-191 | exactly the entry's address leaves the allocated set, and a warning is logged iff it was not allocated |
| Manager.BrickmapManager.CapacitySuffices | src/voxel/brickworld/brickmap.rs:172-176 | under the capacity bound, `try_alloc(...).unwrap()` cannot fail |
| Manager.BrickmapManager.ProcessFeedback | src/voxel/brickworld/brickmap.rs:130-152 | the requests are handled in buffer order, taking the state to `handled` as the fold `HandleAll` says, with nothing logged; every requested cell is staged; then the grid drain takes `min(max, staged)` distinct staged cells with their words and the brickmap drain the oldest `min(max, queued)` elements, and the final state is `handled` less exactly those |
| Manager.BrickmapManager.HandleRequests | src/voxel/brickworld/brickmap.rs:141-144 | the loop realises `HandleAll` over the buffer's requests |
| Manager.BrickmapManager.HandleAt | src/voxel/brickworld/brickmap.rs:142-143 | one pass realises `HandleStep` for buffer request i with the allocator's first fit, which is free |
| Manager.BrickmapManager.UploadUnpackBuffers | src/voxel/brickworld/brickmap.rs:226-229 | one bounded drain of distinct grid cells and one bounded brickmap drain; the view loses exactly the drained cells and queue prefix; grid words and cache slots are untouched |
| Legacy.UpdateIsPlace | src/voxel/brickmap.rs:289-314 | on a linked cell, `update_brickgrid_element` does what the refactored cell update does |
| Legacy.DetachCell | src/voxel/brickmap.rs:233-237 | pointing a cell at ring slot `idx` releases its old slot, logs nothing, and leaves all other links intact |
| Legacy.EvictOwner | src/voxel/brickmap.rs:239-244 | unloading the slot's previous owner empties the slot and releases its address, with no log |
| Legacy.ClearedVacant | src/voxel/brickmap.rs:233-244 | the first two writes leave ring slot `idx` vacant for the cell, keep the staged cells, log nothing, and claim nothing |
| Legacy.FillConsistent | src/voxel/brickmap.rs:246-276 | filling the vacant slot with a fresh address restores consistency |
| Legacy.RequestConsistent | src/voxel/brickmap.rs:213-277 | a request keeps the invariant and logs nothing; staged cells stay staged and the queue only grows at its end; a non-empty brick uses slot `idx` before the index advances; an empty one sets the cell to 0 and claims nothing |
| Legacy.RequestAll | src/voxel/brickmap.rs:213-277 | a pass of requests from a consistent state ends consistent, with the grid and the ring the same size |
| Legacy.RequestAllSnoc | src/voxel/brickmap.rs:213-277 | one more ready request extends the pass by one `Request` |
| Legacy.RequestAllEffects | src/voxel/brickmap.rs:213-277 | after a pass every requested cell is staged, earlier staged cells stay, one brickmap per non-empty brick is queued behind the old queue, and the ring index moves on by as many slots |
| Legacy.RequestAllNext | src/voxel/brickmap.rs:213-277 | the pass over the first i requests followed by request i is the pass over the first i + 1 |
| Legacy.LegacyFirstSlot | src/voxel/brickmap.rs:253-276 | from ring index 0 the first non-empty brick lands in slot 0 |
| Legacy.RefactoredFirstSlot | src/voxel/brickworld/brickmap_cache.rs:79-92 | from ring index 0 the refactored manager puts the first brick in slot `1 % n` instead |
| Legacy.BrickmapManager.constructor | src/voxel/brickmap.rs:70-147 | every grid word 1 (Unloaded), every slot empty, ring index 0, four buckets, consistent |
| Legacy.BrickmapManager.UpdateBrickgridElement | src/voxel/brickmap.rs:289-314 | realises `Update`: a Loaded word's slot is released, or its absence logged; then the cell is written and staged |
| Legacy.BrickmapManager.ReleaseCacheEntry | src/voxel/brickmap.rs:293-308 | an occupied slot loses its entry and address (refusal logged); an empty one logs a missing entry |
| Legacy.BrickmapManager.HandleRequest | src/voxel/brickmap.rs:213-277 | one loop pass over the culled brick realises `Request`, stays consistent, and logs nothing; the address it uses is free once the request's own releases are done |
| Legacy.BrickmapManager.EmptyBrick | src/voxel/brickmap.rs:228-231 | an empty brick realises `Request` with no colours |
| Legacy.BrickmapManager.LoadBrick | src/voxel/brickmap.rs:233-276 | a non-empty brick realises `Request` with an address not held once the slot is cleared |
| Legacy.BrickmapManager.ClearSlot | src/voxel/brickmap.rs:233-244 | the cell write and the eviction realise `Cleared`, leave the slot vacant, log nothing, and empty no free stack |
| Legacy.BrickmapManager.FillSlot | src/voxel/brickmap.rs:246-276 | claims the allocator's predicted, fresh address and realises `Fill` |
| Legacy.BrickmapManager.RecordSlot | src/voxel/brickmap.rs:253-276 | writes the slot, stages the brickmap under the pre-increment index, and advances the index |
| Legacy.BrickmapManager.ClaimShading | src/voxel/brickmap.rs:247-250 | returns the predicted fresh address, which alone joins the allocated set |
| Legacy.BrickmapManager.CapacitySuffices | src/voxel/brickmap.rs:247-250 | under the capacity bound, `try_alloc(...).unwrap()` cannot fail |
| Legacy.BrickmapManager.ProcessFeedback | src/voxel/brickmap.rs:185-287 | the requests (none when the count is 0) are handled in buffer order, taking the state to `handled` as the fold `RequestAll` says, with nothing logged; every requested cell is staged; then the bounded drains follow, of distinct cells and of the oldest brickmaps, and the final state is `handled` less exactly the drained cells and brickmaps |
| Legacy.BrickmapManager.HandleRequests | src/voxel/brickmap.rs:213-277 | the loop realises `RequestAll` over the buffer's requests |
| Legacy.BrickmapManager.HandleAt | src/voxel/brickmap.rs:214-276 | one pass realises `Request` for buffer request i with an address free at its turn |
| Legacy.BrickmapManager.UploadUnpackBuffers | src/voxel/brickmap.rs:316-376 | `min(max, staged)` distinct staged cells leave with their words, two words each, and the oldest `min(max, len)` brickmaps leave in order |
| Legacy.BrickmapManager.DrainGrid | src/voxel/brickmap.rs:318-334 | `min(unpackMaxCount, staged)` distinct staged cells leave, each with its current word, and exactly those leave the staged set |
| Legacy.BrickmapManager.DrainBrickmaps | src/voxel/brickmap.rs:356-357 | the oldest `min(max, len)` staged brickmaps leave in order |

## Left out

- GPU buffers, mapping, readback and byte layouts are not modelled. This covers `write_buffer` offsets, the `{max_count, count, pad, pad}` headers, `bytemuck` casts and the feedback-count reset writes. Uploads are modelled as the returned batches and their word counts.
- Logging is modelled as a returned list of `Warning`s for the error and warning logs, which the model proves stay empty. Informational and trace logs are dropped. Among them are the "Num loaded brickmaps" line and `num_loaded`'s only reader.
- World access (`WorldManager::get_block`) is a parameter. The culler receives the seven fetched bricks as a `Neighbourhood`, and `ProcessFeedback` receives a function from grid position to neighbourhood. Chunk generation and loading are not part of this model.
- Manager.BrickmapManager.HandleRequest: requires that `try_alloc` succeeds, because the source `unwrap`s it and would panic otherwise.
- Manager.BrickmapManager.ProcessFeedback: requires `Capacity()`: the 512-word bucket has more slots than the cache ring. This proves allocation never fails, but it asks more than the source does. For example, the shipped configuration in `src/voxel/brickmap/renderer.rs:73-80` has 262144 cache slots but only 131072 512-word slots. It relies on most bricks needing smaller slots.
- Legacy.BrickmapManager.ProcessFeedback: requires `Capacity()`, for the same reason.
- Manager.BrickmapManager.HandleRequests: requires `Capacity()`, for the same reason. It holds the loop of `ProcessFeedback`.
- Manager.BrickmapManager.HandleAt: requires `Capacity()`, for the same reason. It is one pass of that loop.
- Legacy.BrickmapManager.HandleRequests: requires `Capacity()`, for the same reason. It holds the loop of `ProcessFeedback`.
- Legacy.BrickmapManager.HandleAt: requires `Capacity()`, for the same reason. It is one pass of that loop.
- Legacy.BrickmapManager.HandleRequest: the shading address is a ghost out-parameter. Its contract ties the new state to `Request` for that address, and states that the address is free once the request's own releases are done. That it is the allocator's first fit at that point is stated one level down, by `FillSlot`.
- Legacy.BrickmapManager.HandleRequest: requires room in the shading table before the request's own releases. The source needs the room only at its `try_alloc`, after those releases. `RoomKept` shows that releases never take room away, so this asks more than the source does only when the releases are what makes room.
- Legacy.BrickmapManager.LoadBrick: requires room in the shading table before the slot is cleared, for the same reason as `HandleRequest`. `FillSlot` itself asks for room at its `try_alloc` only.
- Manager.BrickmapManager.ProcessFeedback: the shading addresses are ghost out-parameters. The contract says only that each one is free at its turn. That each address is the allocator's first fit at that turn is stated per request, by `HandleAt`.
- Legacy.BrickmapManager.ProcessFeedback: its shading addresses are likewise ghost out-parameters, and each is stated only to be free at its turn.
- Legacy.BrickmapManager.HandleAt: its address is stated only to be free once the request's own releases are done. The address is the allocator's first fit in the state after those releases, a state the view does not record. That fact is stated one level down, by `FillSlot`.
- `ProcessFeedback`'s `world` parameter stands for the `get_block` calls on the seven bricks around a request. The model does not tie those lookups to `GridPosToWorldPos` of the neighbour positions.
- VoxelUtil.GridPosToWorldPos: requires `chunkDims > 0` in every coordinate. With a chunk size of 0 the source's `f64` quotient is infinite or NaN, and the saturating `as_ivec3` cast gives a meaningless split. The exact integer model has no counterpart for this case.
- Cache.BrickmapCache.AddEntry: requires a non-empty ring and at most 512 colours. In the source a size-0 ring panics on `% 0`, and more than 512 colours panic on the slice copy.
- Consistency.Consistent: assumes fewer than 2^24 cache slots (`MaxSlots`), since a grid word keeps only 24 bits of pointer. The shipped 262144 slots are well inside this.
- ShadingTable.ShadingTableAllocator.TryDealloc: requires the address to be below `total_elements`. For larger addresses the source's `bucket_count - bucket_idx - 1` underflows, or indexes past the bucket vector, and panics.
- ShadingTable.ShadingTableAllocator.constructor: requires at most 10 buckets, because `u32::pow(2, 9 - i)` underflows beyond that.
- `used_elements` is an unbounded integer. The source's `u32` can underflow, because `try_dealloc` subtracts the slot size before the bucket decides, even when it refuses. There is no model of that wrap-around.
- u32 overflow in `to_1d_index` is not modelled. Integers are unbounded, and the requests are required to lie inside the grid.
- `contains_address`'s `min + count * size` is taken without overflow.
- `grid_pos_to_world_pos` computes with `f64` and `floor`. The model uses exact floored integer division, which agrees whenever the `f64` values are exact (all `i32` inputs).
- `HashSet` iteration order is not modelled. The grid drains pick their cells by a nondeterministic choice, and the contracts hold for every order.
- The older manager sizes its ring by `brickmap_cache.capacity()`. The model takes that to equal the requested cache size.
- `Brickmap::default()` cache contents, `lod_color` (always 0) and the world-state uniform carry no logic and are kept only as data.
- Manager.BrickmapManager.PlaceCell: the source logs a grid-index mismatch and still releases the slot. The model does the same, and proves under the invariant that the mismatch never occurs.
- Consistency.AdmitPending: repeats `AdmitReady` in its requires, although `ConsistentReady` derives it from `Consistent`. This keeps `HandleStep`'s well-formedness cheap.
