/** `BrickmapManager` of `src/voxel/brickworld/brickmap.rs`: the orchestrator that
    answers the GPU's load requests by culling the requested brick, claiming
    shading-table space for its colours, writing it into the brickmap cache and
    pointing the brickgrid cell at it. */
module Manager {
  import opened Math
  import opened Wrappers
  import opened Grid
  import opened Cache
  import opened ShadingTable
  import opened VoxelUtil
  import opened Consistency

  /** The grid position of request `i` in the feedback buffer: after the four
      header words, each request takes four words, of which the first three are
      the position. */
  function RequestPos(feedback: seq<U32>, i: nat): UVec3
    requires 4 + 4 * i + 3 <= |feedback|
  {
    UVec3(feedback[4 + 4 * i], feedback[4 + 4 * i + 1], feedback[4 + 4 * i + 2])
  }

  /** The feedback buffer holds `feedback[1]` requests, each naming a cell of the grid. */
  predicate RequestsWellFormed(feedback: seq<U32>, dims: UVec3) {
    && |feedback| >= 4
    && var count: nat := feedback[1];
    && |feedback| >= 4 + 4 * count
    && forall i :: 0 <= i < count ==> InBounds(RequestPos(feedback, i), dims)
  }

  /** Request `k` of the feedback buffer in the world `world`: the flat index of
      its cell, the shading address `off`, and the brick culled from the seven
      bricks around the cell. */
  function ReqAt(feedback: seq<U32>, dims: UVec3, world: UVec3 -> Neighbourhood, k: nat, off: U32): (q: Req)
    requires RequestsWellFormed(feedback, dims) && k < feedback[1]
    requires WellFormed(world(RequestPos(feedback, k)))
    ensures q.g < Volume(dims) && |q.albedo| <= 512
  {
    var p := RequestPos(feedback, k);
    IndexInRange(p, dims);
    SurfaceColorsFacts(world(p));
    Req(To1dIndex(p, dims), off, MaskWords(SurfaceBits(world(p))), SurfaceColors(world(p)))
  }

  /** The first `|offs|` requests of the feedback buffer, request `k` given the
      shading address `offs[k]`. */
  function Requests(feedback: seq<U32>, dims: UVec3, world: UVec3 -> Neighbourhood, offs: seq<U32>): (r: seq<Req>)
    requires RequestsWellFormed(feedback, dims) && |offs| <= feedback[1]
    requires forall p :: WellFormed(world(p))
    ensures |r| == |offs|
    ensures forall k :: 0 <= k < |offs| ==> r[k] == ReqAt(feedback, dims, world, k, offs[k])
  {
    if offs == [] then []
    else
      var n := |offs| - 1;
      Requests(feedback, dims, world, offs[..n]) + [ReqAt(feedback, dims, world, n, offs[n])]
  }

  /** One more address is one more request. */
  lemma RequestsSnoc(feedback: seq<U32>, dims: UVec3, world: UVec3 -> Neighbourhood, offs: seq<U32>, off: U32)
    requires RequestsWellFormed(feedback, dims) && |offs| < feedback[1]
    requires forall p :: WellFormed(world(p))
    ensures Requests(feedback, dims, world, offs + [off])
         == Requests(feedback, dims, world, offs) + [ReqAt(feedback, dims, world, |offs|, off)]
  {
    assert (offs + [off])[..|offs|] == offs;
  }

  /** A pass over the first `|offs|` requests followed by a ready request `|offs|`
      is the pass over the first `|offs| + 1`. */
  lemma HandleAllNext(v: View, feedback: seq<U32>, dims: UVec3, world: UVec3 -> Neighbourhood,
                      offs: seq<U32>, off: U32, u: View, r: View)
    requires RequestsWellFormed(feedback, dims) && |offs| < feedback[1]
    requires forall p :: WellFormed(world(p))
    requires Consistent(v) && HandleAll(v, Requests(feedback, dims, world, offs)) == Some(u)
    requires StepReady(u, ReqAt(feedback, dims, world, |offs|, off))
    requires var q := ReqAt(feedback, dims, world, |offs|, off);
      r == HandleStep(u, q.g, q.off, q.bitmask, q.albedo).0
    ensures HandleAll(v, Requests(feedback, dims, world, offs + [off])) == Some(r)
  {
    RequestsSnoc(feedback, dims, world, offs, off);
    HandleAllSnoc(v, Requests(feedback, dims, world, offs), ReqAt(feedback, dims, world, |offs|, off));
  }

  class BrickmapManager {
    const gridDims: UVec3
    const brickgrid: Brickgrid
    const brickmapCache: BrickmapCache
    const allocator: ShadingTableAllocator
    const unpackMaxCount: nat

    /** The contents of the three structures. */
    ghost function Contents(): View
      reads this, brickgrid, brickmapCache, allocator, allocator.buckets
    {
      View(brickgrid.data, brickgrid.staged, brickmapCache.cache, brickmapCache.index,
           brickmapCache.staged, allocator.Allocated())
    }

    /** Each structure is well formed and sized as the manager set it up. */
    ghost predicate Sound()
      reads this, brickgrid, brickmapCache, allocator, allocator.buckets
    {
      && brickgrid.Valid() && brickmapCache.Valid() && allocator.Valid()
      && brickgrid.dimensions == gridDims
      && brickgrid.maxUploadCount == unpackMaxCount && brickmapCache.maxUploadCount == unpackMaxCount
      && allocator.totalElements <= 0x1_0000_0000
    }

    ghost predicate Valid()
      reads this, brickgrid, brickmapCache, allocator, allocator.buckets
    {
      Sound() && Consistent(Contents())
    }

    /** The 512-word bucket has more slots than the cache: then every large
        enough request finds a free slot however the cache is filled. */
    ghost predicate Capacity()
      reads this, brickmapCache, allocator, allocator.buckets
    {
      && allocator.bucketCount >= 1 && |allocator.buckets| == allocator.bucketCount
      && |brickmapCache.cache| < allocator.buckets[allocator.bucketCount - 1].slotCount
    }

    /** `BrickmapManager::new` without its GPU buffers: every cell Unloaded, every
        slot empty, four shading buckets of `bucketSize` words, nothing allocated. */
    constructor (gridDims: UVec3, cacheSize: nat, bucketSize: nat, maxUploaded: nat)
      requires 0 < cacheSize < MaxSlots && 4 * bucketSize < 0x1_0000_0000
      ensures Valid()
      ensures Contents() == View(seq(Volume(gridDims), _ => ElementNew(0, Unloaded)), {},
                                 seq(cacheSize, _ => None), 0, [], {})
      ensures allocator.bucketCount == 4 && allocator.elementsPerBucket == bucketSize
      ensures unpackMaxCount == maxUploaded
    {
      this.gridDims := gridDims;
      brickgrid := new Brickgrid(gridDims, maxUploaded);
      brickmapCache := new BrickmapCache(cacheSize, maxUploaded);
      allocator := new ShadingTableAllocator(4, bucketSize);
      unpackMaxCount := maxUploaded;
      new;
      InitialConsistent(Volume(gridDims), cacheSize);
    }

    /** The address the allocator hands out next for `size` colours (0 when
        there are none): not allocated yet and inside the table. */
    ghost function Offer(size: nat): (off: U32)
      reads this, allocator, allocator.buckets
      requires allocator.Valid() && allocator.totalElements <= 0x1_0000_0000
      requires size > 0 ==> allocator.NextAddress(size).Some?
      ensures size > 0 ==> off == allocator.NextAddress(size).value && off !in allocator.Allocated()
    {
      if size > 0 then
        allocator.NextAddressFresh(size);
        allocator.NextAddress(size).value
      else
        0
    }

    /** What `handle_request` does to the three structures for the cell at
        `request[0..3]` whose seven surrounding bricks are `nb`. */
    ghost function RequestStep(request: seq<U32>, nb: Neighbourhood): (View, seq<Warning>)
      reads this, brickgrid, brickmapCache, allocator, allocator.buckets
      requires Valid() && |request| >= 3 && WellFormed(nb)
      requires InBounds(UVec3(request[0], request[1], request[2]), gridDims)
      requires |SurfaceColors(nb)| > 0 ==> allocator.NextAddress(|SurfaceColors(nb)|).Some?
    {
      var g := To1dIndex(UVec3(request[0], request[1], request[2]), gridDims);
      var albedo := SurfaceColors(nb);
      IndexInRange(UVec3(request[0], request[1], request[2]), gridDims);
      SurfaceColorsFacts(nb);
      HandleStep(Contents(), g, Offer(|albedo|), MaskWords(SurfaceBits(nb)), albedo)
    }

    /** `handle_request`: the requested cell's index, the culled brick, then the
        bookkeeping of `ApplyBrick`. Allocation failure, an `unwrap` panic in the
        source, is excluded by the precondition. */
    method HandleRequest(request: seq<U32>, nb: Neighbourhood) returns (warnings: seq<Warning>)
      requires Valid() && |request| >= 3 && WellFormed(nb)
      requires InBounds(UVec3(request[0], request[1], request[2]), gridDims)
      requires |SurfaceColors(nb)| > 0 ==> allocator.NextAddress(|SurfaceColors(nb)|).Some?
      modifies brickgrid, brickmapCache, allocator, allocator.buckets
      ensures Valid() && warnings == []
      ensures (Contents(), warnings) == old(RequestStep(request, nb))
      ensures |brickmapCache.cache| == old(|brickmapCache.cache|)
    {
      var pos := UVec3(request[0], request[1], request[2]);
      var gridIdx := To1dIndex(pos, gridDims);
      IndexInRange(pos, gridDims);
      var bitmask, albedo := CullInteriorVoxels(nb);
      SurfaceColorsFacts(nb);
      warnings := ApplyBrick(gridIdx, bitmask, albedo);
    }

    /** Lines 169-223 of `handle_request` once the brick is culled: the three
        structures change as `HandleStep` says, which keeps them consistent, so
        nothing is logged. */
    method ApplyBrick(gridIdx: nat, bitmask: seq<U32>, albedo: seq<U32>) returns (warnings: seq<Warning>)
      requires Valid() && gridIdx < |brickgrid.data| && |albedo| <= 512
      requires |albedo| > 0 ==> allocator.NextAddress(|albedo|).Some?
      modifies brickgrid, brickmapCache, allocator, allocator.buckets
      ensures Valid() && warnings == []
      ensures (Contents(), warnings) == HandleStep(old(Contents()), gridIdx, old(Offer(|albedo|)), bitmask, albedo)
      ensures |brickmapCache.cache| == old(|brickmapCache.cache|)
    {
      ghost var v := Contents();
      ghost var off := Offer(|albedo|);
      ConsistentReady(v);
      var element := DefaultElement;
      warnings := [];
      if |albedo| > 0 {
        ghost var s := (v.index + 1) % |v.slots|;
        if v.slots[s].Some? {
          allocator.AllocatedInTable(v.slots[s].value.shadingTableOffset);
        }
        element, warnings := AdmitBrick(gridIdx, bitmask, albedo);
        AdmitPending(v, gridIdx, off, bitmask, albedo);
      } else {
        PlaceEmpty(v, gridIdx);
      }
      ghost var w := brickgrid.data[gridIdx];
      CellSlotHeld(Contents(), gridIdx);
      if GetFlag(w) == Loaded {
        allocator.AllocatedInTable(brickmapCache.cache[GetPointer(w)].value.shadingTableOffset);
      }
      var more := PlaceCell(gridIdx, element);
      warnings := warnings + more;
      HandleStepConsistent(v, gridIdx, off, bitmask, albedo);
    }

    /** Lines 173-199 of `handle_request`: claim shading space, add the cache entry,
        release an evicted entry and mark its cell Unloaded. */
    method AdmitBrick(gridIdx: nat, bitmask: seq<U32>, albedo: seq<U32>) returns (element: U32, warnings: seq<Warning>)
      requires Sound() && gridIdx < |brickgrid.data| && 0 < |albedo| <= 512
      requires allocator.NextAddress(|albedo|).Some?
      requires AdmitReady(Contents())
      requires var s := (brickmapCache.index + 1) % |brickmapCache.cache|;
        brickmapCache.cache[s].Some? ==> brickmapCache.cache[s].value.shadingTableOffset < allocator.totalElements
      modifies brickgrid, brickmapCache, allocator, allocator.buckets
      ensures Sound()
      ensures (Contents(), warnings) == Admit(old(Contents()), gridIdx, old(Offer(|albedo|)), bitmask, albedo)
      ensures element == ElementNew(brickmapCache.index, Loaded)
    {
      var evicted := ClaimEntry(gridIdx, bitmask, albedo);
      warnings := [];
      if evicted.Some? {
        warnings := Evict(evicted.value);
      }
      element := ElementNew(brickmapCache.index, Loaded);
    }

    /** Lines 173-183 of `handle_request`: `try_alloc(...).unwrap()` and `add_entry`.
        Only the allocator and the cache change. */
    method ClaimEntry(gridIdx: nat, bitmask: seq<U32>, albedo: seq<U32>) returns (evicted: Option<CacheEntry>)
      requires brickmapCache.Valid() && allocator.Valid() && allocator.totalElements <= 0x1_0000_0000
      requires |brickmapCache.cache| > 0 && 0 < |albedo| <= 512
      requires allocator.NextAddress(|albedo|).Some?
      modifies brickmapCache, allocator, allocator.buckets
      ensures brickmapCache.Valid() && allocator.Valid()
      ensures var off := old(Offer(|albedo|));
        && |brickmapCache.cache| == old(|brickmapCache.cache|)
        && brickmapCache.index == (old(brickmapCache.index) + 1) % |brickmapCache.cache|
        && evicted == old(brickmapCache.cache)[brickmapCache.index]
        && brickmapCache.cache == old(brickmapCache.cache)[brickmapCache.index := Some(CacheEntry(gridIdx, off))]
        && brickmapCache.staged == old(brickmapCache.staged)
             + [UploadElement(brickmapCache.index, Brickmap(bitmask, off, 0), |albedo|, Padded(albedo))]
        && allocator.Allocated() == old(allocator.Allocated()) + {off}
    {
      var shadingIdx := ClaimShading(|albedo|);
      evicted := brickmapCache.AddEntry(gridIdx, shadingIdx, bitmask, albedo);
    }

    /** Lines 172-175 of `handle_request`: `try_alloc(size).unwrap()` once the
        allocator is known to have room. Only the allocator changes. */
    method ClaimShading(size: nat) returns (shadingIdx: U32)
      requires allocator.Valid() && allocator.totalElements <= 0x1_0000_0000 && size > 0
      requires allocator.NextAddress(size).Some?
      modifies allocator, allocator.buckets
      ensures allocator.Valid()
      ensures shadingIdx == old(Offer(size))
      ensures allocator.Allocated() == old(allocator.Allocated()) + {shadingIdx as nat}
    {
      var claimed := allocator.TryAlloc(size);
      shadingIdx := claimed.value;
    }

    /** Lines 186-195 of `handle_request`: the evicted entry's shading space is
        released and its cell marked Unloaded. Only the allocator and the
        brickgrid change. */
    method Evict(entry: CacheEntry) returns (warnings: seq<Warning>)
      requires brickgrid.Valid() && allocator.Valid()
      requires entry.gridIdx < |brickgrid.data| && entry.shadingTableOffset < allocator.totalElements
      modifies brickgrid, allocator, allocator.buckets
      ensures brickgrid.Valid() && allocator.Valid()
      ensures brickgrid.data == old(brickgrid.data)[entry.gridIdx := ElementNew(0, Unloaded)]
      ensures brickgrid.staged == old(brickgrid.staged) + {entry.gridIdx}
      ensures allocator.Allocated() == old(allocator.Allocated()) - {entry.shadingTableOffset}
      ensures warnings == if entry.shadingTableOffset in old(allocator.Allocated()) then [] else [DeallocFailed(entry.shadingTableOffset)]
    {
      warnings := ReleaseShading(entry.shadingTableOffset);
      var _ := brickgrid.Set(entry.gridIdx, ElementNew(0, Unloaded));
    }

    /** Lines 202-223 of `handle_request`: write the cell, and if its previous word
        was Loaded, release the cache slot it pointed at. */
    method PlaceCell(gridIdx: nat, element: U32) returns (warnings: seq<Warning>)
      requires Sound() && gridIdx < |brickgrid.data|
      requires var w := brickgrid.data[gridIdx];
        GetFlag(w) == Loaded ==>
          && GetPointer(w) < |brickmapCache.cache|
          && (brickmapCache.cache[GetPointer(w)].Some? ==>
                brickmapCache.cache[GetPointer(w)].value.shadingTableOffset < allocator.totalElements)
      modifies brickgrid, brickmapCache, allocator, allocator.buckets
      ensures Sound()
      ensures (Contents(), warnings) == Place(old(Contents()), gridIdx, element)
    {
      ghost var v := Contents();
      var previous := brickgrid.Set(gridIdx, element);
      warnings := [];
      if GetFlag(previous) == Loaded {
        warnings := ReleaseEntry(GetPointer(previous), gridIdx);
      }
    }

    /** Lines 206-222 of `handle_request`: `remove_entry` on the slot the cell
        pointed at; a removed entry is checked against the cell and its shading
        space released. Only the cache and the allocator change. */
    method ReleaseEntry(p: nat, gridIdx: nat) returns (warnings: seq<Warning>)
      requires brickmapCache.Valid() && allocator.Valid() && p < |brickmapCache.cache|
      requires brickmapCache.cache[p].Some? ==> brickmapCache.cache[p].value.shadingTableOffset < allocator.totalElements
      modifies brickmapCache, allocator, allocator.buckets
      ensures brickmapCache.Valid() && allocator.Valid()
      ensures brickmapCache.index == old(brickmapCache.index) && brickmapCache.staged == old(brickmapCache.staged)
      ensures old(brickmapCache.cache[p]).None? ==>
        brickmapCache.cache == old(brickmapCache.cache) && allocator.Allocated() == old(allocator.Allocated()) && warnings == []
      ensures old(brickmapCache.cache[p]).Some? ==>
        var e := old(brickmapCache.cache[p]).value;
        && brickmapCache.cache == old(brickmapCache.cache)[p := None]
        && allocator.Allocated() == old(allocator.Allocated()) - {e.shadingTableOffset}
        && warnings == (if e.gridIdx != gridIdx then [GridIdxMismatch(gridIdx, e.gridIdx)] else [])
                       + (if e.shadingTableOffset in old(allocator.Allocated()) then [] else [DeallocFailed(e.shadingTableOffset)])
    {
      ghost var slots := brickmapCache.cache;
      var removed := brickmapCache.RemoveEntry(p);
      warnings := [];
      if removed.Some? {
        var entry := removed.value;
        if entry.gridIdx != gridIdx {
          warnings := [GridIdxMismatch(gridIdx, entry.gridIdx)];
        }
        var more := ReleaseShading(entry.shadingTableOffset);
        warnings := warnings + more;
      } else {
        assert brickmapCache.cache == slots;
      }
    }

    /** Lines 186-191 and 215-220 of `handle_request`: an entry's shading space
        is released, and a refusal is logged. */
    method ReleaseShading(offset: nat) returns (warnings: seq<Warning>)
      requires allocator.Valid() && offset < allocator.totalElements
      modifies allocator, allocator.buckets
      ensures allocator.Valid()
      ensures allocator.Allocated() == old(allocator.Allocated()) - {offset}
      ensures warnings == if offset in old(allocator.Allocated()) then [] else [DeallocFailed(offset)]
    {
      var freed := allocator.TryDealloc(offset);
      warnings := [];
      if freed.Fail? {
        warnings := [DeallocFailed(offset)];
      }
    }

    /** With the capacity bound, the shading table never runs out. */
    lemma CapacitySuffices(size: nat)
      requires Valid() && Capacity() && size <= 512
      ensures allocator.NextAddress(size).Some?
    {
      OffsetsBound(brickmapCache.cache);
      allocator.CapacityFromLargestBucket(size);
    }

    /** `process_feedback_buffer` (lines 130-152): the requests are handled in
        buffer order, request `k` given the shading address `offsets[k]`, which
        takes the state from the one on entry to `handled` as `HandleAll` says;
        then `upload_unpack_buffers` drains at most `unpackMaxCount` staged cells
        and the oldest staged brickmaps. The world is a function from a grid
        position to the seven bricks around it. */
    method ProcessFeedback(feedback: seq<U32>, world: UVec3 -> Neighbourhood)
      returns (warnings: seq<Warning>, gridCount: nat, gridEntries: seq<(nat, U32)>, brickmaps: seq<UploadElement>,
               ghost offsets: seq<U32>, ghost handled: View)
      requires Valid() && Capacity() && RequestsWellFormed(feedback, gridDims)
      requires forall p :: WellFormed(world(p))
      modifies brickgrid, brickmapCache, allocator, allocator.buckets
      ensures Valid() && warnings == [] && |offsets| == feedback[1]
      ensures HandleAll(old(Contents()), Requests(feedback, gridDims, world, offsets)) == Some(handled)
      ensures Grown(old(Contents()), handled, Requests(feedback, gridDims, world, offsets))
      ensures gridCount == 2 * |gridEntries| && |gridEntries| == Min(unpackMaxCount, |handled.staged|)
      ensures forall k :: 0 <= k < |gridEntries| ==>
        && gridEntries[k].0 in handled.staged && gridEntries[k].0 < |brickgrid.data|
        && gridEntries[k].1 == brickgrid.data[gridEntries[k].0]
      ensures forall k, k' :: 0 <= k < k' < |gridEntries| ==> gridEntries[k].0 != gridEntries[k'].0
      ensures |brickmaps| == Min(unpackMaxCount, |handled.queue|) && handled.queue == brickmaps + brickmapCache.staged
      ensures Contents() == handled.(staged := handled.staged - Drained(gridEntries), queue := handled.queue[|brickmaps|..])
    {
      warnings, offsets := HandleRequests(feedback, world);
      handled := Contents();
      HandleAllEffects(old(Contents()), Requests(feedback, gridDims, world, offsets));
      gridCount, gridEntries, brickmaps := UploadUnpackBuffers();
    }

    /** The loop of `process_feedback_buffer` (lines 141-144): request `k` is
        handled with the shading address `offsets[k]` the allocator offers at
        its turn, so the state moves as `HandleAll` says. */
    method HandleRequests(feedback: seq<U32>, world: UVec3 -> Neighbourhood)
      returns (warnings: seq<Warning>, ghost offsets: seq<U32>)
      requires Valid() && Capacity() && RequestsWellFormed(feedback, gridDims)
      requires forall p :: WellFormed(world(p))
      modifies brickgrid, brickmapCache, allocator, allocator.buckets
      ensures Valid() && warnings == [] && |offsets| == feedback[1]
      ensures HandleAll(old(Contents()), Requests(feedback, gridDims, world, offsets)) == Some(Contents())
    {
      ghost var v0 := Contents();
      var requestCount: nat := feedback[1];
      warnings := [];
      offsets := [];
      var i: nat := 0;
      while i < requestCount
        invariant i <= requestCount && |offsets| == i
        invariant Valid() && Capacity() && warnings == []
        invariant HandleAll(v0, Requests(feedback, gridDims, world, offsets)) == Some(Contents())
      {
        ghost var u, off := Contents(), 0;
        var w;
        w, off := HandleAt(feedback, world, i);
        HandleAllNext(v0, feedback, gridDims, world, offsets, off, u, Contents());
        warnings := warnings + w;
        offsets := offsets + [off];
        i := i + 1;
      }
    }

    /** One pass of that loop (lines 142-143): request `i` is read from the
        buffer, the bricks around its cell are fetched, and `handle_request` runs
        with the address `off` the allocator offers, which is its first fit for
        the brick's colours and not in use. */
    method HandleAt(feedback: seq<U32>, world: UVec3 -> Neighbourhood, i: nat) returns (warnings: seq<Warning>, ghost off: U32)
      requires Valid() && Capacity() && RequestsWellFormed(feedback, gridDims) && i < feedback[1]
      requires forall p :: WellFormed(world(p))
      modifies brickgrid, brickmapCache, allocator, allocator.buckets
      ensures Valid() && Capacity() && warnings == []
      ensures StepReady(old(Contents()), ReqAt(feedback, gridDims, world, i, off))
      ensures var n := |SurfaceColors(world(RequestPos(feedback, i)))|;
        n > 0 ==> old(allocator.NextAddress(n)) == Some(off as nat)
      ensures var q := ReqAt(feedback, gridDims, world, i, off);
        Contents() == HandleStep(old(Contents()), q.g, q.off, q.bitmask, q.albedo).0
    {
      var request := feedback[4 + 4 * i .. 4 + 4 * i + 3];
      assert UVec3(request[0], request[1], request[2]) == RequestPos(feedback, i);
      var nb := world(UVec3(request[0], request[1], request[2]));
      SurfaceColorsFacts(nb);
      CapacitySuffices(|SurfaceColors(nb)|);
      off := Offer(|SurfaceColors(nb)|);
      warnings := HandleRequest(request, nb);
    }

    /** `upload_unpack_buffers`: one bounded drain of the brickgrid's staged cells
        and one of the cache's staged brickmaps. */
    method UploadUnpackBuffers() returns (gridCount: nat, gridEntries: seq<(nat, U32)>, brickmaps: seq<UploadElement>)
      requires Valid()
      modifies brickgrid, brickmapCache
      ensures Valid()
      ensures brickgrid.data == old(brickgrid.data) && brickmapCache.cache == old(brickmapCache.cache)
      ensures gridCount == 2 * |gridEntries| && |gridEntries| == Min(unpackMaxCount, |old(brickgrid.staged)|)
      ensures forall k :: 0 <= k < |gridEntries| ==> gridEntries[k].0 in old(brickgrid.staged) && gridEntries[k].1 == brickgrid.data[gridEntries[k].0]
      ensures forall k, k' :: 0 <= k < k' < |gridEntries| ==> gridEntries[k].0 != gridEntries[k'].0
      ensures brickgrid.staged == old(brickgrid.staged) - Drained(gridEntries)
      ensures |brickmaps| == Min(unpackMaxCount, |old(brickmapCache.staged)|)
      ensures old(brickmapCache.staged) == brickmaps + brickmapCache.staged
      ensures Contents() == old(Contents()).(staged := old(Contents()).staged - Drained(gridEntries),
                                             queue := old(Contents()).queue[|brickmaps|..])
    {
      gridCount, gridEntries := brickgrid.Upload();
      brickmaps := brickmapCache.Upload();
    }
  }
}
