/** The older, monolithic `BrickmapManager` of `src/voxel/brickmap.rs`. It keeps
    the brickgrid words, the cache slots and the ring index as its own fields,
    does its deallocation inside `update_brickgrid_element`, and post-increments
    the ring index, so slot 0 is the first one filled. Its culling helpers and
    its shading-table allocator are copies of `src/voxel/brickworld/util.rs` and
    `src/voxel/brickworld/shading_table.rs` and are modelled once, by
    `VoxelUtil` and `ShadingTable`. */
module Legacy {
  import opened Math
  import opened Wrappers
  import opened Grid
  import opened Cache
  import opened ShadingTable
  import opened VoxelUtil
  import opened Consistency
  import Manager

  /** `update_brickgrid_element` does not panic on indexing: the cell is in the
      grid, and a word whose low nibble says Loaded points at a slot of the ring. */
  predicate UpdateSafe(v: View, index: nat) {
    index < |v.data| && (v.data[index] % 16 == 4 ==> v.data[index] / 256 < |v.slots|)
  }

  /** `update_brickgrid_element(index, word)`: if the old word is Loaded, the slot
      it points at is emptied and that slot's shading address released (a refusal
      is only logged), or a warning is logged when the slot is already empty;
      then the cell takes `word` and is staged. */
  function Update(v: View, index: nat, word: U32): (r: (View, seq<Warning>))
    requires UpdateSafe(v, index)
  {
    var previous := v.data[index];
    var data := v.data[index := word];
    var staged := v.staged + {index};
    if previous % 16 == 4 then
      var p := previous / 256;
      match v.slots[p]
      case Some(e) =>
        var refused := if e.shadingTableOffset in v.live then [] else [DeallocFailed(e.shadingTableOffset)];
        (View(data, staged, v.slots[p := None], v.index, v.queue, v.live - {e.shadingTableOffset}), refused)
      case None =>
        (View(data, staged, v.slots, v.index, v.queue, v.live), [MissingEntry(p)])
    else
      (View(data, staged, v.slots, v.index, v.queue, v.live), [])
  }

  /** On a cell whose Loaded word points at a slot naming it, the older
      `update_brickgrid_element` does exactly what the cell update of the
      refactored `handle_request` does. */
  lemma UpdateIsPlace(v: View, g: nat, word: U32)
    requires g < |v.data|
    requires GetFlag(v.data[g]) == Loaded ==>
      && GetPointer(v.data[g]) < |v.slots|
      && v.slots[GetPointer(v.data[g])].Some?
      && v.slots[GetPointer(v.data[g])].value.gridIdx == g
    ensures UpdateSafe(v, g)
    ensures Update(v, g, word) == Place(v, g, word)
  {
    var previous := v.data[g];
    assert GetFlag(previous) == Loaded <==> previous % 16 == 4;
    if GetFlag(previous) == Loaded {
      var e := v.slots[GetPointer(previous)].value;
      var refused := if e.shadingTableOffset in v.live then [] else [DeallocFailed(e.shadingTableOffset)];
      assert [] + refused == refused;
    }
  }

  /** The state after the first write of a non-empty request: cell `g` already
      points at slot `index`, which does not name `g`; every other Loaded cell
      and every occupied slot are linked, and the addresses are still exactly
      the slots' offsets. */
  predicate Detached(v: View, g: nat) {
    && 0 < |v.slots| < MaxSlots && v.index < |v.slots| && g < |v.data|
    && v.data[g] == ElementNew(v.index, Loaded)
    && (v.slots[v.index].Some? ==> v.slots[v.index].value.gridIdx != g)
    && (forall i :: 0 <= i < |v.data| && i != g && GetFlag(v.data[i]) == Loaded ==>
          && GetPointer(v.data[i]) < |v.slots|
          && v.slots[GetPointer(v.data[i])].Some?
          && v.slots[GetPointer(v.data[i])].value.gridIdx == i)
    && (forall s :: 0 <= s < |v.slots| ==> SlotLinked(v.data, v.slots, s))
    && OffsetsDistinct(v.slots)
    && Offsets(v.slots) == v.live
  }

  /** `Detached` with slot `index` emptied: ready to be filled for `g`. */
  predicate Vacant(v: View, g: nat) {
    Detached(v, g) && v.slots[v.index].None?
  }

  /** Lines 233-244 of `process_feedback_buffer`: cell `g` is pointed at ring slot
      `index`, and then the slot's previous owner, if any, is marked Unloaded. */
  function Cleared(v: View, g: nat): (r: (View, seq<Warning>))
    requires Consistent(v) && g < |v.data|
  {
    DetachCell(v, g);
    var (v1, w1) := Update(v, g, ToBrickgridElement(v.index, Loaded));
    if v1.slots[v1.index].Some? then
      EvictOwner(v1, g);
      var (v2, w2) := Update(v1, v1.slots[v1.index].value.gridIdx, 1);
      (v2, w1 + w2)
    else
      (v1, w1)
  }

  /** Lines 246-276 of `process_feedback_buffer`: slot `index` takes cell `g` and
      shading address `off`, the brick is staged for upload under that slot, and
      the ring index moves on. */
  function Fill(v: View, g: nat, off: U32, bitmask: seq<U32>, albedo: seq<U32>): View
    requires v.index < |v.slots| && |albedo| <= 512
  {
    var c := v.index;
    View(v.data, v.staged, v.slots[c := Some(CacheEntry(g, off))], (c + 1) % |v.slots|,
         v.queue + [UploadElement(c, Brickmap(bitmask, off, 0), |albedo|, Padded(albedo))],
         v.live + {off})
  }

  /** `Fill` only adds `off` to the live addresses. */
  lemma FillLive(v: View, g: nat, off: U32, bitmask: seq<U32>, albedo: seq<U32>)
    requires v.index < |v.slots| && |albedo| <= 512
    ensures Fill(v.(live := v.live + {off}), g, off, bitmask, albedo).(live := v.live + {off})
         == Fill(v, g, off, bitmask, albedo)
  {
  }

  /** One request of the loop of `process_feedback_buffer` for cell `g` whose
      culled brick is `bitmask` and `albedo`, with `off` the address the allocator
      hands out once the earlier updates have released theirs. */
  function Request(v: View, g: nat, off: U32, bitmask: seq<U32>, albedo: seq<U32>): (r: (View, seq<Warning>))
    requires Consistent(v) && g < |v.data| && |albedo| <= 512
  {
    if |albedo| == 0 then
      UpdateIsPlace(v, g, 0);
      Update(v, g, 0)
    else
      ClearedVacant(v, g);
      var (v2, w) := Cleared(v, g);
      (Fill(v2, g, off, bitmask, albedo), w)
  }

  /** Pointing a cell of a consistent state at slot `index` detaches it. */
  lemma DetachCell(v: View, g: nat)
    requires Consistent(v) && g < |v.data|
    ensures UpdateSafe(v, g)
    ensures var (r, w) := Update(v, g, ElementNew(v.index, Loaded));
      && Detached(r, g) && w == []
      && r.index == v.index && r.queue == v.queue && g in r.staged && r.live <= v.live
      && |r.data| == |v.data| && |r.slots| == |v.slots|
  {
    var element := ElementNew(v.index, Loaded);
    UpdateIsPlace(v, g, element);
    var r := Update(v, g, element).0;
    var previous := v.data[g];
    var p := GetPointer(previous);
    if GetFlag(previous) == Loaded {
      OffsetsClear(v.slots, p);
    }
    forall t | 0 <= t < |r.slots| && r.slots[t].Some?
      ensures SlotLinked(r.data, r.slots, t) && r.slots[t].value.gridIdx != g
    {
      assert SlotLinked(v.data, v.slots, t);
      UnlinkedCell(v, g, t);
    }
    forall i | 0 <= i < |r.data| && i != g && GetFlag(r.data[i]) == Loaded
      ensures GetPointer(r.data[i]) < |r.slots| && r.slots[GetPointer(r.data[i])].Some? && r.slots[GetPointer(r.data[i])].value.gridIdx == i
    {
      assert r.data[i] == v.data[i];
    }
  }

  /** Marking the owner of slot `index` Unloaded empties the slot and releases
      its address. */
  lemma EvictOwner(v: View, g: nat)
    requires Detached(v, g) && v.slots[v.index].Some?
    ensures UpdateSafe(v, v.slots[v.index].value.gridIdx)
    ensures var (r, w) := Update(v, v.slots[v.index].value.gridIdx, 1);
      && Vacant(r, g) && w == []
      && r.index == v.index && r.queue == v.queue && r.live <= v.live
      && |r.data| == |v.data| && |r.slots| == |v.slots|
  {
    var c := v.index;
    var h := v.slots[c].value.gridIdx;
    assert SlotLinked(v.data, v.slots, c);
    ElementRoundTrip(c, Loaded);
    UpdateIsPlace(v, h, 1);
    var r := Update(v, h, 1).0;
    OffsetsClear(v.slots, c);
    assert GetFlag(1) == Unloaded;
    forall t | 0 <= t < |r.slots| && r.slots[t].Some?
      ensures SlotLinked(r.data, r.slots, t)
    {
      assert SlotLinked(v.data, v.slots, t);
      if v.slots[t].value.gridIdx == h {
        ElementRoundTrip(t, Loaded);
        assert false;
      }
    }
    forall i | 0 <= i < |r.data| && i != g && GetFlag(r.data[i]) == Loaded
      ensures GetPointer(r.data[i]) < |r.slots| && r.slots[GetPointer(r.data[i])].Some? && r.slots[GetPointer(r.data[i])].value.gridIdx == i
    {
      assert i != h && r.data[i] == v.data[i];
    }
  }

  /** The first two writes of a non-empty request leave slot `index` vacant for
      cell `g`, log nothing, and claim no address. */
  lemma ClearedVacant(v: View, g: nat)
    requires Consistent(v) && g < |v.data|
    ensures var (r, w) := Cleared(v, g);
      && Vacant(r, g) && w == []
      && r.index == v.index && r.queue == v.queue && g in r.staged && r.live <= v.live
      && v.staged <= r.staged && |r.data| == |v.data| && |r.slots| == |v.slots|
  {
    DetachCell(v, g);
    var (v1, w1) := Update(v, g, ElementNew(v.index, Loaded));
    if v1.slots[v1.index].Some? {
      EvictOwner(v1, g);
    }
  }

  /** Filling the vacant slot with a fresh address restores consistency. */
  lemma FillConsistent(v: View, g: nat, off: U32, bitmask: seq<U32>, albedo: seq<U32>)
    requires Vacant(v, g) && |albedo| <= 512 && off !in v.live
    ensures Consistent(Fill(v, g, off, bitmask, albedo))
  {
    var c := v.index;
    var r := Fill(v, g, off, bitmask, albedo);
    OffsetsFill(v.slots, c, CacheEntry(g, off));
    ElementRoundTrip(c, Loaded);
    forall t | 0 <= t < |r.slots| ensures SlotLinked(r.data, r.slots, t) {
      if t != c {
        assert SlotLinked(v.data, v.slots, t);
      }
    }
  }

  /** A request keeps the manager consistent and so logs nothing. A non-empty
      brick takes ring slot `index` (the post-increment: the slot used is the one
      the index named before the request), its cell points there, and the index
      moves on by one; an empty brick leaves its cell Empty, the ring index where
      it was, and claims no address. */
  lemma RequestConsistent(v: View, g: nat, off: U32, bitmask: seq<U32>, albedo: seq<U32>)
    requires Consistent(v) && g < |v.data| && |albedo| <= 512
    requires |albedo| > 0 ==> off !in Cleared(v, g).0.live
    ensures var (r, w) := Request(v, g, off, bitmask, albedo);
      && Consistent(r) && w == []
      && |r.data| == |v.data| && |r.slots| == |v.slots| && g in r.staged
      && v.staged <= r.staged && |v.queue| <= |r.queue| && r.queue[..|v.queue|] == v.queue
      && (|albedo| > 0 ==>
            && r.data[g] == ElementNew(v.index, Loaded)
            && GetPointer(r.data[g]) == v.index
            && r.slots[v.index] == Some(CacheEntry(g, off))
            && r.index == (v.index + 1) % |v.slots|
            && |r.queue| == |v.queue| + 1 && r.queue[|v.queue|].cacheIdx == v.index)
      && (|albedo| == 0 ==>
            && r.data[g] == DefaultElement
            && r.index == v.index && r.queue == v.queue && r.live <= v.live)
  {
    if |albedo| > 0 {
      ClearedVacant(v, g);
      var (v2, w) := Cleared(v, g);
      FillConsistent(v2, g, off, bitmask, albedo);
      ElementRoundTrip(v.index, Loaded);
    } else {
      UpdateIsPlace(v, g, 0);
      PlaceEmpty(v, g);
    }
  }

  /** `Request` may take request `q` in state `v`: the cell exists, the brick fits
      a slot, and a non-empty brick's address is not in use once the request's own
      writes have released theirs. */
  predicate RequestReady(v: View, q: Req)
    requires Consistent(v)
  {
    q.g < |v.data| && |q.albedo| <= 512 && (|q.albedo| > 0 ==> q.off !in Cleared(v, q.g).0.live)
  }

  /** The loop of `process_feedback_buffer` (lines 213-277): the requests handled in
      order from `v`, or None if one of them is not ready when its turn comes. */
  function RequestAll(v: View, reqs: seq<Req>): (r: Option<View>)
    requires Consistent(v)
    ensures r.Some? ==> Consistent(r.value) && |r.value.data| == |v.data| && |r.value.slots| == |v.slots|
    decreases |reqs|
  {
    if reqs == [] then Some(v)
    else
      match RequestAll(v, reqs[..|reqs| - 1])
      case None => None
      case Some(u) =>
        var q := reqs[|reqs| - 1];
        if RequestReady(u, q) then
          RequestConsistent(u, q.g, q.off, q.bitmask, q.albedo);
          Some(Request(u, q.g, q.off, q.bitmask, q.albedo).0)
        else None
  }

  /** Handling one more ready request is one more `Request`. */
  lemma RequestAllSnoc(v: View, reqs: seq<Req>, q: Req)
    requires Consistent(v) && RequestAll(v, reqs).Some? && RequestReady(RequestAll(v, reqs).value, q)
    ensures RequestAll(v, reqs + [q]) == Some(Request(RequestAll(v, reqs).value, q.g, q.off, q.bitmask, q.albedo).0)
  {
    assert (reqs + [q])[..|reqs|] == reqs;
  }

  /** A pass of ready requests has the effects `Grown` states. */
  lemma {:induction false} RequestAllEffects(v: View, reqs: seq<Req>)
    requires Consistent(v) && RequestAll(v, reqs).Some?
    ensures Grown(v, RequestAll(v, reqs).value, reqs)
    decreases |reqs|
  {
    if reqs == [] {
      assert Loads(reqs) == 0 && RequestAll(v, reqs) == Some(v);
      DivModUnique(v.index, |v.slots|, 0, v.index);
    } else {
      var n := |reqs| - 1;
      var init, q := reqs[..n], reqs[n];
      assert reqs == init + [q];
      RequestAllEffects(v, init);
      var u := RequestAll(v, init).value;
      RequestConsistent(u, q.g, q.off, q.bitmask, q.albedo);
      var r := Request(u, q.g, q.off, q.bitmask, q.albedo).0;
      assert RequestAll(v, reqs) == Some(r);
      GrownSnoc(v, u, r, init, q);
    }
  }

  /** A pass over the first `|offs|` requests followed by a ready request `|offs|`
      is the pass over the first `|offs| + 1`. */
  lemma RequestAllNext(v: View, feedback: seq<U32>, dims: UVec3, world: UVec3 -> Neighbourhood,
                       offs: seq<U32>, off: U32, u: View, r: View)
    requires Manager.RequestsWellFormed(feedback, dims) && |offs| < feedback[1]
    requires forall p :: WellFormed(world(p))
    requires Consistent(v) && RequestAll(v, Manager.Requests(feedback, dims, world, offs)) == Some(u)
    requires RequestReady(u, Manager.ReqAt(feedback, dims, world, |offs|, off))
    requires var q := Manager.ReqAt(feedback, dims, world, |offs|, off);
      r == Request(u, q.g, q.off, q.bitmask, q.albedo).0
    ensures RequestAll(v, Manager.Requests(feedback, dims, world, offs + [off])) == Some(r)
  {
    Manager.RequestsSnoc(feedback, dims, world, offs, off);
    RequestAllSnoc(v, Manager.Requests(feedback, dims, world, offs), Manager.ReqAt(feedback, dims, world, |offs|, off));
  }

  /** A new manager: every grid word 1 (Unloaded), every slot empty, ring index 0,
      nothing staged and nothing allocated. */
  function Fresh(volume: nat, size: nat): View {
    View(seq(volume, _ => 1), {}, seq(size, _ => None), 0, [], {})
  }

  /** The two managers fill the ring from different ends. This one writes the
      ring slot before advancing, so from ring index 0 (as on a new manager) a
      non-empty request lands in slot 0 ... */
  lemma LegacyFirstSlot(v: View, g: nat, off: U32, bitmask: seq<U32>, albedo: seq<U32>)
    requires Consistent(v) && v.index == 0 && g < |v.data| && 0 < |albedo| <= 512 && off !in v.live
    ensures |Request(v, g, off, bitmask, albedo).0.slots| == |v.slots|
    ensures Request(v, g, off, bitmask, albedo).0.slots[0] == Some(CacheEntry(g, off))
  {
    ClearedVacant(v, g);
    RequestConsistent(v, g, off, bitmask, albedo);
  }

  /** ... while the refactored manager advances first and fills slot `1 % n`. */
  lemma RefactoredFirstSlot(v: View, g: nat, off: U32, bitmask: seq<U32>, albedo: seq<U32>)
    requires Consistent(v) && v.index == 0 && g < |v.data| && 0 < |albedo| <= 512 && off !in v.live
    ensures Consistent(HandleStep(v, g, off, bitmask, albedo).0)
    ensures HandleStep(v, g, off, bitmask, albedo).0.index == 1 % |v.slots|
    ensures HandleStep(v, g, off, bitmask, albedo).0.slots[1 % |v.slots|] == Some(CacheEntry(g, off))
  {
    HandleStepConsistent(v, g, off, bitmask, albedo);
  }

  class BrickmapManager {
    const gridDims: UVec3
    var brickgrid: seq<U32>
    var brickgridStaged: set<nat>
    var brickmapCacheMap: seq<Option<CacheEntry>>
    var brickmapCacheIdx: nat
    const allocator: ShadingTableAllocator
    const unpackMaxCount: nat
    var brickmapStaged: seq<UploadElement>

    /** The manager's fields and the allocator's handed-out addresses. */
    ghost function Contents(): View
      reads this, allocator, allocator.buckets
    {
      View(brickgrid, brickgridStaged, brickmapCacheMap, brickmapCacheIdx, brickmapStaged, allocator.Allocated())
    }

    /** The allocator is well formed with 32-bit addresses, and the grid has one
        word per cell, of which only existing cells are staged. */
    ghost predicate Sound()
      reads this, allocator, allocator.buckets
    {
      && allocator.Valid() && allocator.totalElements <= 0x1_0000_0000
      && |brickgrid| == Volume(gridDims)
      && forall i :: i in brickgridStaged ==> i < |brickgrid|
    }

    ghost predicate Valid()
      reads this, allocator, allocator.buckets
    {
      Sound() && Consistent(Contents())
    }

    /** The 512-word bucket has more slots than the ring. */
    ghost predicate Capacity()
      reads this, allocator, allocator.buckets
    {
      && allocator.bucketCount >= 1 && |allocator.buckets| == allocator.bucketCount
      && |brickmapCacheMap| < allocator.buckets[allocator.bucketCount - 1].slotCount
    }

    /** `BrickmapManager::new` without its GPU buffers: every grid word 1
        (Unloaded), every slot empty, ring index 0, four shading buckets. */
    constructor (gridDims: UVec3, cacheSize: nat, bucketSize: nat, maxUploaded: nat)
      requires 0 < cacheSize < MaxSlots && 4 * bucketSize < 0x1_0000_0000
      ensures Valid()
      ensures Contents() == Fresh(Volume(gridDims), cacheSize)
      ensures allocator.bucketCount == 4 && allocator.elementsPerBucket == bucketSize
      ensures unpackMaxCount == maxUploaded
    {
      this.gridDims := gridDims;
      brickgrid := seq(Volume(gridDims), _ => 1);
      brickgridStaged := {};
      brickmapCacheMap := seq(cacheSize, _ => None);
      brickmapCacheIdx := 0;
      allocator := new ShadingTableAllocator(4, bucketSize);
      unpackMaxCount := maxUploaded;
      brickmapStaged := [];
      new;
      InitialConsistent(Volume(gridDims), cacheSize);
      assert brickgrid == seq(Volume(gridDims), _ => ElementNew(0, Unloaded));
    }

    /** `update_brickgrid_element`, as `Update` says. */
    method UpdateBrickgridElement(index: nat, data: U32) returns (warnings: seq<Warning>)
      requires Sound() && UpdateSafe(Contents(), index)
      requires var w := brickgrid[index];
        w % 16 == 4 && brickmapCacheMap[w / 256].Some? ==>
          brickmapCacheMap[w / 256].value.shadingTableOffset < allocator.totalElements
      modifies this, allocator, allocator.buckets
      ensures Sound() && allocator.FreeCovers(old(allocator.Frees()))
      ensures (Contents(), warnings) == Update(old(Contents()), index, data)
    {
      warnings := [];
      if brickgrid[index] % 16 == 4 {
        var brickmapIdx := brickgrid[index] / 256;
        warnings := ReleaseCacheEntry(brickmapIdx);
      }
      brickgrid := brickgrid[index := data];
      brickgridStaged := brickgridStaged + {index};
    }

    /** Lines 293-307 of `update_brickgrid_element`: an occupied slot has its
        shading address released and is emptied; an empty one is only logged.
        The grid and the upload queue are untouched. */
    method ReleaseCacheEntry(brickmapIdx: nat) returns (warnings: seq<Warning>)
      requires allocator.Valid() && brickmapIdx < |brickmapCacheMap|
      requires brickmapCacheMap[brickmapIdx].Some? ==>
        brickmapCacheMap[brickmapIdx].value.shadingTableOffset < allocator.totalElements
      modifies this, allocator, allocator.buckets
      ensures allocator.Valid() && allocator.FreeCovers(old(allocator.Frees()))
      ensures brickgrid == old(brickgrid) && brickgridStaged == old(brickgridStaged)
      ensures brickmapCacheIdx == old(brickmapCacheIdx) && brickmapStaged == old(brickmapStaged)
      ensures old(brickmapCacheMap[brickmapIdx]).None? ==>
        && brickmapCacheMap == old(brickmapCacheMap) && allocator.Allocated() == old(allocator.Allocated())
        && warnings == [MissingEntry(brickmapIdx)]
      ensures old(brickmapCacheMap[brickmapIdx]).Some? ==>
        var off := old(brickmapCacheMap[brickmapIdx]).value.shadingTableOffset;
        && brickmapCacheMap == old(brickmapCacheMap)[brickmapIdx := None]
        && allocator.Allocated() == old(allocator.Allocated()) - {off}
        && warnings == if off in old(allocator.Allocated()) then [] else [DeallocFailed(off)]
    {
      var cacheMapEntry := brickmapCacheMap[brickmapIdx];
      match cacheMapEntry {
        case Some(entry) =>
          var freed := allocator.TryDealloc(entry.shadingTableOffset);
          warnings := [];
          if freed.Fail? {
            warnings := [DeallocFailed(entry.shadingTableOffset)];
          }
          brickmapCacheMap := brickmapCacheMap[brickmapIdx := None];
        case None =>
          warnings := [MissingEntry(brickmapIdx)];
      }
    }

    /** The step `HandleRequest` takes, with `off` the address handed out for the
        brick's colours: the requested cell and its culled brick, as `Request` says. */
    ghost function RequestStep(request: seq<U32>, nb: Neighbourhood, off: U32): (View, seq<Warning>)
      reads this, allocator, allocator.buckets
      requires Valid() && |request| >= 3 && WellFormed(nb)
      requires InBounds(UVec3(request[0], request[1], request[2]), gridDims)
    {
      IndexInRange(UVec3(request[0], request[1], request[2]), gridDims);
      SurfaceColorsFacts(nb);
      Request(Contents(), To1dIndex(UVec3(request[0], request[1], request[2]), gridDims), off,
              MaskWords(SurfaceBits(nb)), SurfaceColors(nb))
    }

    /** Request `request` with shading address `off` is ready: a non-empty brick's
        address is not in use once the request's own writes have released theirs. */
    ghost predicate OfferReady(request: seq<U32>, nb: Neighbourhood, off: U32)
      reads this, allocator, allocator.buckets
      requires Valid() && |request| >= 3 && WellFormed(nb)
      requires InBounds(UVec3(request[0], request[1], request[2]), gridDims)
    {
      IndexInRange(UVec3(request[0], request[1], request[2]), gridDims);
      SurfaceColorsFacts(nb);
      RequestReady(Contents(), Req(To1dIndex(UVec3(request[0], request[1], request[2]), gridDims), off,
                                   MaskWords(SurfaceBits(nb)), SurfaceColors(nb)))
    }

    /** One pass of the loop of `process_feedback_buffer` (lines 215-276) for the
        position `request[0..3]` whose seven surrounding bricks are `nb`: the
        state changes as `Request` says, with `offset` the shading address the
        allocator handed out. A non-empty brick needs room in the shading table
        (in the source a full table is an `unwrap` panic). */
    method HandleRequest(request: seq<U32>, nb: Neighbourhood) returns (warnings: seq<Warning>, ghost offset: U32)
      requires Valid() && |request| >= 3 && WellFormed(nb)
      requires InBounds(UVec3(request[0], request[1], request[2]), gridDims)
      requires |SurfaceColors(nb)| > 0 ==> allocator.NextAddress(|SurfaceColors(nb)|).Some?
      modifies this, allocator, allocator.buckets
      ensures Valid() && warnings == [] && |brickmapCacheMap| == old(|brickmapCacheMap|)
      ensures (Contents(), warnings) == old(RequestStep(request, nb, offset))
      ensures old(OfferReady(request, nb, offset))
    {
      var pos := UVec3(request[0], request[1], request[2]);
      var gridIdx := To1dIndex(pos, gridDims);
      IndexInRange(pos, gridDims);
      var bitmask, albedo := CullInteriorVoxels(nb);
      SurfaceColorsFacts(nb);
      if |albedo| == 0 {
        warnings := EmptyBrick(gridIdx);
        offset := 0;
      } else {
        warnings, offset := LoadBrick(gridIdx, bitmask, albedo);
      }
    }

    /** Lines 228-231: an empty brick only rewrites its cell as 0. */
    method EmptyBrick(gridIdx: nat) returns (warnings: seq<Warning>)
      requires Valid() && gridIdx < |brickgrid|
      modifies this, allocator, allocator.buckets
      ensures Valid() && warnings == [] && |brickmapCacheMap| == old(|brickmapCacheMap|)
      ensures (Contents(), warnings) == Request(old(Contents()), gridIdx, 0, [], [])
    {
      ghost var v := Contents();
      CellSlotHeld(v, gridIdx);
      if GetFlag(brickgrid[gridIdx]) == Loaded {
        allocator.AllocatedInTable(brickmapCacheMap[GetPointer(brickgrid[gridIdx])].value.shadingTableOffset);
      }
      UpdateIsPlace(v, gridIdx, 0);
      warnings := UpdateBrickgridElement(gridIdx, 0);
      RequestConsistent(v, gridIdx, 0, [], []);
    }

    /** Lines 233-276 for a non-empty brick: point the cell at ring slot
        `brickmapCacheIdx`, unload that slot's previous owner, then fill the slot. */
    method LoadBrick(gridIdx: nat, bitmask: seq<U32>, albedo: seq<U32>) returns (warnings: seq<Warning>, ghost offset: U32)
      requires Valid() && gridIdx < |brickgrid| && 0 < |albedo| <= 512
      requires allocator.NextAddress(|albedo|).Some?
      modifies this, allocator, allocator.buckets
      ensures Valid() && warnings == [] && |brickmapCacheMap| == old(|brickmapCacheMap|)
      ensures (Contents(), warnings) == Request(old(Contents()), gridIdx, offset, bitmask, albedo)
      ensures offset !in Cleared(old(Contents()), gridIdx).0.live
    {
      ghost var v, f0 := Contents(), allocator.Frees();
      allocator.NextFromFrees(|albedo|);
      warnings := ClearSlot(gridIdx);
      allocator.RoomKept(f0, |albedo|);
      ghost var v2 := Contents();
      offset := FillSlot(gridIdx, bitmask, albedo);
      assert offset !in v2.live;
      FillConsistent(v2, gridIdx, offset, bitmask, albedo);
    }

    /** Lines 233-244: cell `gridIdx` is pointed at ring slot `brickmapCacheIdx`,
        then the slot's previous owner, if any, is set Unloaded and its shading
        address released, which leaves the slot vacant for the cell. */
    method ClearSlot(gridIdx: nat) returns (warnings: seq<Warning>)
      requires Valid() && gridIdx < |brickgrid|
      modifies this, allocator, allocator.buckets
      ensures Sound() && |brickmapCacheMap| == old(|brickmapCacheMap|)
      ensures (Contents(), warnings) == Cleared(old(Contents()), gridIdx)
      ensures Vacant(Contents(), gridIdx) && warnings == []
      ensures allocator.FreeCovers(old(allocator.Frees()))
    {
      ghost var v, f0 := Contents(), allocator.Frees();
      CellSlotHeld(v, gridIdx);
      if GetFlag(brickgrid[gridIdx]) == Loaded {
        allocator.AllocatedInTable(brickmapCacheMap[GetPointer(brickgrid[gridIdx])].value.shadingTableOffset);
      }
      DetachCell(v, gridIdx);
      UpdateIsPlace(v, gridIdx, ElementNew(brickmapCacheIdx, Loaded));
      var element := ToBrickgridElement(brickmapCacheIdx, Loaded);
      warnings := UpdateBrickgridElement(gridIdx, element);
      ghost var f1 := allocator.Frees();
      if brickmapCacheMap[brickmapCacheIdx].Some? {
        var entry := brickmapCacheMap[brickmapCacheIdx].value;
        ghost var v1 := Contents();
        EvictOwner(v1, gridIdx);
        assert entry.shadingTableOffset in Offsets(brickmapCacheMap);
        allocator.AllocatedInTable(entry.shadingTableOffset);
        assert SlotLinked(brickgrid, brickmapCacheMap, brickmapCacheIdx);
        ElementRoundTrip(brickmapCacheIdx, Loaded);
        var more := UpdateBrickgridElement(entry.gridIdx, 1);
        warnings := warnings + more;
        CoversTrans(f0, f1, allocator.Frees());
      }
      ClearedVacant(v, gridIdx);
    }

    /** Lines 246-276: `try_alloc(...).unwrap()`, the cache-map entry, the staged
        brickmap and the ring step. */
    method FillSlot(gridIdx: nat, bitmask: seq<U32>, albedo: seq<U32>) returns (shadingIdx: U32)
      requires Sound() && brickmapCacheIdx < |brickmapCacheMap| && 0 < |albedo| <= 512
      requires Offsets(brickmapCacheMap) == allocator.Allocated() && allocator.NextAddress(|albedo|).Some?
      modifies this, allocator, allocator.buckets
      ensures Sound() && |brickmapCacheMap| == old(|brickmapCacheMap|)
      ensures old(allocator.NextAddress(|albedo|)) == Some(shadingIdx as nat)
      ensures shadingIdx !in old(allocator.Allocated())
      ensures Contents() == Fill(old(Contents()), gridIdx, shadingIdx, bitmask, albedo)
    {
      ghost var v := Contents();
      shadingIdx := ClaimShading(|albedo|);
      RecordSlot(gridIdx, shadingIdx, bitmask, albedo);
      FillLive(v, gridIdx, shadingIdx, bitmask, albedo);
    }

    /** Lines 250-276: the cache-map entry, the staged brickmap with its colours
        padded to 512 words, and the ring step after the write. */
    method RecordSlot(gridIdx: nat, shadingIdx: U32, bitmask: seq<U32>, albedo: seq<U32>)
      requires brickmapCacheIdx < |brickmapCacheMap| && |albedo| <= 512
      modifies this
      ensures brickgrid == old(brickgrid) && brickgridStaged == old(brickgridStaged)
      ensures brickmapCacheMap == old(brickmapCacheMap[brickmapCacheIdx := Some(CacheEntry(gridIdx, shadingIdx))])
      ensures brickmapCacheIdx == old((brickmapCacheIdx + 1) % |brickmapCacheMap|)
      ensures brickmapStaged == old(brickmapStaged)
        + [UploadElement(old(brickmapCacheIdx), Brickmap(bitmask, shadingIdx, 0), |albedo|, Padded(albedo))]
      ensures old(allocator.Valid()) ==> allocator.Valid()
      ensures Contents() == Fill(old(Contents()), gridIdx, shadingIdx, bitmask, albedo).(live := old(Contents()).live)
    {
      brickmapCacheMap := brickmapCacheMap[brickmapCacheIdx := Some(CacheEntry(gridIdx, shadingIdx))];
      var brickmap := Brickmap(bitmask, shadingIdx, 0);
      var shadingElements := albedo + seq(512 - |albedo|, _ => 0);
      brickmapStaged := brickmapStaged + [UploadElement(brickmapCacheIdx, brickmap, |albedo|, shadingElements)];
      brickmapCacheIdx := (brickmapCacheIdx + 1) % |brickmapCacheMap|;
    }

    /** Line 248: `try_alloc(size).unwrap()` once the allocator is known to have room. */
    method ClaimShading(size: nat) returns (shadingIdx: U32)
      requires allocator.Valid() && allocator.totalElements <= 0x1_0000_0000
      requires allocator.NextAddress(size).Some?
      modifies allocator, allocator.buckets
      ensures allocator.Valid()
      ensures old(allocator.NextAddress(size)) == Some(shadingIdx as nat)
      ensures shadingIdx !in old(allocator.Allocated())
      ensures allocator.Allocated() == old(allocator.Allocated()) + {shadingIdx as nat}
      ensures Contents() == old(Contents()).(live := old(Contents()).live + {shadingIdx as nat})
    {
      allocator.NextAddressFresh(size);
      var claimed := allocator.TryAlloc(size);
      shadingIdx := claimed.value;
    }

    /** With the capacity bound and the addresses being the slots' offsets, the
        shading table never runs out. */
    lemma CapacitySuffices(size: nat)
      requires Sound() && Capacity() && Offsets(brickmapCacheMap) == allocator.Allocated() && size <= 512
      ensures allocator.NextAddress(size).Some?
    {
      OffsetsBound(brickmapCacheMap);
      allocator.CapacityFromLargestBucket(size);
    }

    /** `process_feedback_buffer` without its GPU readback: no request means only
        the uploads; otherwise the requests are handled in buffer order, request
        `k` given the shading address `offsets[k]`, which takes the state from
        the one on entry to `handled` as `RequestAll` says, and the uploads
        drain at most `unpackMaxCount` staged cells and the oldest staged
        brickmaps. */
    method ProcessFeedback(feedback: seq<U32>, world: UVec3 -> Neighbourhood)
      returns (warnings: seq<Warning>, gridCount: nat, gridEntries: seq<(nat, U32)>, brickmaps: seq<UploadElement>,
               ghost offsets: seq<U32>, ghost handled: View)
      requires Valid() && Capacity() && Manager.RequestsWellFormed(feedback, gridDims)
      requires forall p :: WellFormed(world(p))
      modifies this, allocator, allocator.buckets
      ensures Valid() && warnings == [] && |offsets| == feedback[1]
      ensures RequestAll(old(Contents()), Manager.Requests(feedback, gridDims, world, offsets)) == Some(handled)
      ensures Grown(old(Contents()), handled, Manager.Requests(feedback, gridDims, world, offsets))
      ensures gridCount == 2 * |gridEntries| && |gridEntries| == Min(unpackMaxCount, |handled.staged|)
      ensures forall k :: 0 <= k < |gridEntries| ==>
        && gridEntries[k].0 in handled.staged && gridEntries[k].0 < |brickgrid|
        && gridEntries[k].1 == brickgrid[gridEntries[k].0]
      ensures forall k, k' :: 0 <= k < k' < |gridEntries| ==> gridEntries[k].0 != gridEntries[k'].0
      ensures |brickmaps| == Min(unpackMaxCount, |handled.queue|) && handled.queue == brickmaps + brickmapStaged
      ensures Contents() == handled.(staged := handled.staged - Drained(gridEntries), queue := handled.queue[|brickmaps|..])
    {
      var requestCount: nat := feedback[1];
      warnings := [];
      offsets := [];
      if requestCount > 0 {
        warnings, offsets := HandleRequests(feedback, world);
      }
      handled := Contents();
      RequestAllEffects(old(Contents()), Manager.Requests(feedback, gridDims, world, offsets));
      gridCount, gridEntries, brickmaps := UploadUnpackBuffers();
    }

    /** The loop of `process_feedback_buffer` (lines 213-277): request `k` is
        handled with the shading address `offsets[k]` the allocator hands out at
        its turn, so the state moves as `RequestAll` says. */
    method HandleRequests(feedback: seq<U32>, world: UVec3 -> Neighbourhood)
      returns (warnings: seq<Warning>, ghost offsets: seq<U32>)
      requires Valid() && Capacity() && Manager.RequestsWellFormed(feedback, gridDims)
      requires forall p :: WellFormed(world(p))
      modifies this, allocator, allocator.buckets
      ensures Valid() && warnings == [] && |offsets| == feedback[1]
      ensures RequestAll(old(Contents()), Manager.Requests(feedback, gridDims, world, offsets)) == Some(Contents())
    {
      ghost var v0 := Contents();
      var requestCount: nat := feedback[1];
      warnings := [];
      offsets := [];
      var i: nat := 0;
      while i < requestCount
        invariant i <= requestCount && |offsets| == i
        invariant Valid() && Capacity() && warnings == []
        invariant RequestAll(v0, Manager.Requests(feedback, gridDims, world, offsets)) == Some(Contents())
      {
        ghost var u, off := Contents(), 0;
        var w;
        w, off := HandleAt(feedback, world, i);
        RequestAllNext(v0, feedback, gridDims, world, offsets, off, u, Contents());
        warnings := warnings + w;
        offsets := offsets + [off];
        i := i + 1;
      }
    }

    /** One pass of that loop (lines 214-276): request `i` is read from the
        buffer, the bricks around its cell are fetched, and the request is
        handled with the address `off` the allocator hands out, which is not in
        use once the request's own writes have released theirs. */
    method HandleAt(feedback: seq<U32>, world: UVec3 -> Neighbourhood, i: nat) returns (warnings: seq<Warning>, ghost off: U32)
      requires Valid() && Capacity() && Manager.RequestsWellFormed(feedback, gridDims) && i < feedback[1]
      requires forall p :: WellFormed(world(p))
      modifies this, allocator, allocator.buckets
      ensures Valid() && Capacity() && warnings == []
      ensures RequestReady(old(Contents()), Manager.ReqAt(feedback, gridDims, world, i, off))
      ensures var q := Manager.ReqAt(feedback, gridDims, world, i, off);
        Contents() == Request(old(Contents()), q.g, q.off, q.bitmask, q.albedo).0
    {
      var request := feedback[4 + 4 * i .. 4 + 4 * i + 3];
      assert UVec3(request[0], request[1], request[2]) == Manager.RequestPos(feedback, i);
      var nb := world(UVec3(request[0], request[1], request[2]));
      SurfaceColorsFacts(nb);
      CapacitySuffices(|SurfaceColors(nb)|);
      warnings, off := HandleRequest(request, nb);
    }

    /** `upload_unpack_buffers`: at most `unpackMaxCount` staged cells leave the
        staged set, each paired with its word (two u32 words apiece), and the
        first `min(unpackMaxCount, len)` staged brickmaps leave the queue in
        order. */
    method UploadUnpackBuffers() returns (gridCount: nat, gridEntries: seq<(nat, U32)>, brickmaps: seq<UploadElement>)
      requires Valid()
      modifies this
      ensures Valid()
      ensures brickgrid == old(brickgrid) && brickmapCacheMap == old(brickmapCacheMap) && brickmapCacheIdx == old(brickmapCacheIdx)
      ensures gridCount == 2 * |gridEntries| && |gridEntries| == Min(unpackMaxCount, |old(brickgridStaged)|)
      ensures forall k :: 0 <= k < |gridEntries| ==>
        gridEntries[k].0 in old(brickgridStaged) && gridEntries[k].1 == brickgrid[gridEntries[k].0]
      ensures forall k, k' :: 0 <= k < k' < |gridEntries| ==> gridEntries[k].0 != gridEntries[k'].0
      ensures brickgridStaged == old(brickgridStaged) - Drained(gridEntries)
      ensures |brickmaps| == Min(unpackMaxCount, |old(brickmapStaged)|)
      ensures old(brickmapStaged) == brickmaps + brickmapStaged
    {
      ghost var v := Contents();
      gridEntries := DrainGrid();
      gridCount := 2 * |gridEntries|;
      brickmaps := DrainBrickmaps();
      assert allocator.Allocated() == v.live;
      assert Contents() == v.(staged := brickgridStaged, queue := brickmapStaged);
      QueuesFree(v, brickgridStaged, brickmapStaged);
    }

    /** Lines 318-334: the grid half of the upload. */
    method DrainGrid() returns (gridEntries: seq<(nat, U32)>)
      requires forall i :: i in brickgridStaged ==> i < |brickgrid|
      modifies this
      ensures brickgrid == old(brickgrid) && brickmapCacheMap == old(brickmapCacheMap)
      ensures |gridEntries| == Min(unpackMaxCount, |old(brickgridStaged)|)
      ensures forall k :: 0 <= k < |gridEntries| ==>
        gridEntries[k].0 in old(brickgridStaged) && gridEntries[k].1 == brickgrid[gridEntries[k].0]
      ensures forall k, k' :: 0 <= k < k' < |gridEntries| ==> gridEntries[k].0 != gridEntries[k'].0
      ensures brickgridStaged == old(brickgridStaged) - Drained(gridEntries)
      ensures brickmapCacheIdx == old(brickmapCacheIdx) && brickmapStaged == old(brickmapStaged)
    {
      var kept;
      gridEntries, kept := DrainStaged(brickgridStaged, brickgrid, unpackMaxCount);
      brickgridStaged := kept;
    }

    /** Lines 356-357: the first `min(unpackMaxCount, len)` staged brickmaps leave the queue. */
    method DrainBrickmaps() returns (brickmaps: seq<UploadElement>)
      modifies this
      ensures |brickmaps| == Min(unpackMaxCount, |old(brickmapStaged)|)
      ensures old(brickmapStaged) == brickmaps + brickmapStaged
      ensures brickgrid == old(brickgrid) && brickgridStaged == old(brickgridStaged)
      ensures brickmapCacheMap == old(brickmapCacheMap) && brickmapCacheIdx == old(brickmapCacheIdx)
    {
      var end := Min(unpackMaxCount, |brickmapStaged|);
      brickmaps := brickmapStaged[..end];
      brickmapStaged := brickmapStaged[end..];
    }
  }
}
