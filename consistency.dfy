/** The bookkeeping `BrickmapManager::handle_request` (`src/voxel/brickworld/brickmap.rs`)
    keeps across the brickgrid, the brickmap cache and the shading-table allocator,
    stated on plain values: the request step as a function of the three structures'
    contents, and the invariant that step preserves. */
module Consistency {
  import opened Math
  import opened Grid
  import opened Cache
  import opened Wrappers

  /** What the managers log: a deallocation the allocator refused, a cache slot
      that names a different grid cell than the one pointing at it, or (in the
      older manager of `src/voxel/brickmap.rs`) a Loaded cell whose slot is empty. */
  datatype Warning =
    | DeallocFailed(address: nat)
    | GridIdxMismatch(gridIdx: nat, entryGridIdx: nat)
    | MissingEntry(cacheIdx: nat)

  /** The contents of the three structures: the brickgrid's words and staged cells,
      the cache's slots, ring index and staged upload elements, and the set of
      shading addresses the allocator has handed out. */
  datatype View = View(
    data: seq<U32>, staged: set<nat>,
    slots: seq<Option<CacheEntry>>, index: nat, queue: seq<UploadElement>,
    live: set<nat>)

  /** A brickgrid word keeps 24 bits of cache pointer. */
  const MaxSlots: nat := 0x100_0000

  /** The shading offsets held by occupied slots. */
  function Offsets(slots: seq<Option<CacheEntry>>): set<nat> {
    set s | 0 <= s < |slots| && slots[s].Some? :: slots[s].value.shadingTableOffset
  }

  /** No two occupied slots share a shading offset. */
  predicate OffsetsDistinct(slots: seq<Option<CacheEntry>>) {
    forall s, t :: 0 <= s < t < |slots| && slots[s].Some? && slots[t].Some? ==>
      slots[s].value.shadingTableOffset != slots[t].value.shadingTableOffset
  }

  /** Every Loaded cell points at an occupied slot that names that cell. */
  predicate LoadedLinked(data: seq<U32>, slots: seq<Option<CacheEntry>>) {
    forall i :: 0 <= i < |data| && GetFlag(data[i]) == Loaded ==>
      && GetPointer(data[i]) < |slots|
      && slots[GetPointer(data[i])].Some?
      && slots[GetPointer(data[i])].value.gridIdx == i
  }

  /** An occupied slot names a cell that is Loaded with a pointer to that slot. */
  predicate SlotLinked(data: seq<U32>, slots: seq<Option<CacheEntry>>, s: nat)
    requires s < |slots|
  {
    slots[s].Some? ==>
      slots[s].value.gridIdx < |data| && data[slots[s].value.gridIdx] == ElementNew(s, Loaded)
  }

  /** The invariant of the manager: cells and slots point at each other, and the
      allocated shading addresses are exactly the offsets the slots hold, one slot
      per address (nothing leaked, nothing claimed twice). */
  predicate Consistent(v: View) {
    && 0 < |v.slots| < MaxSlots && v.index < |v.slots|
    && LoadedLinked(v.data, v.slots)
    && (forall s :: 0 <= s < |v.slots| ==> SlotLinked(v.data, v.slots, s))
    && OffsetsDistinct(v.slots)
    && Offsets(v.slots) == v.live
  }

  /** The invariant says nothing about what waits for upload. */
  lemma QueuesFree(v: View, staged: set<nat>, queue: seq<UploadElement>)
    requires Consistent(v)
    ensures Consistent(v.(staged := staged, queue := queue))
  {
  }

  /** The state in the middle of a non-empty request, after `add_entry` and its
      eviction: consistent, except that the slot just written (`index`) names cell
      `g`, whose word does not point at it yet. */
  predicate Pending(v: View, g: nat) {
    && 0 < |v.slots| < MaxSlots && v.index < |v.slots| && g < |v.data|
    && v.slots[v.index].Some? && v.slots[v.index].value.gridIdx == g
    && LoadedLinked(v.data, v.slots)
    && (forall s :: 0 <= s < |v.slots| && s != v.index ==> SlotLinked(v.data, v.slots, s))
    && (GetFlag(v.data[g]) == Loaded ==> GetPointer(v.data[g]) != v.index)
    && OffsetsDistinct(v.slots)
    && Offsets(v.slots) == v.live
  }

  /** A new manager (every cell Unloaded, every slot empty, nothing allocated) is
      consistent. */
  lemma InitialConsistent(volume: nat, size: nat)
    requires 0 < size < MaxSlots
    ensures Consistent(View(seq(volume, _ => ElementNew(0, Unloaded)), {}, seq(size, _ => None), 0, [], {}))
  {
    ElementRoundTrip(0, Unloaded);
    var slots: seq<Option<CacheEntry>> := seq(size, _ => None);
    assert Offsets(slots) == {};
  }

  /** What `Admit` needs: a non-empty ring (the index is taken modulo its length)
      whose next slot, if occupied, names a cell of the grid. */
  predicate AdmitReady(v: View) {
    && 0 < |v.slots|
    && var s := (v.index + 1) % |v.slots|;
       v.slots[s].Some? ==> v.slots[s].value.gridIdx < |v.data|
  }

  /** A consistent state is ready for `Admit`, and the next slot's offset, if any,
      is an allocated address. */
  lemma ConsistentReady(v: View)
    requires Consistent(v)
    ensures AdmitReady(v)
    ensures var s := (v.index + 1) % |v.slots|;
      v.slots[s].Some? ==> v.slots[s].value.shadingTableOffset in v.live
  {
    var s := (v.index + 1) % |v.slots|;
    assert SlotLinked(v.data, v.slots, s);
  }

  /** A Loaded cell's slot is occupied and holds an allocated address. */
  lemma CellSlotHeld(v: View, g: nat)
    requires LoadedLinked(v.data, v.slots) && Offsets(v.slots) == v.live && g < |v.data|
    ensures GetFlag(v.data[g]) == Loaded ==>
      && GetPointer(v.data[g]) < |v.slots|
      && v.slots[GetPointer(v.data[g])].Some?
      && v.slots[GetPointer(v.data[g])].value.shadingTableOffset in v.live
  {
  }

  /** The first half of a non-empty request (lines 173-196): the colours are given
      shading address `off`, `add_entry` writes the slot after the ring index, and
      an evicted occupant has its address released and its cell set Unloaded. */
  function Admit(v: View, g: nat, off: U32, bitmask: seq<U32>, albedo: seq<U32>): (r: (View, seq<Warning>))
    requires AdmitReady(v) && |albedo| <= 512
  {
    var s := (v.index + 1) % |v.slots|;
    var slots := v.slots[s := Some(CacheEntry(g, off))];
    var queue := v.queue + [UploadElement(s, Brickmap(bitmask, off, 0), |albedo|, Padded(albedo))];
    var live := v.live + {off};
    match v.slots[s]
    case None => (View(v.data, v.staged, slots, s, queue, live), [])
    case Some(e) =>
      var w := if e.shadingTableOffset in live then [] else [DeallocFailed(e.shadingTableOffset)];
      (View(v.data[e.gridIdx := ElementNew(0, Unloaded)], v.staged + {e.gridIdx}, slots, s, queue,
            live - {e.shadingTableOffset}), w)
  }

  /** The second half of every request (lines 202-223): cell `g` takes `element`, and
      if its previous word was Loaded the slot it pointed at is emptied and that
      slot's address released. */
  function Place(v: View, g: nat, element: U32): (r: (View, seq<Warning>))
    requires g < |v.data|
    requires GetFlag(v.data[g]) == Loaded ==> GetPointer(v.data[g]) < |v.slots|
  {
    var previous := v.data[g];
    var data := v.data[g := element];
    var staged := v.staged + {g};
    if GetFlag(previous) == Loaded && v.slots[GetPointer(previous)].Some? then
      var p := GetPointer(previous);
      var e := v.slots[p].value;
      var mismatch := if e.gridIdx != g then [GridIdxMismatch(g, e.gridIdx)] else [];
      var refused := if e.shadingTableOffset in v.live then [] else [DeallocFailed(e.shadingTableOffset)];
      (View(data, staged, v.slots[p := None], v.index, v.queue, v.live - {e.shadingTableOffset}), mismatch + refused)
    else
      (View(data, staged, v.slots, v.index, v.queue, v.live), [])
  }

  /** `handle_request` for cell `g` whose culled brick is `bitmask` and `albedo`,
      with `off` the address the allocator hands out when `albedo` is non-empty. */
  function HandleStep(v: View, g: nat, off: U32, bitmask: seq<U32>, albedo: seq<U32>): (r: (View, seq<Warning>))
    requires Consistent(v) && g < |v.data| && |albedo| <= 512
    requires |albedo| > 0 ==> off !in v.live
  {
    if |albedo| > 0 then
      ConsistentReady(v);
      var (v1, w1) := Admit(v, g, off, bitmask, albedo);
      AdmitPending(v, g, off, bitmask, albedo);
      var (v2, w2) := Place(v1, g, ElementNew(v1.index, Loaded));
      (v2, w1 + w2)
    else
      Place(v, g, DefaultElement)
  }

  /** Emptying an occupied slot takes exactly its offset out of `Offsets`. */
  lemma OffsetsClear(slots: seq<Option<CacheEntry>>, i: nat)
    requires i < |slots| && slots[i].Some? && OffsetsDistinct(slots)
    ensures Offsets(slots[i := None]) == Offsets(slots) - {slots[i].value.shadingTableOffset}
    ensures OffsetsDistinct(slots[i := None])
  {
    var t := slots[i := None];
    var off := slots[i].value.shadingTableOffset;
    forall x | x in Offsets(slots) - {off} ensures x in Offsets(t) {
      var s :| 0 <= s < |slots| && slots[s].Some? && slots[s].value.shadingTableOffset == x;
      assert t[s] == slots[s];
    }
  }

  /** Filling an empty slot with a fresh offset adds exactly that offset. */
  lemma OffsetsFill(slots: seq<Option<CacheEntry>>, i: nat, e: CacheEntry)
    requires i < |slots| && slots[i].None? && OffsetsDistinct(slots)
    requires e.shadingTableOffset !in Offsets(slots)
    ensures Offsets(slots[i := Some(e)]) == Offsets(slots) + {e.shadingTableOffset}
    ensures OffsetsDistinct(slots[i := Some(e)])
  {
    var t := slots[i := Some(e)];
    assert t[i].value.shadingTableOffset == e.shadingTableOffset;
    forall x | x in Offsets(slots) ensures x in Offsets(t) {
      var s :| 0 <= s < |slots| && slots[s].Some? && slots[s].value.shadingTableOffset == x;
      assert t[s] == slots[s];
    }
    forall s, u | 0 <= s < u < |t| && t[s].Some? && t[u].Some?
      ensures t[s].value.shadingTableOffset != t[u].value.shadingTableOffset
    {
      if s == i {
        assert t[u] == slots[u];
      } else if u == i {
        assert t[s] == slots[s];
      }
    }
  }

  /** No more offsets than slots. */
  lemma {:induction false} OffsetsBound(slots: seq<Option<CacheEntry>>)
    ensures |Offsets(slots)| <= |slots|
    decreases |slots|
  {
    if slots != [] {
      var n := |slots| - 1;
      var prefix := slots[..n];
      OffsetsBound(prefix);
      var last := if slots[n].Some? then {slots[n].value.shadingTableOffset} else {};
      assert Offsets(slots) == Offsets(prefix) + last by {
        forall x | x in Offsets(slots) ensures x in Offsets(prefix) + last {
          var s :| 0 <= s < |slots| && slots[s].Some? && slots[s].value.shadingTableOffset == x;
          if s < n {
            assert prefix[s] == slots[s];
          }
        }
        forall x | x in Offsets(prefix) ensures x in Offsets(slots) {
          var s :| 0 <= s < n && prefix[s].Some? && prefix[s].value.shadingTableOffset == x;
          assert slots[s] == prefix[s];
        }
      }
    }
  }

  /** After `Admit` the state is `Pending` on the slot just written, which holds
      `g` and `off`; a consistent state logs nothing. */
  lemma AdmitPending(v: View, g: nat, off: U32, bitmask: seq<U32>, albedo: seq<U32>)
    requires Consistent(v) && g < |v.data| && |albedo| <= 512 && off !in v.live
    requires AdmitReady(v) // implied by Consistent, see ConsistentReady
    ensures Pending(Admit(v, g, off, bitmask, albedo).0, g)
    ensures Admit(v, g, off, bitmask, albedo).1 == []
    ensures Admit(v, g, off, bitmask, albedo).0.index == (v.index + 1) % |v.slots|
    ensures Admit(v, g, off, bitmask, albedo).0.slots[(v.index + 1) % |v.slots|] == Some(CacheEntry(g, off))
    ensures |Admit(v, g, off, bitmask, albedo).0.queue| == |v.queue| + 1
    ensures |Admit(v, g, off, bitmask, albedo).0.data| == |v.data|
    ensures |Admit(v, g, off, bitmask, albedo).0.slots| == |v.slots|
  {
    var s := (v.index + 1) % |v.slots|;
    var r := Admit(v, g, off, bitmask, albedo).0;
    var entry := CacheEntry(g, off);
    assert SlotLinked(v.data, v.slots, s);
    if v.slots[s].Some? {
      var e := v.slots[s].value;
      OffsetsClear(v.slots, s);
      OffsetsFill(v.slots[s := None], s, entry);
      assert r.slots == v.slots[s := None][s := Some(entry)];
      AdmitEvictedLinks(v, g, off, s, e);
    } else {
      OffsetsFill(v.slots, s, entry);
      AdmitFreeLinks(v, g, off, s);
    }
  }

  /** The links after writing a free slot `s`. */
  lemma AdmitFreeLinks(v: View, g: nat, off: U32, s: nat)
    requires Consistent(v) && g < |v.data| && s < |v.slots| && v.slots[s].None?
    ensures var slots := v.slots[s := Some(CacheEntry(g, off))];
      && LoadedLinked(v.data, slots)
      && (forall t :: 0 <= t < |slots| && t != s ==> SlotLinked(v.data, slots, t))
      && (GetFlag(v.data[g]) == Loaded ==> GetPointer(v.data[g]) != s)
  {
    var slots := v.slots[s := Some(CacheEntry(g, off))];
    forall t | 0 <= t < |slots| && t != s ensures SlotLinked(v.data, slots, t) {
      assert SlotLinked(v.data, v.slots, t);
    }
  }

  /** The links after writing slot `s`, whose occupant `e` is evicted and its cell
      set Unloaded. */
  lemma AdmitEvictedLinks(v: View, g: nat, off: U32, s: nat, e: CacheEntry)
    requires Consistent(v) && g < |v.data| && s < |v.slots| && v.slots[s] == Some(e)
    ensures e.gridIdx < |v.data|
    ensures var slots := v.slots[s := Some(CacheEntry(g, off))];
      var data := v.data[e.gridIdx := ElementNew(0, Unloaded)];
      && LoadedLinked(data, slots)
      && (forall t :: 0 <= t < |slots| && t != s ==> SlotLinked(data, slots, t))
      && (GetFlag(data[g]) == Loaded ==> GetPointer(data[g]) != s)
  {
    assert SlotLinked(v.data, v.slots, s);
    var slots := v.slots[s := Some(CacheEntry(g, off))];
    var data := v.data[e.gridIdx := ElementNew(0, Unloaded)];
    ElementRoundTrip(0, Unloaded);
    forall i | 0 <= i < |data| && GetFlag(data[i]) == Loaded
      ensures GetPointer(data[i]) < |slots| && slots[GetPointer(data[i])].Some? && slots[GetPointer(data[i])].value.gridIdx == i
    {
      assert i != e.gridIdx && data[i] == v.data[i];
    }
    forall t | 0 <= t < |slots| && t != s ensures SlotLinked(data, slots, t) {
      assert SlotLinked(v.data, v.slots, t);
      if v.slots[t].Some? {
        var h := v.slots[t].value.gridIdx;
        if h == e.gridIdx {
          ElementRoundTrip(t, Loaded);
          ElementRoundTrip(s, Loaded);
          assert false;
        }
      }
    }
  }

  /** Completing a pending request: the cell points at the slot just written, and
      the slot its previous word pointed at (never that one) is released. */
  lemma PlaceLoaded(v: View, g: nat)
    requires Pending(v, g)
    ensures Consistent(Place(v, g, ElementNew(v.index, Loaded)).0)
    ensures Place(v, g, ElementNew(v.index, Loaded)).1 == []
    ensures PlaceFacts(v, g, ElementNew(v.index, Loaded))
    ensures Place(v, g, ElementNew(v.index, Loaded)).0.slots[v.index] == v.slots[v.index]
  {
    var element := ElementNew(v.index, Loaded);
    ElementRoundTrip(v.index, Loaded);
    var r := Place(v, g, element).0;
    var previous := v.data[g];
    if GetFlag(previous) == Loaded {
      var p := GetPointer(previous);
      OffsetsClear(v.slots, p);
      forall t | 0 <= t < |r.slots| ensures SlotLinked(r.data, r.slots, t) {
        if t != p && t != v.index {
          assert SlotLinked(v.data, v.slots, t);
          if v.slots[t].Some? {
            UnlinkedCell(v, g, t);
          }
        }
      }
      forall i | 0 <= i < |r.data| && GetFlag(r.data[i]) == Loaded
        ensures GetPointer(r.data[i]) < |r.slots| && r.slots[GetPointer(r.data[i])].Some? && r.slots[GetPointer(r.data[i])].value.gridIdx == i
      {
        if i != g {
          assert r.data[i] == v.data[i];
        }
      }
    } else {
      forall t | 0 <= t < |r.slots| ensures SlotLinked(r.data, r.slots, t) {
        if t != v.index {
          assert SlotLinked(v.data, v.slots, t);
          if v.slots[t].Some? {
            UnlinkedCell(v, g, t);
          }
        }
      }
      forall i | 0 <= i < |r.data| && GetFlag(r.data[i]) == Loaded
        ensures GetPointer(r.data[i]) < |r.slots| && r.slots[GetPointer(r.data[i])].Some? && r.slots[GetPointer(r.data[i])].value.gridIdx == i
      {
        if i != g {
          assert r.data[i] == v.data[i];
        }
      }
    }
  }

  /** What `Place` keeps: the cell holds `element` and is staged, the ring index
      and the upload queue are untouched, no address is claimed, and the slot
      before `index` keeps its occupant. */
  predicate PlaceFacts(v: View, g: nat, element: U32)
    requires g < |v.data|
    requires GetFlag(v.data[g]) == Loaded ==> GetPointer(v.data[g]) < |v.slots|
  {
    var r := Place(v, g, element).0;
    && |r.data| == |v.data| && |r.slots| == |v.slots|
    && r.data[g] == element && g in r.staged
    && r.index == v.index && r.queue == v.queue && r.live <= v.live
  }

  /** A linked slot `t` other than the one cell `g`'s word points at does not name `g`. */
  lemma UnlinkedCell(v: View, g: nat, t: nat)
    requires g < |v.data| && t < |v.slots| < MaxSlots && SlotLinked(v.data, v.slots, t) && v.slots[t].Some?
    requires GetFlag(v.data[g]) == Loaded ==> GetPointer(v.data[g]) != t
    ensures v.slots[t].value.gridIdx != g
  {
    ElementRoundTrip(t, Loaded);
  }

  /** An empty request leaves the cell Empty and releases the slot its previous
      word pointed at. */
  lemma PlaceEmpty(v: View, g: nat)
    requires Consistent(v) && g < |v.data|
    ensures GetFlag(v.data[g]) == Loaded ==> GetPointer(v.data[g]) < |v.slots|
    ensures Consistent(Place(v, g, DefaultElement).0)
    ensures Place(v, g, DefaultElement).1 == []
    ensures PlaceFacts(v, g, DefaultElement)
  {
    DefaultElementIsEmpty();
    var r := Place(v, g, DefaultElement).0;
    var previous := v.data[g];
    if GetFlag(previous) == Loaded {
      var p := GetPointer(previous);
      OffsetsClear(v.slots, p);
      forall t | 0 <= t < |r.slots| ensures SlotLinked(r.data, r.slots, t) {
        if t != p {
          assert SlotLinked(v.data, v.slots, t);
          if v.slots[t].Some? {
            UnlinkedCell(v, g, t);
          }
        }
      }
    } else {
      forall t | 0 <= t < |r.slots| ensures SlotLinked(r.data, r.slots, t) {
        assert SlotLinked(v.data, v.slots, t);
        if v.slots[t].Some? {
          UnlinkedCell(v, g, t);
        }
      }
    }
    forall i | 0 <= i < |r.data| && GetFlag(r.data[i]) == Loaded
      ensures GetPointer(r.data[i]) < |r.slots| && r.slots[GetPointer(r.data[i])].Some? && r.slots[GetPointer(r.data[i])].value.gridIdx == i
    {
      assert i != g && r.data[i] == v.data[i];
    }
  }

  /** `handle_request` keeps the manager consistent and so never logs; a non-empty
      brick leaves cell `g` Loaded, pointing at the next ring slot, which holds `g`
      and `off`, and appends one upload element; an empty one leaves it Empty, the
      ring index where it was, and claims no address. Staged cells stay staged and
      queued elements stay queued. */
  lemma HandleStepConsistent(v: View, g: nat, off: U32, bitmask: seq<U32>, albedo: seq<U32>)
    requires Consistent(v) && g < |v.data| && |albedo| <= 512
    requires |albedo| > 0 ==> off !in v.live
    ensures var (r, w) := HandleStep(v, g, off, bitmask, albedo);
      && Consistent(r) && w == []
      && |r.data| == |v.data| && |r.slots| == |v.slots| && g in r.staged
      && v.staged <= r.staged && |v.queue| <= |r.queue| && r.queue[..|v.queue|] == v.queue
      && (|albedo| > 0 ==>
            && GetFlag(r.data[g]) == Loaded
            && r.index == GetPointer(r.data[g]) == (v.index + 1) % |v.slots|
            && r.slots[r.index] == Some(CacheEntry(g, off))
            && |r.queue| == |v.queue| + 1)
      && (|albedo| == 0 ==>
            && r.data[g] == DefaultElement
            && r.index == v.index && r.queue == v.queue && r.live <= v.live)
  {
    if |albedo| > 0 {
      ConsistentReady(v);
      AdmitPending(v, g, off, bitmask, albedo);
      var (v1, w1) := Admit(v, g, off, bitmask, albedo);
      PlaceLoaded(v1, g);
      ElementRoundTrip(v1.index, Loaded);
      var (v2, w2) := Place(v1, g, ElementNew(v1.index, Loaded));
      assert HandleStep(v, g, off, bitmask, albedo) == (v2, w1 + w2);
      assert g in v2.staged && v2.data[g] == ElementNew(v1.index, Loaded);
    } else {
      PlaceEmpty(v, g);
    }
  }

  /** One request of a feedback pass: cell `g`, the shading address `off` its
      colours are given when the brick is non-empty, and its culled brick. */
  datatype Req = Req(g: nat, off: U32, bitmask: seq<U32>, albedo: seq<U32>)

  /** The number of requests whose brick is non-empty. */
  function Loads(reqs: seq<Req>): (n: nat)
    ensures n <= |reqs|
  {
    if reqs == [] then 0
    else Loads(reqs[..|reqs| - 1]) + (if |reqs[|reqs| - 1].albedo| > 0 then 1 else 0)
  }

  /** `HandleStep` may take request `q` in state `v`: the cell exists, the brick
      fits a slot, and a non-empty brick's address is not in use. */
  predicate StepReady(v: View, q: Req) {
    q.g < |v.data| && |q.albedo| <= 512 && (|q.albedo| > 0 ==> q.off !in v.live)
  }

  /** The loop of `process_feedback_buffer` (lines 141-144 of
      `src/voxel/brickworld/brickmap.rs`): the requests handled in
      order from `v`, or None if one of them is not ready when its turn comes. */
  function HandleAll(v: View, reqs: seq<Req>): (r: Option<View>)
    requires Consistent(v)
    ensures r.Some? ==> Consistent(r.value) && |r.value.data| == |v.data| && |r.value.slots| == |v.slots|
    decreases |reqs|
  {
    if reqs == [] then Some(v)
    else
      match HandleAll(v, reqs[..|reqs| - 1])
      case None => None
      case Some(u) =>
        var q := reqs[|reqs| - 1];
        if StepReady(u, q) then
          HandleStepConsistent(u, q.g, q.off, q.bitmask, q.albedo);
          Some(HandleStep(u, q.g, q.off, q.bitmask, q.albedo).0)
        else None
  }

  /** Handling one more ready request is one more `HandleStep`. */
  lemma HandleAllSnoc(v: View, reqs: seq<Req>, q: Req)
    requires Consistent(v) && HandleAll(v, reqs).Some? && StepReady(HandleAll(v, reqs).value, q)
    ensures HandleAll(v, reqs + [q]) == Some(HandleStep(HandleAll(v, reqs).value, q.g, q.off, q.bitmask, q.albedo).0)
  {
    assert (reqs + [q])[..|reqs|] == reqs;
  }

  /** What a pass `reqs` from `v` to `u` does outside the invariant: every
      requested cell is staged and what was staged stays staged, one upload element
      per non-empty brick is appended behind those already queued, and the ring
      index moves on by as many slots. */
  predicate Grown(v: View, u: View, reqs: seq<Req>)
    requires |v.slots| > 0
  {
    && v.staged <= u.staged
    && (forall k :: 0 <= k < |reqs| ==> reqs[k].g in u.staged)
    && |u.queue| == |v.queue| + Loads(reqs) && u.queue[..|v.queue|] == v.queue
    && u.index == (v.index + Loads(reqs)) % |v.slots|
  }

  /** One more request, with the effects `HandleStepConsistent` states, extends the pass. */
  lemma GrownSnoc(v: View, u: View, r: View, init: seq<Req>, q: Req)
    requires |v.slots| > 0 && Grown(v, u, init)
    requires u.staged <= r.staged && q.g in r.staged
    requires |u.queue| <= |r.queue| && r.queue[..|u.queue|] == u.queue
    requires |q.albedo| > 0 ==> |r.queue| == |u.queue| + 1 && r.index == (u.index + 1) % |v.slots|
    requires |q.albedo| == 0 ==> r.queue == u.queue && r.index == u.index
    ensures Grown(v, r, init + [q])
  {
    var reqs := init + [q];
    assert reqs[..|init|] == init;
    assert r.queue[..|v.queue|] == u.queue[..|u.queue|][..|v.queue|];
    forall k | 0 <= k < |reqs| ensures reqs[k].g in r.staged {
      if k < |init| {
        assert init[k] == reqs[k];
      }
    }
    var loads := Loads(init);
    if |q.albedo| > 0 {
      assert Loads(reqs) == loads + 1;
      ModStep(v.index + loads, |v.slots|, u.index, r.index);
    } else {
      assert Loads(reqs) == loads;
    }
  }

  /** A pass of ready requests has the effects `Grown` states. */
  lemma {:induction false} HandleAllEffects(v: View, reqs: seq<Req>)
    requires Consistent(v) && HandleAll(v, reqs).Some?
    ensures Grown(v, HandleAll(v, reqs).value, reqs)
    decreases |reqs|
  {
    if reqs == [] {
      assert Loads(reqs) == 0 && HandleAll(v, reqs) == Some(v);
      DivModUnique(v.index, |v.slots|, 0, v.index);
    } else {
      var n := |reqs| - 1;
      var init, q := reqs[..n], reqs[n];
      assert reqs == init + [q];
      HandleAllEffects(v, init);
      var u := HandleAll(v, init).value;
      HandleStepConsistent(u, q.g, q.off, q.bitmask, q.albedo);
      var r := HandleStep(u, q.g, q.off, q.bitmask, q.albedo).0;
      assert HandleAll(v, reqs) == Some(r);
      GrownSnoc(v, u, r, init, q);
    }
  }
}
