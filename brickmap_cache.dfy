/** The brickmap cache of `src/voxel/brickworld/brickmap_cache.rs`: a fixed ring
    of slots, each empty or holding the grid cell and shading-table offset of a
    loaded brickmap, with a ring index, a count of occupied slots and a FIFO of
    upload elements waiting for the GPU. */
module Cache {
  import opened Math
  import opened Grid
  import opened Wrappers

  /** `BrickmapCacheEntry`: which grid cell the slot serves and where its colours live. */
  datatype CacheEntry = CacheEntry(gridIdx: nat, shadingTableOffset: U32)

  /** `Brickmap` as uploaded: the 16 mask words, the shading offset and a LOD colour. */
  datatype Brickmap = Brickmap(bitmask: seq<U32>, shadingTableOffset: U32, lodColor: U32)

  /** `BrickmapUploadElement`: the slot to fill, the brickmap and its colours,
      zero-padded to 512 words. */
  datatype UploadElement =
    UploadElement(cacheIdx: nat, brickmap: Brickmap, shadingElementCount: nat, shadingElements: seq<U32>)

  /** The number of occupied slots. */
  function CountSome(slots: seq<Option<CacheEntry>>): (n: nat)
    ensures n <= |slots|
  {
    if slots == [] then 0
    else CountSome(slots[..|slots| - 1]) + (if slots[|slots| - 1].Some? then 1 else 0)
  }

  /** Overwriting one slot changes the count by what left and what arrived. */
  lemma {:induction false} CountSomeUpdate(slots: seq<Option<CacheEntry>>, i: nat, v: Option<CacheEntry>)
    requires i < |slots|
    ensures CountSome(slots[i := v]) + (if slots[i].Some? then 1 else 0)
         == CountSome(slots) + (if v.Some? then 1 else 0)
    decreases |slots|
  {
    var last := |slots| - 1;
    var t := slots[i := v];
    assert t[..last] == if i == last then slots[..last] else slots[..last][i := v];
    if i < last {
      CountSomeUpdate(slots[..last], i, v);
    }
  }

  /** An all-empty ring has no occupied slot. */
  lemma {:induction false} CountSomeNone(n: nat)
    ensures CountSome(seq(n, _ => None)) == 0
  {
    if n > 0 {
      var s: seq<Option<CacheEntry>> := seq(n, _ => None);
      assert s[..n - 1] == seq(n - 1, _ => None);
      CountSomeNone(n - 1);
    }
  }

  /** The colours of an upload element: `albedo` followed by zeros up to 512 words. */
  function Padded(albedo: seq<U32>): (words: seq<U32>)
    requires |albedo| <= 512
    ensures |words| == 512 && words[..|albedo|] == albedo
    ensures forall k :: |albedo| <= k < 512 ==> words[k] == 0
  {
    albedo + seq(512 - |albedo|, _ => 0)
  }

  class BrickmapCache {
    var cache: seq<Option<CacheEntry>>
    var index: nat
    var numLoaded: nat
    var staged: seq<UploadElement>
    const maxUploadCount: nat

    /** The ring index names a slot and `num_loaded` counts the occupied slots. */
    ghost predicate Valid()
      reads this
    {
      && (index < |cache| || (|cache| == 0 && index == 0))
      && numLoaded == CountSome(cache)
    }

    /** `BrickmapCache::new`: `size` empty slots, ring index 0, nothing staged. */
    constructor (size: nat, maxUploadCount: nat)
      ensures Valid()
      ensures cache == seq(size, _ => None) && index == 0 && numLoaded == 0 && staged == []
      ensures this.maxUploadCount == maxUploadCount
    {
      cache := seq(size, _ => None);
      index := 0;
      numLoaded := 0;
      staged := [];
      this.maxUploadCount := maxUploadCount;
      CountSomeNone(size);
    }

    /** `add_entry`: advances the ring index first, so the entry lands in the slot
        after the most recent one, and returns that slot's previous occupant.
        The ring must be non-empty (the index is taken modulo its length) and
        the colours must fit the 512-word upload element. */
    method AddEntry(gridIdx: nat, shadingTableOffset: U32, bitmask: seq<U32>, albedo: seq<U32>)
      returns (existing: Option<CacheEntry>)
      requires Valid() && |cache| > 0 && |albedo| <= 512
      modifies this
      ensures Valid() && |cache| == old(|cache|)
      ensures index == (old(index) + 1) % |cache|
      ensures existing == old(cache)[index]
      ensures cache == old(cache)[index := Some(CacheEntry(gridIdx, shadingTableOffset))]
      ensures numLoaded == old(numLoaded) + (if existing.None? then 1 else 0)
      ensures staged == old(staged) + [UploadElement(index, Brickmap(bitmask, shadingTableOffset, 0), |albedo|, Padded(albedo))]
    {
      index := (index + 1) % |cache|;
      existing := cache[index];
      if existing.None? {
        numLoaded := numLoaded + 1;
      }
      CountSomeUpdate(cache, index, Some(CacheEntry(gridIdx, shadingTableOffset)));
      cache := cache[index := Some(CacheEntry(gridIdx, shadingTableOffset))];
      var brickmap := Brickmap(bitmask, shadingTableOffset, 0);
      var shadingElements := albedo + seq(512 - |albedo|, _ => 0);
      staged := staged + [UploadElement(index, brickmap, |albedo|, shadingElements)];
    }

    /** `remove_entry`: empties an occupied slot and returns what it held; an empty
        slot is left alone. */
    method RemoveEntry(i: nat) returns (entry: Option<CacheEntry>)
      requires Valid() && i < |cache|
      modifies this
      ensures Valid()
      ensures entry == old(cache[i])
      ensures cache == old(cache)[i := None]
      ensures numLoaded == old(numLoaded) - (if entry.Some? then 1 else 0)
      ensures index == old(index) && staged == old(staged)
    {
      entry := cache[i];
      if entry.Some? {
        CountSomeUpdate(cache, i, None);
        cache := cache[i := None];
        numLoaded := numLoaded - 1;
      } else {
        assert cache[i := None] == cache;
      }
    }

    /** `get_entry`: reads one slot. */
    method GetEntry(i: nat) returns (entry: Option<CacheEntry>)
      requires i < |cache|
      ensures entry == cache[i]
    {
      entry := cache[i];
    }

    /** `upload`: drains the first `min(max_upload_count, staged.len())` staged
        elements, oldest first; the rest stay staged in order. */
    method Upload() returns (uploaded: seq<UploadElement>)
      requires Valid()
      modifies this
      ensures Valid()
      ensures |uploaded| == Min(maxUploadCount, |old(staged)|)
      ensures old(staged) == uploaded + staged
      ensures cache == old(cache) && index == old(index) && numLoaded == old(numLoaded)
    {
      var count := Min(maxUploadCount, |staged|);
      uploaded := staged[..count];
      staged := staged[count..];
    }
  }

  /** FIFO eviction on a ring of `n` slots: the first `add_entry` lands in slot
      `1 % n` on an empty slot, and it is the `(n + 1)`-th `add_entry` that
      evicts it. */
  method FifoEviction(n: nat) returns (first: Option<CacheEntry>, evicted: Option<CacheEntry>)
    requires n > 0
    ensures first.None?
    ensures evicted == Some(CacheEntry(0, 0))
  {
    var c := new BrickmapCache(n, 1);
    var mask := seq(16, _ => 0);
    RingStep(0, n);
    first := c.AddEntry(0, 0, mask, []);
    ghost var slot := c.index;
    var k := 1;
    while k < n
      invariant 1 <= k <= n && slot == (if n == 1 then 0 else 1)
      invariant c.Valid() && |c.cache| == n
      invariant c.index == (if k < n then k else 0)
      invariant c.cache[slot] == Some(CacheEntry(0, 0))
    {
      RingStep(k, n);
      var _ := c.AddEntry(k, 0, mask, []);
      k := k + 1;
    }
    RingStep(c.index, n);
    evicted := c.AddEntry(n, 0, mask, []);
  }

  /** One step of the ring index: `(i + 1) % n` wraps to 0 after the last slot. */
  lemma RingStep(i: nat, n: nat)
    requires i < n
    ensures (i + 1) % n == (if i + 1 < n then i + 1 else 0)
  {
    if i + 1 == n {
      assert (i + 1) % n == 0;
    }
  }
}
