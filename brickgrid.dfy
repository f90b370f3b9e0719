/** The brickgrid of `src/voxel/brickworld/brickgrid.rs`: one packed 32-bit word
    per grid cell, holding a load-state flag and a brickmap-cache pointer, and the
    set of cells staged for upload. */
module Grid {
  import opened Math

  /** An unsigned 32-bit word. */
  type U32 = x: int | 0 <= x < 0x1_0000_0000

  datatype BrickgridFlag = Empty | Unloaded | Loading | Loaded

  /** The discriminant each flag has in the packed word. */
  function FlagValue(f: BrickgridFlag): nat {
    match f
    case Empty => 0
    case Unloaded => 1
    case Loading => 2
    case Loaded => 4
  }

  /** `BrickgridFlag::from`: 1, 2 and 4 name their flags; every other value reads as Empty. */
  function FlagFrom(v: nat): (f: BrickgridFlag)
    ensures f != Empty ==> FlagValue(f) == v
    ensures f == Empty <==> v != 1 && v != 2 && v != 4
  {
    if v == FlagValue(Unloaded) then Unloaded
    else if v == FlagValue(Loading) then Loading
    else if v == FlagValue(Loaded) then Loaded
    else Empty
  }

  /** Reading back a flag's own discriminant gives the flag. */
  lemma FlagRoundTrip(f: BrickgridFlag)
    ensures FlagFrom(FlagValue(f)) == f
  {
  }

  /** `BrickgridElement::new`: `((idx as u32) << 8) + flag`. Shifting a u32 left by 8
      drops its top 8 bits, so only the low 24 bits of the index survive (see
      `ShiftKeepsLow24Bits`). */
  function ElementNew(cacheIdx: nat, flag: BrickgridFlag): U32 {
    (cacheIdx % 0x100_0000) * 256 + FlagValue(flag)
  }

  /** `(idx as u32) << 8` computed literally on 32-bit words equals the form used by
      `ElementNew`. */
  lemma ShiftKeepsLow24Bits(idx: nat)
    ensures ((idx % 0x1_0000_0000) * 256) % 0x1_0000_0000 == (idx % 0x100_0000) * 256
  {
    var q, m := idx / 0x1_0000_0000, idx % 0x1_0000_0000;
    var hi, lo := m / 0x100_0000, m % 0x100_0000;
    SplitWord(idx, q, m, hi, lo);
  }

  /** The arithmetic of `ShiftKeepsLow24Bits` on named quotients and remainders. */
  lemma SplitWord(idx: nat, q: nat, m: nat, hi: nat, lo: nat)
    requires idx == q * 0x1_0000_0000 + m && m < 0x1_0000_0000
    requires m == hi * 0x100_0000 + lo && lo < 0x100_0000
    ensures (m * 256) % 0x1_0000_0000 == (idx % 0x100_0000) * 256
  {
    assert hi < 256;
    assert idx == (q * 256 + hi) * 0x100_0000 + lo;
    DivModUnique(idx, 0x100_0000, q * 256 + hi, lo);
    assert m * 256 == hi * 0x1_0000_0000 + lo * 256;
    DivModUnique(m * 256, 0x1_0000_0000, hi, lo * 256);
  }

  /** `get_pointer`: the word shifted right by 8. */
  function GetPointer(w: U32): nat {
    w / 256
  }

  /** `get_flag`: the low nibble read through `FlagFrom`. */
  function GetFlag(w: U32): BrickgridFlag {
    FlagFrom(w % 16)
  }

  /** The pointer and the flag packed by `ElementNew` are read back by `GetPointer`
      and `GetFlag`; the pointer keeps the low 24 bits of the cache index. */
  lemma ElementRoundTrip(cacheIdx: nat, flag: BrickgridFlag)
    ensures GetPointer(ElementNew(cacheIdx, flag)) == cacheIdx % 0x100_0000
    ensures cacheIdx < 0x100_0000 ==> GetPointer(ElementNew(cacheIdx, flag)) == cacheIdx
    ensures GetFlag(ElementNew(cacheIdx, flag)) == flag
  {
    var p := cacheIdx % 0x100_0000;
    DivModUnique(ElementNew(cacheIdx, flag), 256, p, FlagValue(flag));
    DivModUnique(ElementNew(cacheIdx, flag), 16, p * 16, FlagValue(flag));
  }

  /** `BrickgridElement::default()`: the all-zero word. */
  const DefaultElement: U32 := 0

  lemma DefaultElementIsEmpty()
    ensures GetFlag(DefaultElement) == Empty && GetPointer(DefaultElement) == 0
  {
  }

  /** The cell indices of a drained upload batch. */
  function Drained(entries: seq<(nat, U32)>): set<nat> {
    set k | 0 <= k < |entries| :: entries[k].0
  }

  /** The u32 words of an upload batch as the source lays them out: each cell's
      index followed by its word. */
  function UploadWords(entries: seq<(nat, U32)>): (words: seq<nat>)
    ensures |words| == 2 * |entries|
    ensures forall k :: 0 <= k < |entries| ==> words[2 * k] == entries[k].0 && words[2 * k + 1] == entries[k].1
  {
    if entries == [] then []
    else [entries[0].0, entries[0].1] + UploadWords(entries[1..])
  }

  /** The elements of a sequence of cell indices, as a set. */
  function Elements(s: seq<nat>): set<nat> {
    set k | 0 <= k < |s| :: s[k]
  }

  lemma ElementsSnoc(s: seq<nat>, e: nat)
    ensures Elements(s + [e]) == Elements(s) + {e}
  {
    var t := s + [e];
    assert t[|s|] == e;
    forall x | x in Elements(s) ensures x in Elements(t) {
      var k :| 0 <= k < |s| && s[k] == x;
      assert t[k] == x;
    }
  }

  /** No index occurs twice. */
  predicate Distinct(s: seq<nat>) {
    forall k, k' :: 0 <= k < k' < |s| ==> s[k] != s[k']
  }

  /** One step of the partition: `e` moves from the kept set to the end of
      the picked sequence, and the partition of `staged` is kept. */
  lemma PickStep(picked: seq<nat>, kept: set<nat>, staged: set<nat>, e: nat)
    requires Elements(picked) + kept == staged && Elements(picked) !! kept
    requires Distinct(picked) && |kept| + |picked| == |staged|
    requires e in kept
    ensures Elements(picked + [e]) + (kept - {e}) == staged && Elements(picked + [e]) !! (kept - {e})
    ensures Distinct(picked + [e]) && |kept - {e}| + |picked + [e]| == |staged|
  {
    ElementsSnoc(picked, e);
    var t := picked + [e];
    forall k, k' | 0 <= k < k' < |t| ensures t[k] != t[k'] {
      assert t[k] == picked[k] && picked[k] in Elements(picked);
      if k' < |picked| {
        assert t[k'] == picked[k'];
      }
    }
  }

  /** The visiting order of `retain` over the staged set: the first `max`
      indices it meets are picked, in that order, and every index it meets
      after the budget is spent stays staged. */
  method PartitionStaged(staged: set<nat>, max: nat) returns (picked: seq<nat>, kept: set<nat>)
    ensures |picked| == Min(max, |staged|)
    ensures Distinct(picked)
    ensures Elements(picked) + kept == staged && Elements(picked) !! kept
  {
    kept := staged;
    picked := [];
    while kept != {} && |picked| < max
      invariant Elements(picked) + kept == staged && Elements(picked) !! kept
      invariant Distinct(picked) && |kept| + |picked| == |staged|
      invariant |picked| <= max
      decreases |kept|
    {
      var e :| e in kept;
      PickStep(picked, kept, staged, e);
      picked := picked + [e];
      kept := kept - {e};
    }
    assert kept != {} ==> |kept| >= 1;
  }

  /** The drain inside `Brickgrid::upload`: `retain` visits every staged index in
      the set's own (unspecified) order, emits the first `max` it meets together
      with their words, and keeps the rest staged. */
  method DrainStaged(staged: set<nat>, data: seq<U32>, max: nat) returns (entries: seq<(nat, U32)>, kept: set<nat>)
    requires forall i :: i in staged ==> i < |data|
    ensures |entries| == Min(max, |staged|)
    ensures forall k :: 0 <= k < |entries| ==> entries[k].0 in staged && entries[k].1 == data[entries[k].0]
    ensures forall k, k' :: 0 <= k < k' < |entries| ==> entries[k].0 != entries[k'].0
    ensures kept == staged - Drained(entries)
  {
    var picked;
    picked, kept := PartitionStaged(staged, max);
    assert forall k :: 0 <= k < |picked| ==> picked[k] in Elements(picked);
    entries := seq(|picked|, k requires 0 <= k < |picked| => (picked[k], data[picked[k]]));
    assert Drained(entries) == Elements(picked) by {
      forall x | x in Elements(picked) ensures x in Drained(entries) {
        var k :| 0 <= k < |picked| && picked[k] == x;
        assert entries[k].0 == x;
      }
    }
  }

  class Brickgrid {
    const dimensions: UVec3
    const maxUploadCount: nat
    var data: seq<U32>
    var staged: set<nat>

    ghost predicate Valid()
      reads this
    {
      && |data| == Volume(dimensions)
      && forall i :: i in staged ==> i < |data|
    }

    /** `Brickgrid::new`: every cell Unloaded with pointer 0, nothing staged. */
    constructor (dimensions: UVec3, maxUploadCount: nat)
      ensures Valid()
      ensures this.dimensions == dimensions && this.maxUploadCount == maxUploadCount
      ensures data == seq(Volume(dimensions), _ => ElementNew(0, Unloaded))
      ensures staged == {}
    {
      this.dimensions := dimensions;
      this.maxUploadCount := maxUploadCount;
      data := seq(Volume(dimensions), _ => ElementNew(0, Unloaded));
      staged := {};
    }

    /** `set`: overwrites one cell, stages it and returns what was there. */
    method Set(index: nat, value: U32) returns (current: U32)
      requires Valid() && index < |data|
      modifies this
      ensures Valid()
      ensures current == old(data[index])
      ensures data == old(data)[index := value]
      ensures staged == old(staged) + {index}
    {
      current := data[index];
      data := data[index := value];
      staged := staged + {index};
    }

    /** `get`: reads one cell. */
    method Get(index: nat) returns (e: U32)
      requires Valid() && index < |data|
      ensures e == data[index]
    {
      e := data[index];
    }

    /** `upload`: drains a bounded batch of staged cells (see `DrainStaged`); `count`
        is the header's word count, two words per emitted cell. */
    method Upload() returns (count: nat, entries: seq<(nat, U32)>)
      requires Valid()
      modifies this
      ensures Valid() && data == old(data)
      ensures |entries| == Min(maxUploadCount, |old(staged)|)
      ensures count == |UploadWords(entries)|
      ensures forall k :: 0 <= k < |entries| ==> entries[k].0 in old(staged) && entries[k].1 == data[entries[k].0]
      ensures forall k, k' :: 0 <= k < k' < |entries| ==> entries[k].0 != entries[k'].0
      ensures staged == old(staged) - Drained(entries)
    {
      var kept;
      entries, kept := DrainStaged(staged, data, maxUploadCount);
      staged := kept;
      count := 2 * |entries|;
    }
  }
}
