/** The shading-table allocator of `src/voxel/brickworld/shading_table.rs` (and its
    verbatim copy at the bottom of `src/voxel/brickmap.rs`): a slab allocator over
    one flat table of colour words, split into buckets of equal-sized slots. */
module ShadingTable {
  import opened Wrappers
  import opened Math

  /** Why `ShadingBucket::try_dealloc` refused an address. */
  datatype DeallocError = OutOfRange | Misaligned | NotAllocated

  /** The local slot indices `lo..n-1` as a set. */
  function SlotSet(lo: nat, n: nat): (r: set<nat>)
    ensures forall k :: k in r <==> lo <= k < n
  {
    if n <= lo then {} else SlotSet(lo, n - 1) + {n - 1}
  }

  /** `[n-1, n-2, ..., lo]`: what `(lo..n).rev()` pushes, in push order. */
  function Countdown(lo: nat, n: nat): (s: seq<nat>)
    ensures |s| == if lo <= n then n - lo else 0
    decreases n - lo
  {
    if n <= lo then [] else Countdown(lo + 1, n) + [lo]
  }

  /** Popping the countdown stack hands out `lo`, then leaves the countdown from `lo + 1`. */
  lemma CountdownPop(lo: nat, n: nat)
    requires lo < n
    ensures Countdown(lo, n)[|Countdown(lo, n)| - 1] == lo
    ensures Countdown(lo, n)[..|Countdown(lo, n)| - 1] == Countdown(lo + 1, n)
  {
  }

  /** The countdown from `lo` holds each of `lo..n-1` exactly once. */
  lemma {:induction false} CountdownMultiset(lo: nat, n: nat)
    ensures multiset(Countdown(lo, n)) == multiset(SlotSet(lo, n))
    decreases n - lo
  {
    if n <= lo {
      assert SlotSet(lo, n) == {};
    } else {
      CountdownMultiset(lo + 1, n);
      assert SlotSet(lo, n) == SlotSet(lo + 1, n) + {lo};
      MultisetAddFresh(SlotSet(lo + 1, n), lo);
    }
  }

  /** Adding a fresh element to a set adds one copy of it to its multiset. */
  lemma MultisetAddFresh(s: set<nat>, x: nat)
    requires x !in s
    ensures multiset(s + {x}) == multiset(s) + multiset{x}
  {
  }

  /** `Vec::swap_remove`: the last element takes the place of the removed one. */
  function SwapRemove(s: seq<nat>, p: nat): (r: seq<nat>)
    requires p < |s|
    ensures |r| == |s| - 1
  {
    if p == |s| - 1 then s[..p] else s[..p] + [s[|s| - 1]] + s[p + 1..|s| - 1]
  }

  /** Swap-removing position `p` drops exactly one occurrence of `s[p]`. */
  lemma SwapRemoveMultiset(s: seq<nat>, p: nat)
    requires p < |s|
    ensures multiset(SwapRemove(s, p)) == multiset(s) - multiset{s[p]}
  {
    var last := |s| - 1;
    assert multiset(SwapRemove(s, p)) + multiset{s[p]} == multiset(s) by {
      if p == last {
        assert s == s[..last] + [s[last]];
      } else {
        var before, between := s[..p], s[p + 1..last];
        assert s == before + [s[p]] + between + [s[last]];
        assert SwapRemove(s, p) == before + [s[last]] + between;
      }
    }
    MultisetCancel(multiset(SwapRemove(s, p)), multiset(s), s[p]);
  }

  /** Taking back one added copy. */
  lemma MultisetCancel(a: multiset<nat>, b: multiset<nat>, x: nat)
    requires a + multiset{x} == b
    ensures a == b - multiset{x}
  {
    assert forall y :: a[y] == (b - multiset{x})[y];
  }

  /** `used.iter().position(|x| *x == x).unwrap()`: the first position holding `x`. */
  method Position(s: seq<nat>, x: nat) returns (p: nat)
    requires x in s
    ensures p < |s| && s[p] == x
    ensures forall q :: 0 <= q < p ==> s[q] != x
  {
    p := 0;
    while s[p] != x
      invariant p < |s|
      invariant forall q :: 0 <= q < p ==> s[q] != x
      invariant x in s[p..]
      decreases |s| - p
    {
      assert s[p..] == [s[p]] + s[p + 1..];
      p := p + 1;
    }
  }

  /** The free stack of a new bucket: `for i in (0..slot_count).rev() { free.push(i) }`. */
  method FreeStack(slotCount: nat) returns (stack: seq<nat>)
    ensures stack == Countdown(0, slotCount)
  {
    stack := [];
    var i: nat := slotCount;
    while i > 0
      invariant i <= slotCount
      invariant stack == Countdown(i, slotCount)
    {
      i := i - 1;
      stack := stack + [i];
    }
  }

  /** One bucket: slots of `slotSize` words starting at `globalOffset`, a LIFO
      stack of free slot indices and the list of used ones. */
  class ShadingBucket {
    const globalOffset: nat
    const slotCount: nat
    const slotSize: nat
    var free: seq<nat>
    var used: seq<nat>

    /** `free` and `used` together hold every slot index exactly once. */
    ghost predicate Valid()
      reads this
    {
      && slotSize > 0
      && multiset(free) + multiset(used) == multiset(SlotSet(0, slotCount))
    }

    /** The global address of local slot `k`. */
    function AddressOf(k: nat): nat {
      globalOffset + k * slotSize
    }

    /** The addresses currently handed out by this bucket. */
    ghost function Addresses(): set<nat>
      reads this
    {
      set k | k in used :: AddressOf(k)
    }

    /** `ShadingBucket::new`: every slot free, stacked so that slot 0 is popped first. */
    constructor (globalOffset: nat, slotCount: nat, slotSize: nat)
      requires slotSize > 0
      ensures Valid()
      ensures this.globalOffset == globalOffset && this.slotCount == slotCount && this.slotSize == slotSize
      ensures free == Countdown(0, slotCount) && used == []
    {
      this.globalOffset := globalOffset;
      this.slotCount := slotCount;
      this.slotSize := slotSize;
      var stack := FreeStack(slotCount);
      CountdownMultiset(0, slotCount);
      free := stack;
      used := [];
    }

    /** A slot index held in `free` or `used` is below `slotCount`, and appears in only one of them. */
    lemma SlotFacts(k: nat)
      requires Valid()
      ensures k in free ==> k < slotCount && k !in used && multiset(free)[k] == 1
      ensures k in used ==> k < slotCount && k !in free && multiset(used)[k] == 1
    {
      assert (multiset(free) + multiset(used))[k] == multiset(SlotSet(0, slotCount))[k];
    }

    /** Distinct slots have distinct addresses. */
    lemma AddressInjective(k: nat, k': nat)
      requires slotSize > 0
      ensures AddressOf(k) == AddressOf(k') ==> k == k'
    {
      if k < k' {
        MulMonotone(k + 1, k', slotSize);
      } else if k' < k {
        MulMonotone(k' + 1, k, slotSize);
      }
    }

    /** An address is a used slot's address iff its local index is in `used`. */
    lemma AddressesMember(k: nat)
      requires Valid()
      ensures AddressOf(k) in Addresses() <==> k in used
    {
      if AddressOf(k) in Addresses() {
        var k' :| k' in used && AddressOf(k') == AddressOf(k);
        AddressInjective(k, k');
      }
    }

    /** `contains_address`: `address` lies in `[globalOffset, globalOffset + slotCount * slotSize)`. */
    function ContainsAddress(address: nat): bool {
      var min := globalOffset;
      var max := min + slotCount * slotSize;
      min <= address && address < max
    }

    /** `try_alloc`: pops the top free index, records it as used and returns its
        address; None exactly when no slot is free. */
    method TryAlloc() returns (r: Option<nat>)
      requires Valid()
      modifies this
      ensures Valid()
      ensures old(free) == [] <==> r == None
      ensures r == None ==> free == old(free) && used == old(used)
      ensures r != None ==>
        var k := old(free)[|old(free)| - 1];
        && r == Some(AddressOf(k))
        && free == old(free)[..|old(free)| - 1]
        && used == old(used) + [k]
        && r.value !in old(Addresses())
        && Addresses() == old(Addresses()) + {r.value}
    {
      if free == [] {
        return None;
      }
      var k := free[|free| - 1];
      SlotFacts(k);
      AddressesMember(k);
      assert free == free[..|free| - 1] + [k];
      free := free[..|free| - 1];
      used := used + [k];
      r := Some(AddressOf(k));
      assert multiset(free) + multiset(used) == old(multiset(free) + multiset(used));
      assert Addresses() == old(Addresses()) + {r.value} by {
        forall a | a in Addresses() ensures a in old(Addresses()) + {r.value} {
          var k' :| k' in used && AddressOf(k') == a;
          if k' != k {
            assert k' in old(used);
          }
        }
      }
    }

    /** `try_dealloc`: rejects an address outside the bucket, one not on a slot
        boundary, and one whose slot is not in use, leaving the bucket alone;
        otherwise moves the slot from `used` (by swap-remove) back onto `free`.
        It succeeds exactly for the addresses this bucket has handed out. */
    method TryDealloc(address: nat) returns (r: Outcome<DeallocError>)
      requires Valid()
      modifies this
      ensures Valid()
      ensures !ContainsAddress(address) ==> r == Fail(OutOfRange)
      ensures ContainsAddress(address) && (address - globalOffset) % slotSize != 0 ==> r == Fail(Misaligned)
      ensures (ContainsAddress(address) && (address - globalOffset) % slotSize == 0
               && (address - globalOffset) / slotSize !in old(used)) ==> r == Fail(NotAllocated)
      ensures r == Pass <==> address in old(Addresses())
      ensures r != Pass ==> free == old(free) && used == old(used)
      ensures r == Pass ==>
        var k: nat := (address - globalOffset) / slotSize;
        && free == old(free) + [k]
        && multiset(used) == multiset(old(used)) - multiset{k}
        && Addresses() == old(Addresses()) - {address}
    {
      if !ContainsAddress(address) {
        NotInRange(address);
        return Fail(OutOfRange);
      }
      var local := address - globalOffset;
      if local % slotSize != 0 {
        NotAligned(address);
        return Fail(Misaligned);
      }
      var k := local / slotSize;
      assert address == AddressOf(k);
      AddressesMember(k);
      if k !in used {
        return Fail(NotAllocated);
      }
      ReleaseSlot(k);
      r := Pass;
    }

    /** The success path of `try_dealloc`: slot `k`, which is in use, is
        swap-removed from `used` and pushed back onto `free`. */
    method ReleaseSlot(k: nat)
      requires Valid() && k in used
      modifies this
      ensures Valid()
      ensures free == old(free) + [k]
      ensures multiset(used) == multiset(old(used)) - multiset{k}
      ensures Addresses() == old(Addresses()) - {AddressOf(k)}
    {
      SlotFacts(k);
      var p := Position(used, k);
      SwapRemoveMultiset(used, p);
      var before := used;
      used := SwapRemove(used, p);
      free := free + [k];
      assert multiset(free) + multiset(used) == old(multiset(free) + multiset(used));
      assert Addresses() == old(Addresses()) - {AddressOf(k)} by {
        forall a | a in old(Addresses()) - {AddressOf(k)} ensures a in Addresses() {
          var k' :| k' in before && AddressOf(k') == a;
          assert k' != k;
          assert multiset(used)[k'] == multiset(before)[k'];
        }
        forall a | a in Addresses() ensures a in old(Addresses()) - {AddressOf(k)} {
          var k' :| k' in used && AddressOf(k') == a;
          assert multiset(used)[k'] > 0;
          assert k' != k;
          AddressInjective(k, k');
        }
      }
    }

    /** The address of slot `k` lies in the bucket's range, on its slot grid, and
        names local slot `k`: `try_dealloc` routes it back to `k`. */
    lemma SlotAddress(k: nat)
      requires slotSize > 0 && k < slotCount
      ensures ContainsAddress(AddressOf(k))
      ensures (AddressOf(k) - globalOffset) % slotSize == 0 && (AddressOf(k) - globalOffset) / slotSize == k
    {
      MulMonotone(k + 1, slotCount, slotSize);
      DivModUnique(k * slotSize, slotSize, k, 0);
    }

    /** An address outside the bucket's range is none of its slots' addresses. */
    lemma NotInRange(address: nat)
      requires Valid() && !ContainsAddress(address)
      ensures address !in Addresses()
    {
      if address in Addresses() {
        var k :| k in used && AddressOf(k) == address;
        SlotFacts(k);
        MulMonotone(k + 1, slotCount, slotSize);
      }
    }

    /** An address off the slot grid is none of the bucket's addresses. */
    lemma NotAligned(address: nat)
      requires Valid() && ContainsAddress(address) && (address - globalOffset) % slotSize != 0
      ensures address !in Addresses()
    {
      if address in Addresses() {
        var k :| k in used && AddressOf(k) == address;
        DivModUnique(address - globalOffset, slotSize, k, 0);
      }
    }

    /** The addresses of local slots `0..n-1`. */
    function SlotAddresses(n: nat): set<nat> {
      set k | 0 <= k < n :: AddressOf(k)
    }

    /** Slot addresses are pairwise distinct, so `n` slots have `n` addresses. */
    lemma {:induction false} SlotAddressesCount(n: nat)
      requires slotSize > 0
      ensures |SlotAddresses(n)| == n
    {
      if n > 0 {
        SlotAddressesCount(n - 1);
        var a := AddressOf(n - 1);
        if a in SlotAddresses(n - 1) {
          var k :| 0 <= k < n - 1 && AddressOf(k) == a;
          AddressInjective(k, n - 1);
          assert false;
        }
        assert SlotAddresses(n) == SlotAddresses(n - 1) + {a};
        assert |SlotAddresses(n - 1) + {a}| == |SlotAddresses(n - 1)| + 1;
      }
    }

    /** A bucket whose free stack is empty has handed out all `slotCount` addresses. */
    lemma FullBucket()
      requires Valid() && free == []
      ensures |Addresses()| == slotCount
    {
      assert Addresses() == SlotAddresses(slotCount) by {
        forall a | a in SlotAddresses(slotCount) ensures a in Addresses() {
          var k :| 0 <= k < slotCount && AddressOf(k) == a;
          assert multiset(used)[k] == multiset(SlotSet(0, slotCount))[k];
        }
        forall a | a in Addresses() ensures a in SlotAddresses(slotCount) {
          var k :| k in used && AddressOf(k) == a;
          SlotFacts(k);
        }
      }
      SlotAddressesCount(slotCount);
    }
  }

  /** Global bucket `i` of a table with `epb` words per bucket: it starts at
      `i * epb`, its slots hold `2^(9-i)` words and it has `epb / 2^(9-i)` of them. */
  predicate BucketLayout(b: ShadingBucket, i: nat, epb: nat)
    requires i <= 9
  {
    && b.globalOffset == i * epb
    && b.slotSize == Pow2(9 - i)
    && b.slotCount == epb / Pow2(9 - i)
  }

  /** How many slots of `slotSize` words fit in `epb` words. */
  function SlotsPerBucket(epb: nat, slotSize: nat): nat
    requires slotSize > 0
  {
    epb / slotSize
  }

  /** Every slot of global bucket `i` lies inside `[i * epb, (i + 1) * epb)`. */
  lemma SlotInBucketRange(b: ShadingBucket, i: nat, epb: nat, k: nat)
    requires i <= 9 && BucketLayout(b, i, epb) && k < b.slotCount
    ensures i * epb <= b.AddressOf(k)
    ensures b.AddressOf(k) + b.slotSize <= (i + 1) * epb
  {
    SlotEndWithin(b.globalOffset, i, b.slotSize, b.slotCount, epb, k);
  }

  /** The arithmetic of `SlotInBucketRange`: slot `k` of `epb / ss` slots of
      `ss` words, counted from `i * epb`, ends within `(i + 1) * epb`. */
  lemma SlotEndWithin(off: nat, i: nat, ss: nat, n: nat, epb: nat, k: nat)
    requires off == i * epb && ss > 0 && n == epb / ss && k < n
    ensures i * epb <= off + k * ss
    ensures off + k * ss + ss <= (i + 1) * epb
  {
    assert (i + 1) * epb == i * epb + epb;
    assert k * ss + ss <= n * ss by {
      MulMonotone(k + 1, n, ss);
      assert (k + 1) * ss == k * ss + ss;
    }
    assert n * ss <= epb by {
      DivModUnique(epb, ss, epb / ss, epb % ss);
    }
  }

  /** A slot of global bucket `i` has flat address whose quotient by `epb` is `i`. */
  lemma SlotBucketIndex(b: ShadingBucket, i: nat, epb: nat, k: nat)
    requires i <= 9 && BucketLayout(b, i, epb) && k < b.slotCount
    ensures epb > 0 && b.AddressOf(k) / epb == i
  {
    SlotInBucketRange(b, i, epb, k);
    assert (i + 1) * epb == i * epb + epb;
    DivModUnique(b.AddressOf(k), epb, i, b.AddressOf(k) - i * epb);
  }

  /** The bucket loop of `ShadingTableAllocator::new`: from global bucket
      `bucketCount - 1` down to 0, each a fresh bucket with all slots free, so
      vector entry `j` is global bucket `bucketCount - 1 - j`. */
  method BuildBuckets(bucketCount: nat, elementsPerBucket: nat) returns (bs: seq<ShadingBucket>)
    requires bucketCount <= 10
    ensures |bs| == bucketCount
    ensures forall j, j' :: 0 <= j < j' < |bs| ==> bs[j] != bs[j']
    ensures forall j :: 0 <= j < |bs| ==> fresh(bs[j]) && bs[j].used == []
    ensures forall j :: 0 <= j < |bs| ==> BucketLayout(bs[j], bucketCount - 1 - j, elementsPerBucket)
    ensures forall j :: 0 <= j < |bs| ==> bs[j].Valid()
  {
    bs := [];
    var i: nat := bucketCount;
    while i > 0
      invariant i <= bucketCount && |bs| == bucketCount - i
      invariant forall j, j' :: 0 <= j < j' < |bs| ==> bs[j] != bs[j']
      invariant forall j :: 0 <= j < |bs| ==> fresh(bs[j]) && bs[j].used == []
      invariant forall j :: 0 <= j < |bs| ==> BucketLayout(bs[j], bucketCount - 1 - j, elementsPerBucket)
      invariant forall j :: 0 <= j < |bs| ==> bs[j].Valid()
    {
      i := i - 1;
      var globalOffset := i * elementsPerBucket;
      var slotSize := Pow2(9 - i);
      var slotCount: nat := SlotsPerBucket(elementsPerBucket, slotSize);
      var b := new ShadingBucket(globalOffset, slotCount, slotSize);
      bs := bs + [b];
    }
  }

  /** The buckets of the table, each a separate object laid out by `BucketLayout`. */
  class ShadingTableAllocator {
    const buckets: seq<ShadingBucket>
    const bucketCount: nat
    const elementsPerBucket: nat
    const totalElements: nat
    var usedElements: int

    /** Vector position `j` holds global bucket `bucketCount - 1 - j`, so slot sizes
        ascend along the vector. */
    ghost predicate Valid()
      reads this, buckets
    {
      && |buckets| == bucketCount
      && bucketCount <= 10
      && totalElements == bucketCount * elementsPerBucket
      && (forall j, j' :: 0 <= j < j' < |buckets| ==> buckets[j] != buckets[j'])
      && (forall j :: 0 <= j < |buckets| ==> BucketLayout(buckets[j], bucketCount - 1 - j, elementsPerBucket))
      && (forall j :: 0 <= j < |buckets| ==> buckets[j].Valid())
    }

    /** The addresses each bucket has handed out, in vector order. */
    ghost function AddressSets(): (r: seq<set<nat>>)
      reads this, buckets
      ensures |r| == |buckets|
      ensures forall j :: 0 <= j < |buckets| ==> r[j] == buckets[j].Addresses()
    {
      seq(|buckets|, j requires 0 <= j < |buckets| reads buckets => buckets[j].Addresses())
    }

    /** Every address currently handed out by some bucket. */
    ghost function Allocated(): set<nat>
      reads this, buckets
    {
      UnionOf(AddressSets())
    }

    /** The vector position of the first bucket, from position `j` on, whose slots
        can hold `size` words and which has a free slot. */
    function FirstFitFrom(size: nat, j: nat): (r: Option<nat>)
      reads this, buckets
      ensures r.Some? ==> j <= r.value < |buckets|
      ensures r.Some? ==> buckets[r.value].slotSize >= size && buckets[r.value].free != []
      decreases |buckets| - j
    {
      if j >= |buckets| then None
      else if buckets[j].slotSize >= size && buckets[j].free != [] then Some(j)
      else FirstFitFrom(size, j + 1)
    }

    /** The bucket `try_alloc(size)` takes its slot from. */
    function FirstFit(size: nat): (r: Option<nat>)
      reads this, buckets
      ensures r.Some? ==> r.value < |buckets|
      ensures r.Some? ==> buckets[r.value].slotSize >= size && buckets[r.value].free != []
    {
      FirstFitFrom(size, 0)
    }

    /** The address the next `try_alloc(size)` returns, None when it would fail. */
    function NextAddress(size: nat): Option<nat>
      reads this, buckets
    {
      match FirstFit(size)
      case None => None
      case Some(j) => Some(buckets[j].AddressOf(buckets[j].free[|buckets[j].free| - 1]))
    }

    /** The free stacks of the buckets, in vector order. */
    ghost function Frees(): (r: seq<seq<nat>>)
      reads this, buckets
      ensures |r| == |buckets|
    {
      seq(|buckets|, j requires 0 <= j < |buckets| reads buckets => buckets[j].free)
    }

    /** The used lists of the buckets, in vector order. */
    ghost function Useds(): (r: seq<seq<nat>>)
      reads this, buckets
      ensures |r| == |buckets|
    {
      seq(|buckets|, j requires 0 <= j < |buckets| reads buckets => buckets[j].used)
    }

    /** `fs` lists the current free stacks bucket by bucket. */
    lemma FreesAre(fs: seq<seq<nat>>)
      requires |fs| == |buckets| && forall j :: 0 <= j < |buckets| ==> fs[j] == buckets[j].free
      ensures Frees() == fs
    {
    }

    /** `us` lists the current used lists bucket by bucket. */
    lemma UsedsAre(us: seq<seq<nat>>)
      requires |us| == |buckets| && forall j :: 0 <= j < |buckets| ==> us[j] == buckets[j].used
      ensures Useds() == us
    {
    }

    /** First fit read off the free stacks `frees` alone: the slot sizes are fixed
        when the table is built. */
    function FirstFitIn(frees: seq<seq<nat>>, size: nat, j: nat): (r: Option<nat>)
      requires |frees| == |buckets|
      ensures r.Some? ==> j <= r.value < |buckets|
      ensures r.Some? ==> buckets[r.value].slotSize >= size && frees[r.value] != []
      decreases |buckets| - j
    {
      if j >= |buckets| then None
      else if buckets[j].slotSize >= size && frees[j] != [] then Some(j)
      else FirstFitIn(frees, size, j + 1)
    }

    /** The address `try_alloc(size)` hands out when the free stacks are `frees`. */
    function NextIn(frees: seq<seq<nat>>, size: nat): Option<nat>
      requires |frees| == |buckets|
    {
      match FirstFitIn(frees, size, 0)
      case None => None
      case Some(j) => Some(buckets[j].AddressOf(frees[j][|frees[j]| - 1]))
    }

    /** First fit depends on nothing but the free stacks. */
    lemma {:induction false} FirstFitByFrees(size: nat, j: nat)
      ensures FirstFitFrom(size, j) == FirstFitIn(Frees(), size, j)
      decreases |buckets| - j
    {
      if j < |buckets| {
        FirstFitByFrees(size, j + 1);
      }
    }

    /** So does the next address of every size: two states with the same free
        stacks hand out the same addresses next. */
    lemma NextByFrees()
      ensures forall size :: NextAddress(size) == NextIn(Frees(), size)
    {
      forall size ensures NextAddress(size) == NextIn(Frees(), size) {
        NextFromFrees(size);
      }
    }

    /** `NextByFrees` for one size. */
    lemma NextFromFrees(size: nat)
      ensures NextAddress(size) == NextIn(Frees(), size)
    {
      FirstFitByFrees(size, 0);
    }

    /** Every free stack that is non-empty in `frees` is non-empty now. */
    ghost predicate FreeCovers(frees: seq<seq<nat>>)
      reads this, buckets
    {
      Covers(frees, Frees())
    }

    /** First fit only gets easier as free stacks fill up. */
    lemma {:induction false} FirstFitInGrows(frees: seq<seq<nat>>, frees': seq<seq<nat>>, size: nat, j: nat)
      requires |frees| == |buckets| && Covers(frees, frees')
      ensures FirstFitIn(frees, size, j).Some? ==> FirstFitIn(frees', size, j).Some?
      decreases |buckets| - j
    {
      if j < |buckets| {
        FirstFitInGrows(frees, frees', size, j + 1);
      }
    }

    /** A request that would have been served from the free stacks `frees` is
        still served once every one of them that was non-empty still is: releases
        never make `try_alloc` fail. */
    lemma RoomKept(frees: seq<seq<nat>>, size: nat)
      requires FreeCovers(frees) && NextIn(frees, size).Some?
      ensures NextAddress(size).Some?
    {
      FirstFitInGrows(frees, Frees(), size, 0);
      NextByFrees();
    }

    /** `FirstFitFrom` picks the first qualifying bucket, and fails only when none qualifies. */
    lemma {:induction false} FirstFitFromIsFirst(size: nat, j: nat)
      ensures FirstFitFrom(size, j).Some? ==>
        forall j' :: j <= j' < FirstFitFrom(size, j).value ==> buckets[j'].slotSize < size || buckets[j'].free == []
      ensures FirstFitFrom(size, j).None? <==>
        forall j' :: j <= j' < |buckets| ==> buckets[j'].slotSize < size || buckets[j'].free == []
      decreases |buckets| - j
    {
      if j < |buckets| {
        FirstFitFromIsFirst(size, j + 1);
      }
    }

    /** `ShadingTableAllocator::new`: `bucketCount` buckets of `elementsPerBucket`
        words each, built from the highest global index down, all slots free. */
    constructor (bucketCount: nat, elementsPerBucket: nat)
      requires bucketCount <= 10
      ensures Valid()
      ensures this.bucketCount == bucketCount && this.elementsPerBucket == elementsPerBucket
      ensures totalElements == bucketCount * elementsPerBucket && usedElements == 0
      ensures forall j :: 0 <= j < |buckets| ==> fresh(buckets[j]) && buckets[j].used == []
      ensures Allocated() == {}
    {
      var bs := BuildBuckets(bucketCount, elementsPerBucket);
      this.buckets := bs;
      this.bucketCount := bucketCount;
      this.elementsPerBucket := elementsPerBucket;
      this.totalElements := bucketCount * elementsPerBucket;
      this.usedElements := 0;
      new;
      assert forall j :: 0 <= j < |buckets| ==> buckets[j].Addresses() == {};
    }

    /** Along the vector, slot sizes strictly ascend: first fit tries the
        smallest slots first. */
    lemma SlotSizesAscend(j: nat, j': nat)
      requires Valid() && j < j' < |buckets|
      ensures buckets[j].slotSize < buckets[j'].slotSize
    {
      Pow2Monotone(9 - (bucketCount - 1 - j), 9 - (bucketCount - 1 - j'));
    }

    /** An address handed out by vector bucket `j` lies in global bucket
        `bucketCount - 1 - j`'s part of the table, and its whole slot fits in
        the table. */
    lemma AddressOwner(j: nat, a: nat)
      requires Valid() && j < |buckets| && a in buckets[j].Addresses()
      ensures elementsPerBucket > 0 && a / elementsPerBucket == bucketCount - 1 - j
      ensures a + buckets[j].slotSize <= totalElements
    {
      var b, i := buckets[j], bucketCount - 1 - j;
      var k :| k in b.used && b.AddressOf(k) == a;
      b.SlotFacts(k);
      SlotBucketIndex(b, i, elementsPerBucket, k);
      SlotInBucketRange(b, i, elementsPerBucket, k);
      MulMonotone(i + 1, bucketCount, elementsPerBucket);
    }

    /** The address of a free slot of bucket `j` is handed out by no bucket, and
        that slot fits in the table. */
    lemma FreeSlotUnowned(j: nat, k: nat)
      requires Valid() && j < |buckets| && k in buckets[j].free
      ensures buckets[j].AddressOf(k) !in Allocated()
      ensures buckets[j].AddressOf(k) + buckets[j].slotSize <= totalElements
    {
      var b, i, a := buckets[j], bucketCount - 1 - j, buckets[j].AddressOf(k);
      b.SlotFacts(k);
      b.AddressesMember(k);
      SlotInBucketRange(b, i, elementsPerBucket, k);
      SlotBucketIndex(b, i, elementsPerBucket, k);
      MulMonotone(i + 1, bucketCount, elementsPerBucket);
      if a in Allocated() {
        var j' :| 0 <= j' < |buckets| && a in AddressSets()[j'];
        AddressOwner(j', a);
      }
    }

    /** No address is handed out by two buckets. */
    lemma OwnerUnique(j: nat, j': nat, a: nat)
      requires Valid() && j < |buckets| && j' < |buckets|
      requires a in buckets[j].Addresses() && a in buckets[j'].Addresses()
      ensures j == j'
    {
      AddressOwner(j, a);
      AddressOwner(j', a);
    }

    /** Every handed-out address lies inside the table. */
    lemma AllocatedInTable(a: nat)
      requires Valid() && a in Allocated()
      ensures a < totalElements
    {
      var j :| 0 <= j < |buckets| && a in AddressSets()[j];
      AddressOwner(j, a);
      assert buckets[j].Valid();
    }

    /** The address the next `try_alloc(size)` hands out is not handed out yet and
        lies inside the table. */
    lemma NextAddressFresh(size: nat)
      requires Valid() && NextAddress(size).Some?
      ensures NextAddress(size).value !in Allocated()
      ensures NextAddress(size).value < totalElements
    {
      var j := FirstFit(size).value;
      var b := buckets[j];
      assert b.free[|b.free| - 1] in b.free;
      FreeSlotUnowned(j, b.free[|b.free| - 1]);
      assert b.Valid();
    }

    /** While fewer addresses are handed out than the 512-word bucket has slots,
        that bucket has a free slot, so every request of at most 512 words succeeds. */
    lemma CapacityFromLargestBucket(size: nat)
      requires Valid() && bucketCount >= 1 && size <= 512
      requires |Allocated()| < buckets[bucketCount - 1].slotCount
      ensures NextAddress(size).Some?
    {
      var b := buckets[bucketCount - 1];
      Pow2Values();
      assert b.slotSize == 512 by {
        assert Pow2(9) == 2 * Pow2(8);
      }
      if b.free == [] {
        b.FullBucket();
        SubsetCard(b.Addresses(), Allocated());
        assert false;
      }
      FirstFitFromIsFirst(size, 0);
    }

    /** The search loop of `try_alloc`: a bucket with an empty free stack answers
        None and changes nothing, so the search stops at the first bucket that is
        large enough and has a free slot. */
    method FindBucket(size: nat) returns (found: Option<nat>)
      requires Valid()
      ensures found == FirstFit(size)
    {
      var j := 0;
      while j < bucketCount && !(buckets[j].slotSize >= size && buckets[j].free != [])
        invariant j <= bucketCount
        invariant FirstFitFrom(size, j) == FirstFit(size)
      {
        j := j + 1;
      }
      found := if j == bucketCount then None else Some(j);
    }

    /** `try_alloc`: first fit over the buckets in ascending slot size. Returns
        the address `NextAddress` predicts; on success the chosen bucket's top free
        slot is handed out as `Allocation` describes, and on failure nothing
        changes. */
    method TryAlloc(size: nat) returns (r: Option<nat>)
      requires Valid()
      modifies this, buckets
      ensures Valid()
      ensures r == old(NextAddress(size))
      ensures r == None <==> old(FirstFit(size)) == None
      ensures r == None ==> unchanged(this) && unchanged(buckets) && Allocated() == old(Allocated())
      ensures r != None ==>
        && buckets[old(FirstFit(size)).value].slotSize >= size
        && Allocation(old(FirstFit(size)).value, r.value, old(Frees()), old(Useds()), old(Allocated()), old(usedElements))
    {
      ghost var frees, useds, handed := Frees(), Useds(), Allocated();
      var found := FindBucket(size);
      assert Frees() == frees && Useds() == useds && Allocated() == handed;
      if found == None {
        return None;
      }
      var a := AllocIn(found.value);
      r := Some(a);
    }

    /** The allocation step of `try_alloc` once bucket `j` has been chosen: its
        top free slot becomes used, and only that bucket and the counter change. */
    method AllocIn(j: nat) returns (a: nat)
      requires Valid() && j < |buckets| && buckets[j].free != []
      modifies this, buckets[j]
      ensures Valid()
      ensures Allocation(j, a, old(Frees()), old(Useds()), old(Allocated()), old(usedElements))
    {
      var bucket := buckets[j];
      FreeSlotUnowned(j, bucket.free[|bucket.free| - 1]);
      ghost var sets, frees, useds := AddressSets(), Frees(), Useds();
      var r := bucket.TryAlloc();
      a := r.value;
      usedElements := usedElements + bucket.slotSize;
      forall j' | 0 <= j' < |buckets| && j' != j
        ensures buckets[j'].free == frees[j'] && buckets[j'].used == useds[j']
      {
        assert buckets[j'] != bucket;
      }
      FreesAre(frees[j := bucket.free]);
      UsedsAre(useds[j := bucket.used]);
      assert AddressSets() == sets[j := sets[j] + {a}];
      UnionAdd(sets, j, a);
    }

    /** Bucket `j` has handed out `a`, the top of its free stack. Before, the
        buckets' stacks were `frees` and `useds`, the allocated set `handed`
        and the counter `counter`: the top slot moved from bucket `j`'s free
        stack onto its used list, every other bucket kept its stacks, `a` joined
        the allocated set and ends within the table, and the counter grew by the
        slot size. */
    ghost predicate Allocation(j: nat, a: nat, frees: seq<seq<nat>>, useds: seq<seq<nat>>, handed: set<nat>, counter: int)
      reads this, buckets
      requires j < |buckets|
    {
      var b := buckets[j];
      && |frees| == |useds| == |buckets|
      && frees[j] != []
      && a == b.AddressOf(frees[j][|frees[j]| - 1])
      && b.free == frees[j][..|frees[j]| - 1]
      && b.used == useds[j] + [frees[j][|frees[j]| - 1]]
      && Frees() == frees[j := b.free] && Useds() == useds[j := b.used]
      && a !in handed && Allocated() == handed + {a}
      && a + b.slotSize <= totalElements
      && usedElements == counter + b.slotSize
    }

    /** Bucket `j` has answered `r` to `try_dealloc(address)`. Before, the
        buckets' stacks were `frees` and `useds`, the allocated set `handed`
        and the counter `counter`. Each refusal names its reason and keeps the
        stacks; a release, which happens exactly when `address` was allocated,
        pushes the slot back onto bucket `j`'s free stack, swap-removes it from
        its used list and takes `address` out of the allocated set. Every other
        bucket keeps its stacks, and the counter loses the slot size either way. */
    ghost predicate Release(j: nat, address: nat, r: Outcome<DeallocError>,
                            frees: seq<seq<nat>>, useds: seq<seq<nat>>, handed: set<nat>, counter: int)
      reads this, buckets
      requires j < |buckets|
    {
      var b := buckets[j];
      var local := address - b.globalOffset;
      && |frees| == |useds| == |buckets|
      && (!b.ContainsAddress(address) ==> r == Fail(OutOfRange))
      && (b.ContainsAddress(address) && local % b.slotSize != 0 ==> r == Fail(Misaligned))
      && (b.ContainsAddress(address) && local % b.slotSize == 0 && local / b.slotSize !in useds[j] ==> r == Fail(NotAllocated))
      && (r == Pass <==> address in handed)
      && (r != Pass ==> b.free == frees[j] && b.used == useds[j] && Allocated() == handed)
      && (r == Pass ==>
            && b.ContainsAddress(address) && local % b.slotSize == 0
            && b.free == frees[j] + [local / b.slotSize]
            && multiset(b.used) == multiset(useds[j]) - multiset{local / b.slotSize}
            && Allocated() == handed - {address})
      && Frees() == frees[j := b.free] && Useds() == useds[j := b.used]
      && usedElements == counter - b.slotSize
    }

    /** A release of slot `k` of bucket `j` puts `k` back on top of its free
        stack and takes one `k` off its used list. */
    lemma ReleasedSlot(j: nat, k: nat, address: nat, r: Outcome<DeallocError>,
                       frees: seq<seq<nat>>, useds: seq<seq<nat>>, handed: set<nat>, counter: int)
      requires j < |buckets| && buckets[j].slotSize > 0 && k < buckets[j].slotCount && address == buckets[j].AddressOf(k)
      requires Release(j, address, r, frees, useds, handed, counter) && r == Pass
      ensures buckets[j].free == frees[j] + [k]
      ensures multiset(buckets[j].used) == multiset(useds[j]) - multiset{k}
    {
      buckets[j].SlotAddress(k);
    }

    /** Bucket `j` refuses slot `k` when `k` was not in use: the refusal is
        `NotAllocated` and nothing changes. */
    lemma RefusedSlot(j: nat, k: nat, address: nat, r: Outcome<DeallocError>,
                      frees: seq<seq<nat>>, useds: seq<seq<nat>>, handed: set<nat>, counter: int)
      requires j < |buckets| && buckets[j].slotSize > 0 && k < buckets[j].slotCount && address == buckets[j].AddressOf(k)
      requires Release(j, address, r, frees, useds, handed, counter) && k !in useds[j]
      ensures r == Fail(NotAllocated)
      ensures buckets[j].free == frees[j] && buckets[j].used == useds[j] && Allocated() == handed
    {
      buckets[j].SlotAddress(k);
    }

    /** The vector position of the bucket whose address range holds `address`:
        buckets are stored in reverse order of their global offset. */
    function BucketFor(address: nat): (j: nat)
      requires elementsPerBucket > 0 && address / elementsPerBucket < bucketCount
      ensures j < bucketCount && address / elementsPerBucket == bucketCount - 1 - j
    {
      bucketCount - address / elementsPerBucket - 1
    }

    /** An address below the table size lies in the range of some bucket. */
    lemma AddressRouted(address: nat)
      requires Valid() && address < totalElements
      ensures elementsPerBucket > 0 && address / elementsPerBucket < bucketCount
    {
      if elementsPerBucket == 0 {
        assert false;
      }
      var q := address / elementsPerBucket;
      if q >= bucketCount {
        MulMonotone(bucketCount, q, elementsPerBucket);
        assert false;
      }
    }

    /** `try_dealloc`: routes the address to the bucket owning its range, takes
        that bucket's slot size off `usedElements` (whether or not the bucket
        accepts the address) and lets the bucket release the slot. It succeeds
        exactly when the address is handed out, and then only that address
        leaves the allocated set. */
    method TryDealloc(address: nat) returns (r: Outcome<DeallocError>)
      requires Valid() && address < totalElements
      modifies this, buckets
      ensures Valid()
      ensures elementsPerBucket > 0 && address / elementsPerBucket < bucketCount
      ensures r == Pass <==> address in old(Allocated())
      ensures Allocated() == if r == Pass then old(Allocated()) - {address} else old(Allocated())
      ensures Release(BucketFor(address), address, r, old(Frees()), old(Useds()), old(Allocated()), old(usedElements))
      ensures FreeCovers(old(Frees()))
    {
      AddressRouted(address);
      var j := bucketCount - address / elementsPerBucket - 1;
      r := DeallocIn(j, address);
    }

    /** The release step of `try_dealloc` once the owning bucket `j` is known. */
    method DeallocIn(j: nat, address: nat) returns (r: Outcome<DeallocError>)
      requires Valid() && j < |buckets|
      requires elementsPerBucket > 0 && address / elementsPerBucket == bucketCount - 1 - j
      modifies this, buckets[j]
      ensures Valid()
      ensures Release(j, address, r, old(Frees()), old(Useds()), old(Allocated()), old(usedElements))
      ensures FreeCovers(old(Frees()))
    {
      var bucket := buckets[j];
      ghost var sets := AddressSets();
      forall j' | 0 <= j' < |buckets| && address in sets[j'] ensures j' == j {
        AddressOwner(j', address);
      }
      assert address in UnionOf(sets) <==> address in sets[j];
      ghost var frees, useds := Frees(), Useds();
      usedElements := usedElements - bucket.slotSize;
      r := bucket.TryDealloc(address);
      forall j' | 0 <= j' < |buckets| && j' != j
        ensures buckets[j'].free == frees[j'] && buckets[j'].used == useds[j']
      {
        assert buckets[j'] != bucket;
      }
      FreesAre(frees[j := bucket.free]);
      UsedsAre(useds[j := bucket.used]);
      if r == Pass {
        assert AddressSets() == sets[j := sets[j] - {address}];
        UnionRemove(sets, j, address);
      } else {
        assert AddressSets() == sets;
      }
    }
  }

  /** Every stack that is non-empty in `f` is non-empty in `g`. */
  predicate Covers(f: seq<seq<nat>>, g: seq<seq<nat>>) {
    |f| == |g| && forall j :: 0 <= j < |f| && f[j] != [] ==> g[j] != []
  }

  /** Covering is transitive: a run of releases keeps every earlier non-empty
      free stack non-empty. */
  lemma CoversTrans(f: seq<seq<nat>>, g: seq<seq<nat>>, h: seq<seq<nat>>)
    requires Covers(f, g) && Covers(g, h)
    ensures Covers(f, h)
  {
  }

  /** Every element of some set of the sequence. */
  function UnionOf(s: seq<set<nat>>): set<nat> {
    set j, a | 0 <= j < |s| && a in s[j] :: a
  }

  /** Adding `a` to one set of the sequence adds `a` to the union. */
  lemma UnionAdd(s: seq<set<nat>>, j: nat, a: nat)
    requires j < |s|
    ensures UnionOf(s[j := s[j] + {a}]) == UnionOf(s) + {a}
  {
    var t := s[j := s[j] + {a}];
    forall x | x in UnionOf(t) ensures x in UnionOf(s) + {a} {
      var j' :| 0 <= j' < |t| && x in t[j'];
      if j' != j || x != a {
        assert x in s[j'];
      }
    }
    forall x | x in UnionOf(s) ensures x in UnionOf(t) {
      var j' :| 0 <= j' < |s| && x in s[j'];
      assert x in t[j'];
    }
    assert a in t[j];
  }

  /** Removing `a` from the one set that holds it removes `a` from the union. */
  lemma UnionRemove(s: seq<set<nat>>, j: nat, a: nat)
    requires j < |s|
    requires forall j' :: 0 <= j' < |s| && j' != j ==> a !in s[j']
    ensures UnionOf(s[j := s[j] - {a}]) == UnionOf(s) - {a}
  {
    var t := s[j := s[j] - {a}];
    forall x | x in UnionOf(t) ensures x in UnionOf(s) - {a} {
      var j' :| 0 <= j' < |t| && x in t[j'];
      assert x in s[j'];
    }
    forall x | x in UnionOf(s) - {a} ensures x in UnionOf(t) {
      var j' :| 0 <= j' < |s| && x in s[j'];
      assert x in t[j'];
    }
  }

  /** A subset has no more elements than its superset. */
  lemma SubsetCard<T>(a: set<T>, b: set<T>)
    requires a <= b
    ensures |a| <= |b|
  {
    assert b == a + (b - a);
  }

  /** A bucket of four 32-word slots at offset 96: the first allocation takes
      slot 0, and a freed slot is the next one handed out again. */
  method BucketReuse() returns (first: Option<nat>, freed: Outcome<DeallocError>, again: Option<nat>)
    ensures first == Some(96) && freed == Pass && again == Some(96)
  {
    var b;
    b, first := FirstAlloc();
    b.AddressesMember(0);
    freed := b.TryDealloc(96);
    assert b.free == [3, 2, 1] + [0];
    again := b.TryAlloc();
  }

  /** The first allocation from a new bucket of four 32-word slots at offset 96
      pops slot 0. */
  method FirstAlloc() returns (b: ShadingBucket, first: Option<nat>)
    ensures fresh(b) && b.Valid() && b.globalOffset == 96 && b.slotCount == 4 && b.slotSize == 32
    ensures first == Some(96) && b.free == [3, 2, 1] && b.used == [0]
  {
    b := new ShadingBucket(96, 4, 32);
    CountdownFour();
    first := b.TryAlloc();
    assert [3, 2, 1, 0][..3] == [3, 2, 1];
  }

  /** A new bucket of four slots stacks them as `[3, 2, 1, 0]`. */
  lemma CountdownFour()
    ensures Countdown(0, 4) == [3, 2, 1, 0]
  {
    assert Countdown(2, 4) == [3, 2];
  }

  /** The same bucket refuses a second free of one address, a misaligned
      address and an address past its range, each with its own error. */
  method BucketRefusals() returns (twice: Outcome<DeallocError>, skewed: Outcome<DeallocError>,
                                   outside: Outcome<DeallocError>)
    ensures twice == Fail(NotAllocated) && skewed == Fail(Misaligned) && outside == Fail(OutOfRange)
  {
    var b := new ShadingBucket(96, 4, 32);
    assert b.Addresses() == {};
    twice := b.TryDealloc(96);
    skewed := b.TryDealloc(100);
    outside := b.TryDealloc(224);
  }

  /** Any bucket with a free slot: the address `try_alloc` hands out is released
      again, which restores the free stack (so the same slot is handed out
      next) and the handed-out addresses; a second release is refused as not
      allocated. */
  method BucketAllocFree(b: ShadingBucket) returns (a: Option<nat>, freed: Outcome<DeallocError>,
                                                    twice: Outcome<DeallocError>)
    requires b.Valid() && b.free != []
    modifies b
    ensures b.Valid()
    ensures a == Some(b.AddressOf(old(b.free)[|old(b.free)| - 1]))
    ensures freed == Pass && twice == Fail(NotAllocated)
    ensures b.free == old(b.free) && multiset(b.used) == multiset(old(b.used))
    ensures b.Addresses() == old(b.Addresses())
  {
    ghost var free0, used0 := b.free, b.used;
    ghost var k := b.free[|b.free| - 1];
    b.SlotFacts(k);
    b.SlotAddress(k);
    assert k in free0 && k !in used0;
    a := b.TryAlloc();
    assert a.value in b.Addresses();
    freed := b.TryDealloc(a.value);
    assert free0 == free0[..|free0| - 1] + [k];
    assert multiset(used0 + [k]) - multiset{k} == multiset(used0);
    assert k !in b.used by {
      assert multiset(b.used)[k] == 0;
    }
    twice := b.TryDealloc(a.value);
  }

  /** Freeing slot `k` of bucket `j`, which is in use, twice: the first free
      releases it and the second is refused as not allocated. Both take the
      slot size off `usedElements`. */
  method FreeTwice(t: ShadingTableAllocator, ghost j: nat, ghost k: nat, address: nat)
    returns (freed: Outcome<DeallocError>, twice: Outcome<DeallocError>)
    requires t.Valid() && j < |t.buckets| && k in t.buckets[j].used
    requires address == t.buckets[j].AddressOf(k) && address in t.Allocated() && address < t.totalElements
    requires t.elementsPerBucket > 0 && address / t.elementsPerBucket == t.bucketCount - 1 - j
    modifies t, t.buckets
    ensures t.Valid()
    ensures freed == Pass && twice == Fail(NotAllocated)
    ensures t.Frees() == old(t.Frees())[j := old(t.Frees())[j] + [k]]
    ensures t.Allocated() == old(t.Allocated()) - {address}
    ensures t.usedElements == old(t.usedElements) - 2 * t.buckets[j].slotSize
  {
    t.buckets[j].SlotFacts(k);
    assert t.BucketFor(address) == j;
    ghost var f1, u1, h1, c1 := t.Frees(), t.Useds(), t.Allocated(), t.usedElements;
    freed := t.TryDealloc(address);
    t.ReleasedSlot(j, k, address, freed, f1, u1, h1, c1);
    ghost var f2, u2, h2, c2 := t.Frees(), t.Useds(), t.Allocated(), t.usedElements;
    assert k !in u2[j] by {
      assert multiset(u2[j])[k] == 0;
    }
    twice := t.TryDealloc(address);
    t.RefusedSlot(j, k, address, twice, f2, u2, h2, c2);
  }

  /** Any table with room for `size` words: the address `try_alloc(size)` hands
      out is released again, which restores every free stack, the handed-out
      addresses and so the address every later `try_alloc` returns; a second
      release is refused as not allocated, yet `usedElements` loses the slot
      size twice. */
  method AllocatorAllocFree(t: ShadingTableAllocator, size: nat)
    returns (a: Option<nat>, freed: Outcome<DeallocError>, twice: Outcome<DeallocError>)
    requires t.Valid() && t.FirstFit(size).Some?
    modifies t, t.buckets
    ensures t.Valid()
    ensures a == old(t.NextAddress(size))
    ensures freed == Pass && twice == Fail(NotAllocated)
    ensures t.Frees() == old(t.Frees()) && t.Allocated() == old(t.Allocated())
    ensures forall s :: t.NextAddress(s) == old(t.NextAddress(s))
    ensures t.usedElements == old(t.usedElements) - t.buckets[old(t.FirstFit(size)).value].slotSize
  {
    t.NextByFrees();
    ghost var f0 := t.Frees();
    ghost var j := t.FirstFit(size).value;
    ghost var b := t.buckets[j];
    ghost var k := b.free[|b.free| - 1];
    assert f0[j] == f0[j][..|f0[j]| - 1] + [k];
    assert k in b.free;
    b.SlotFacts(k);
    SlotBucketIndex(b, t.bucketCount - 1 - j, t.elementsPerBucket, k);
    a := t.TryAlloc(size);
    ghost var f1 := t.Frees();
    assert f1 == f0[j := f0[j][..|f0[j]| - 1]];
    assert k in b.used;
    freed, twice := FreeTwice(t, j, k, a.value);
    UpdateUndone(f0, j, f0[j][..|f0[j]| - 1]);
    assert t.Frees() == f1[j := f0[j]];
    t.NextByFrees();
  }

  /** Writing an element back undoes an update. */
  lemma UpdateUndone<T>(s: seq<T>, j: nat, x: T)
    requires j < |s|
    ensures s[j := x][j := s[j]] == s
  {
  }

  /** The table the brickmap manager builds (four buckets of 512 words): a
      request of 300 words is served, its address is released once, and a
      second release of the same address is refused. */
  method AllocatorDoubleFree() returns (a: Option<nat>, freed: Outcome<DeallocError>, twice: Outcome<DeallocError>)
    ensures a.Some? && freed == Pass && twice.Fail?
  {
    var t := new ShadingTableAllocator(4, 512);
    assert t.buckets[3].slotCount == 1 by {
      assert BucketLayout(t.buckets[3], 0, 512);
      Pow2Values();
      assert Pow2(9) == 2 * Pow2(8) == 512;
    }
    t.CapacityFromLargestBucket(300);
    a := t.TryAlloc(300);
    freed := t.TryDealloc(a.value);
    twice := t.TryDealloc(a.value);
  }
}
