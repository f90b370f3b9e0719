/** The helpers of `src/voxel/brickworld/util.rs` (duplicated verbatim as free
    functions at the bottom of `src/voxel/brickmap.rs`): interior-voxel culling
    of one 8x8x8 brick, the brickgrid word helper and the split of a grid
    position into chunk and block coordinates. */
module VoxelUtil {
  import opened Math
  import opened Grid

  type U8 = x: int | 0 <= x < 256

  /** A voxel of the world (`src/voxel/world/mod.rs`). */
  datatype Voxel = Empty | Color(r: U8, g: U8, b: U8)

  /** The six face directions `cull_interior_voxels` looks along: forward and
      backward are +x and -x, right and left +z and -z, up and down +y and -y. */
  datatype Face = Forward | Backward | Right | Left | Up | Down

  /** The 512-voxel bricks the culler fetches: the centre brick and its six
      face neighbours, in the world's row-major order. */
  datatype Neighbourhood = Neighbourhood(
    center: seq<Voxel>,
    forward: seq<Voxel>, backward: seq<Voxel>,
    right: seq<Voxel>, left: seq<Voxel>,
    up: seq<Voxel>, down: seq<Voxel>)

  predicate WellFormed(nb: Neighbourhood) {
    && |nb.center| == 512
    && |nb.forward| == 512 && |nb.backward| == 512
    && |nb.right| == 512 && |nb.left| == 512
    && |nb.up| == 512 && |nb.down| == 512
  }

  /** Row-major index inside a brick, `x + y * 8 + z * 8 * 8`: x fastest, then y, then z. */
  function BrickIndex(x: nat, y: nat, z: nat): nat {
    x + y * 8 + z * 8 * 8
  }

  /** `BrickIndex` is `to_1d_index` for 8x8x8 dimensions, in range and inverted
      by the coordinates `i % 8`, `(i / 8) % 8`, `i / 64`. */
  lemma BrickIndexFacts(x: nat, y: nat, z: nat)
    requires x < 8 && y < 8 && z < 8
    ensures BrickIndex(x, y, z) == To1dIndex(UVec3(x, y, z), UVec3(8, 8, 8))
    ensures BrickIndex(x, y, z) < 512
    ensures var i := BrickIndex(x, y, z); i % 8 == x && (i / 8) % 8 == y && i / 64 == z
  {
    var i := BrickIndex(x, y, z);
    DivModUnique(i, 8, y + 8 * z, x);
    DivModUnique(i / 8, 8, z, y);
    DivModUnique(i, 64, z, x + 8 * y);
  }

  /** Brick index `i` is the index of its coordinates `i % 8`, `(i / 8) % 8`, `i / 64`. */
  lemma CoordsOfIndex(i: nat)
    requires i < 512
    ensures i % 8 < 8 && (i / 8) % 8 < 8 && i / 64 < 8
    ensures BrickIndex(i % 8, (i / 8) % 8, i / 64) == i
  {
    var q := i / 8;
    assert i == 8 * q + i % 8;
    assert q == 8 * (q / 8) + q % 8;
    DivModUnique(i, 64, q / 8, i % 8 + 8 * (q % 8));
  }

  /** The voxel across face `f` of voxel `(x, y, z)` of the centre brick: inside
      the centre brick, or across the boundary in the adjacent brick at the
      opposite edge. */
  function Neighbour(nb: Neighbourhood, x: nat, y: nat, z: nat, f: Face): Voxel
    requires WellFormed(nb) && x < 8 && y < 8 && z < 8
  {
    match f
    case Forward => if x == 7 then nb.forward[BrickIndex(0, y, z)] else nb.center[BrickIndex(x + 1, y, z)]
    case Backward => if x == 0 then nb.backward[BrickIndex(7, y, z)] else nb.center[BrickIndex(x - 1, y, z)]
    case Right => if z == 7 then nb.right[BrickIndex(x, y, 0)] else nb.center[BrickIndex(x, y, z + 1)]
    case Left => if z == 0 then nb.left[BrickIndex(x, y, 7)] else nb.center[BrickIndex(x, y, z - 1)]
    case Up => if y == 7 then nb.up[BrickIndex(x, 0, z)] else nb.center[BrickIndex(x, y + 1, z)]
    case Down => if y == 0 then nb.down[BrickIndex(x, 7, z)] else nb.center[BrickIndex(x, y - 1, z)]
  }

  /** A voxel is on the surface when it is solid and one of its six face neighbours is empty. */
  predicate IsSurface(nb: Neighbourhood, x: nat, y: nat, z: nat)
    requires WellFormed(nb) && x < 8 && y < 8 && z < 8
  {
    && nb.center[BrickIndex(x, y, z)].Color?
    && (|| Neighbour(nb, x, y, z, Forward).Empty? || Neighbour(nb, x, y, z, Backward).Empty?
        || Neighbour(nb, x, y, z, Right).Empty? || Neighbour(nb, x, y, z, Left).Empty?
        || Neighbour(nb, x, y, z, Up).Empty? || Neighbour(nb, x, y, z, Down).Empty?)
  }

  /** `IsSurface` of the voxel with brick index `i`. */
  predicate SurfaceAt(nb: Neighbourhood, i: nat)
    requires WellFormed(nb) && i < 512
  {
    IsSurface(nb, i % 8, (i / 8) % 8, i / 64)
  }

  /** The 512 surface flags, by brick index. */
  function SurfaceBits(nb: Neighbourhood): (bits: seq<bool>)
    requires WellFormed(nb)
    ensures |bits| == 512
  {
    seq(512, i requires 0 <= i < 512 => SurfaceAt(nb, i))
  }

  /** A colour as the shading table stores it: `(r << 24) + (g << 16) + (b << 8) + 255`. */
  function PackColor(r: U8, g: U8, b: U8): U32 {
    r * 0x100_0000 + g * 0x1_0000 + b * 0x100 + 255
  }

  /** The packed colour's bytes are red, green, blue and 255 from the top down,
      so packing loses nothing. */
  lemma UnpackColor(r: U8, g: U8, b: U8)
    ensures PackColor(r, g, b) / 0x100_0000 == r
    ensures (PackColor(r, g, b) / 0x1_0000) % 256 == g
    ensures (PackColor(r, g, b) / 0x100) % 256 == b
    ensures PackColor(r, g, b) % 256 == 255
  {
    var c := PackColor(r, g, b);
    DivModUnique(c, 0x100_0000, r, g * 0x1_0000 + b * 0x100 + 255);
    DivModUnique(c, 0x1_0000, r * 256 + g, b * 0x100 + 255);
    DivModUnique(c / 0x1_0000, 256, r, g);
    DivModUnique(c, 0x100, r * 0x1_0000 + g * 256 + b, 255);
    DivModUnique(c / 0x100, 256, r * 256 + g, b);
  }

  /** Colour of the centre voxel `i`; 0 for an empty voxel, which is never pushed. */
  function ColorOf(v: Voxel): U32 {
    if v.Color? then PackColor(v.r, v.g, v.b) else 0
  }

  /** The packed colour of every centre voxel, by brick index. */
  function CenterColors(nb: Neighbourhood): (cols: seq<U32>)
    requires WellFormed(nb)
    ensures |cols| == 512
  {
    seq(512, i requires 0 <= i < 512 => ColorOf(nb.center[i]))
  }

  /** The colours `cols[i]` of the flagged indices `i < n`, in index order. */
  function Collect(flags: seq<bool>, cols: seq<U32>, n: nat): seq<U32>
    requires n <= |flags| && n <= |cols|
  {
    if n == 0 then []
    else Collect(flags, cols, n - 1) + (if flags[n - 1] then [cols[n - 1]] else [])
  }

  /** The colour list `cull_interior_voxels` returns: the packed colour of every
      surface voxel, in index order. */
  function SurfaceColors(nb: Neighbourhood): seq<U32>
    requires WellFormed(nb)
  {
    Collect(SurfaceBits(nb), CenterColors(nb), 512)
  }

  /** The number of set flags. */
  function Count(bits: seq<bool>): (n: nat)
    ensures n <= |bits|
  {
    if bits == [] then 0 else Count(bits[..|bits| - 1]) + (if bits[|bits| - 1] then 1 else 0)
  }

  /** One collected colour per set flag, and each is the colour of a flagged index. */
  lemma {:induction false} CollectFacts(flags: seq<bool>, cols: seq<U32>, n: nat)
    requires n <= |flags| && n <= |cols|
    ensures |Collect(flags, cols, n)| == Count(flags[..n]) <= n
    ensures forall c :: c in Collect(flags, cols, n) ==> exists i :: 0 <= i < n && flags[i] && cols[i] == c
  {
    if n > 0 {
      CollectFacts(flags, cols, n - 1);
      assert flags[..n][..n - 1] == flags[..n - 1];
    }
  }

  /** The colour count is the popcount of the mask, hence at most 512, and every
      pushed colour is a solid voxel's colour, whose low byte is 255. */
  lemma SurfaceColorsFacts(nb: Neighbourhood)
    requires WellFormed(nb)
    ensures |SurfaceColors(nb)| == Count(SurfaceBits(nb)) <= 512
    ensures forall c :: c in SurfaceColors(nb) ==> c % 256 == 255
  {
    var flags, cols := SurfaceBits(nb), CenterColors(nb);
    CollectFacts(flags, cols, 512);
    assert flags[..512] == flags;
    forall c | c in SurfaceColors(nb)
      ensures c % 256 == 255
    {
      var i :| 0 <= i < 512 && flags[i] && cols[i] == c;
      CoordsOfIndex(i);
      var v := nb.center[i];
      assert v.Color?;
      UnpackColor(v.r, v.g, v.b);
    }
  }

  /** Little-endian bit packing: flag `k` has weight `2^k`. */
  function Pack(bits: seq<bool>): (n: nat)
    ensures n < Pow2(|bits|)
  {
    if bits == [] then 0
    else Pack(bits[..|bits| - 1]) + (if bits[|bits| - 1] then Pow2(|bits| - 1) else 0)
  }

  /** Packing a concatenation puts the second part above the first. */
  lemma {:induction false} PackSplit(a: seq<bool>, b: seq<bool>)
    ensures Pack(a + b) == Pack(a) + Pow2(|a|) * Pack(b)
    decreases |b|
  {
    if b == [] {
      assert a + b == a;
    } else {
      var b' := b[..|b| - 1];
      var bit := if b[|b| - 1] then 1 else 0;
      assert (a + b)[..|a + b| - 1] == a + b';
      PackSplit(a, b');
      Pow2Add(|a|, |b'|);
      calc {
        Pack(a + b);
        Pack(a + b') + bit * Pow2(|a| + |b'|);
        Pack(a) + Pow2(|a|) * Pack(b') + bit * (Pow2(|a|) * Pow2(|b'|));
        { assert bit * (Pow2(|a|) * Pow2(|b'|)) == Pow2(|a|) * (bit * Pow2(|b'|)); }
        Pack(a) + Pow2(|a|) * (Pack(b') + bit * Pow2(|b'|));
        Pack(a) + Pow2(|a|) * Pack(b);
      }
    }
  }

  /** Bit `j` of `Pack(bits)` is flag `j`. */
  lemma {:induction false} PackBit(bits: seq<bool>, j: nat)
    requires j < |bits|
    ensures (Pack(bits) / Pow2(j)) % 2 == if bits[j] then 1 else 0
  {
    var lo, hi := bits[..j], bits[j..];
    assert bits == lo + hi;
    var rest := hi[1..];
    assert hi == [hi[0]] + rest;
    assert [hi[0]][..0] == [];
    PackSplit(lo, hi);
    PackSplit([hi[0]], rest);
    assert |lo| == j && Pow2(1) == 2;
    DigitOf(Pack(bits), Pack(lo), Pow2(j), Pack(hi), Pack([hi[0]]), Pack(rest));
  }

  /** The arithmetic of `PackBit`: with `p == q * d + low`, `low < d` and
      `q == b + 2 * rest`, the digit of `p` at weight `d` is `b`. */
  lemma DigitOf(p: int, low: int, d: int, q: int, b: int, rest: int)
    requires p == low + d * q && 0 <= low < d
    requires q == b + 2 * rest && 0 <= b < 2
    ensures (p / d) % 2 == b
  {
    DivModUnique(p, d, q, low);
    DivModUnique(q, 2, rest, b);
  }

  /** No flag set packs to zero. */
  lemma {:induction false} PackNone(bits: seq<bool>)
    requires forall k :: 0 <= k < |bits| ==> !bits[k]
    ensures Pack(bits) == 0
  {
    if bits != [] {
      PackNone(bits[..|bits| - 1]);
    }
  }

  /** The 16 mask words: word `w` packs flags `32w .. 32w+31`, so word `2z` holds
      rows y = 0..3 and word `2z+1` rows y = 4..7 of layer z. */
  function MaskWords(bits: seq<bool>): (words: seq<U32>)
    requires |bits| == 512
    ensures |words| == 16
  {
    seq(16, w requires 0 <= w < 16 => MaskWord(bits, w))
  }

  /** One mask word. */
  function MaskWord(bits: seq<bool>, w: nat): U32
    requires |bits| == 512 && w < 16
  {
    PackWord(bits[32 * w..32 * w + 32]);
    Pack(bits[32 * w..32 * w + 32])
  }

  /** 32 flags pack into a 32-bit word. */
  lemma PackWord(bits: seq<bool>)
    requires |bits| == 32
    ensures Pack(bits) < 0x1_0000_0000
  {
    Pow2Values();
  }

  /** Mask bit `i % 32` of word `i / 32` is surface flag `i`. */
  lemma MaskBit(bits: seq<bool>, i: nat)
    requires |bits| == 512 && i < 512
    ensures (MaskWords(bits)[i / 32] / Pow2(i % 32)) % 2 == if bits[i] then 1 else 0
  {
    var w := i / 32;
    PackBit(bits[32 * w..32 * w + 32], i % 32);
  }

  /** The source's neighbour test, written with its flat offsets: `idx ± 1`,
      `± 8`, `± 64` inside the brick, and `idx - 7`, `idx + 7`, `idx - 448`,
      `idx + 448`, `idx - 56`, `idx + 56` into the adjacent brick on a face. */
  predicate OffsetTest(nb: Neighbourhood, x: nat, y: nat, z: nat, idx: int)
    requires WellFormed(nb) && x < 8 && y < 8 && z < 8 && idx == BrickIndex(x, y, z)
  {
    || (if x == 7 then nb.forward[idx - 7].Empty? else nb.center[idx + 1].Empty?)
    || (if x == 0 then nb.backward[idx + 7].Empty? else nb.center[idx - 1].Empty?)
    || (if z == 7 then nb.right[idx - 448].Empty? else nb.center[idx + 64].Empty?)
    || (if z == 0 then nb.left[idx + 448].Empty? else nb.center[idx - 64].Empty?)
    || (if y == 7 then nb.up[idx - 56].Empty? else nb.center[idx + 8].Empty?)
    || (if y == 0 then nb.down[idx + 56].Empty? else nb.center[idx - 8].Empty?)
  }

  /** The offset test decides exactly the geometric surface predicate. */
  lemma SurfaceByOffsets(nb: Neighbourhood, x: nat, y: nat, z: nat)
    requires WellFormed(nb) && x < 8 && y < 8 && z < 8
    ensures BrickIndex(x, y, z) < 512
    ensures IsSurface(nb, x, y, z) <==> nb.center[BrickIndex(x, y, z)].Color? && OffsetTest(nb, x, y, z, BrickIndex(x, y, z))
  {
    FaceOffsets(nb, x, y, z);
  }

  /** Each face neighbour at the source's flat offset. */
  lemma FaceOffsets(nb: Neighbourhood, x: nat, y: nat, z: nat)
    requires WellFormed(nb) && x < 8 && y < 8 && z < 8
    ensures var idx := BrickIndex(x, y, z);
      && idx < 512
      && Neighbour(nb, x, y, z, Forward).Empty? == (if x == 7 then nb.forward[idx - 7].Empty? else nb.center[idx + 1].Empty?)
      && Neighbour(nb, x, y, z, Backward).Empty? == (if x == 0 then nb.backward[idx + 7].Empty? else nb.center[idx - 1].Empty?)
      && Neighbour(nb, x, y, z, Right).Empty? == (if z == 7 then nb.right[idx - 448].Empty? else nb.center[idx + 64].Empty?)
      && Neighbour(nb, x, y, z, Left).Empty? == (if z == 0 then nb.left[idx + 448].Empty? else nb.center[idx - 64].Empty?)
      && Neighbour(nb, x, y, z, Up).Empty? == (if y == 7 then nb.up[idx - 56].Empty? else nb.center[idx + 8].Empty?)
      && Neighbour(nb, x, y, z, Down).Empty? == (if y == 0 then nb.down[idx + 56].Empty? else nb.center[idx - 8].Empty?)
  {
  }

  /** Appending flag `bits[start + n]` to a packed run adds weight `2^n`. */
  lemma PackExtend(bits: seq<bool>, start: nat, n: nat)
    requires start + n < |bits|
    ensures Pack(bits[start..start + n + 1])
         == Pack(bits[start..start + n]) + if bits[start + n] then Pow2(n) else 0
  {
    var s := bits[start..start + n + 1];
    assert |s| == n + 1 && s[n] == bits[start + n];
    assert s[..n] == bits[start..start + n];
    assert Pack(s) == Pack(s[..n]) + if s[n] then Pow2(n) else 0;
  }

  /** The flags `start .. n - 1` packed by index: flag `start + k` has weight `2^k`. */
  function PackRun(flags: seq<bool>, start: nat, n: nat): nat
    requires start <= n <= |flags|
    decreases n - start
  {
    if n == start then 0
    else PackRun(flags, start, n - 1) + (if flags[n - 1] then Pow2(n - 1 - start) else 0)
  }

  /** `PackRun` is `Pack` of the slice. */
  lemma {:induction false} PackRunSlice(flags: seq<bool>, start: nat, n: nat)
    requires start <= n <= |flags|
    ensures PackRun(flags, start, n) == Pack(flags[start..n])
    decreases n - start
  {
    if n > start {
      PackRunSlice(flags, start, n - 1);
      PackExtend(flags, start, n - 1 - start);
    }
  }

  /** The two 32-bit halves of a 64-bit value below `2^64`. */
  lemma SplitWords(p: int, lo: int, hi: int)
    requires p == lo + 0x1_0000_0000 * hi && 0 <= lo < 0x1_0000_0000 && 0 <= hi < 0x1_0000_0000
    ensures p % 0x1_0000_0000 == lo && (p / 0x1_0000_0000) % 0x1_0000_0000 == hi
  {
    DivModUnique(p, 0x1_0000_0000, hi, lo);
    DivModUnique(hi, 0x1_0000_0000, 0, hi);
  }

  /** The 64 flags of layer `z` pack to a value whose low and high 32-bit halves
      (`entry & 0xFFFFFFFF` and `(entry >> 32) & 0xFFFFFFFF`) are mask words
      `2z` and `2z + 1`. */
  lemma LayerWords(bits: seq<bool>, z: nat)
    requires |bits| == 512 && z < 8
    ensures Pack(bits[64 * z..64 * z + 64]) % 0x1_0000_0000 == MaskWord(bits, 2 * z)
    ensures (Pack(bits[64 * z..64 * z + 64]) / 0x1_0000_0000) % 0x1_0000_0000 == MaskWord(bits, 2 * z + 1)
  {
    var lo, hi := bits[64 * z..64 * z + 32], bits[64 * z + 32..64 * z + 64];
    assert bits[64 * z..64 * z + 64] == lo + hi;
    assert lo == bits[32 * (2 * z)..32 * (2 * z) + 32];
    assert hi == bits[32 * (2 * z + 1)..32 * (2 * z + 1) + 32];
    PackSplit(lo, hi);
    Pow2Values();
    SplitWords(Pack(lo + hi), Pack(lo), Pack(hi));
  }

  /** The two halves of a packed layer are the layer's two mask words. */
  lemma LayerWordsOf(bits: seq<bool>, words: seq<U32>, z: nat, entry: nat)
    requires |bits| == 512 && z < 8 && words == MaskWords(bits)
    requires entry == Pack(bits[64 * z..64 * z + 64])
    ensures entry % 0x1_0000_0000 == words[2 * z]
    ensures (entry / 0x1_0000_0000) % 0x1_0000_0000 == words[2 * z + 1]
  {
    LayerWords(bits, z);
  }

  /** `flags` are the surface flags of `nb`, stated by coordinates: the flag at
      `BrickIndex(x, y, z)` is `IsSurface(nb, x, y, z)`. */
  predicate SurfaceFlags(nb: Neighbourhood, flags: seq<bool>)
    requires WellFormed(nb)
  {
    && |flags| == 512
    && forall x: nat, y: nat, z: nat {:trigger IsSurface(nb, x, y, z)} :: x < 8 && y < 8 && z < 8 ==>
         BrickIndex(x, y, z) < 512 && (flags[BrickIndex(x, y, z)] <==> IsSurface(nb, x, y, z))
  }

  /** `SurfaceBits` are the surface flags by coordinates. */
  lemma SurfaceBitsByCoords(nb: Neighbourhood)
    requires WellFormed(nb)
    ensures SurfaceFlags(nb, SurfaceBits(nb))
  {
    forall x: nat, y: nat, z: nat | x < 8 && y < 8 && z < 8
      ensures BrickIndex(x, y, z) < 512 && (SurfaceBits(nb)[BrickIndex(x, y, z)] <==> IsSurface(nb, x, y, z))
    {
      BrickIndexFacts(x, y, z);
    }
  }

  /** `cull_interior_voxels` over the seven fetched bricks: the mask words start
      as `0xFFFFFFFF`, each layer `z` accumulates its 64 surface bits in a 64-bit
      entry and then overwrites words `2z` and `2z + 1`, and every surface voxel
      pushes its packed colour, in index order. */
  method CullInteriorVoxels(nb: Neighbourhood) returns (bitmask: seq<U32>, albedo: seq<U32>)
    requires WellFormed(nb)
    ensures bitmask == MaskWords(SurfaceBits(nb))
    ensures albedo == SurfaceColors(nb)
  {
    ghost var flags, cols := SurfaceBits(nb), CenterColors(nb);
    ghost var words := MaskWords(flags);
    SurfaceBitsByCoords(nb);
    var data := new U32[16](_ => 0xFFFF_FFFF);
    albedo := [];
    var z: nat := 0;
    while z < 8
      invariant z <= 8
      invariant albedo == Collect(flags, cols, 64 * z)
      invariant forall w :: 0 <= w < 2 * z ==> data[w] == words[w]
    {
      var entry;
      entry, albedo := CullLayer(nb, z, albedo, flags, cols);
      StoreLayer(data, z, entry, flags, words);
      z := z + 1;
    }
    bitmask := data[..];
  }

  /** Writes the low and high 32-bit halves of layer `z`'s entry to mask words
      `2z` and `2z + 1`, leaving the words below them as they were. */
  method StoreLayer(data: array<U32>, z: nat, entry: nat, ghost flags: seq<bool>, ghost words: seq<U32>)
    requires data.Length == 16 && z < 8 && |flags| == 512 && words == MaskWords(flags)
    requires entry == Pack(flags[64 * z..64 * z + 64])
    requires forall w :: 0 <= w < 2 * z ==> data[w] == words[w]
    modifies data
    ensures forall w :: 0 <= w < 2 * z + 2 ==> data[w] == words[w]
  {
    LayerWordsOf(flags, words, z, entry);
    var offset := 2 * z;
    ghost var before: seq<U32> := data[..];
    data[offset] := entry % 0x1_0000_0000;
    data[offset + 1] := (entry / 0x1_0000_0000) % 0x1_0000_0000;
    assert data[..] == before[offset := words[offset]][offset + 1 := words[offset + 1]];
  }

  /** The y and x loops of one layer `z`: the 64-bit entry collects the layer's
      surface bits, bit `x + 8y` for voxel `(x, y, z)`, and the colours of its
      surface voxels are appended in index order. */
  method CullLayer(nb: Neighbourhood, z: nat, albedo: seq<U32>, ghost flags: seq<bool>, ghost cols: seq<U32>)
    returns (entry: nat, colors: seq<U32>)
    requires WellFormed(nb) && z < 8 && SurfaceFlags(nb, flags) && cols == CenterColors(nb)
    requires albedo == Collect(flags, cols, 64 * z)
    ensures entry == Pack(flags[64 * z..64 * z + 64])
    ensures colors == Collect(flags, cols, 64 * z + 64)
  {
    entry, colors := 0, albedo;
    var y: nat := 0;
    while y < 8
      invariant y <= 8
      invariant entry == PackRun(flags, 64 * z, 64 * z + 8 * y)
      invariant colors == Collect(flags, cols, 64 * z + 8 * y)
    {
      entry, colors := CullRow(nb, y, z, entry, colors, flags, cols);
      y := y + 1;
    }
    PackRunSlice(flags, 64 * z, 64 * z + 64);
  }

  /** One row of a layer: visits the voxels `x = 0 .. 7` at height `y` in layer `z`. */
  method CullRow(nb: Neighbourhood, y: nat, z: nat, entry0: nat, colors0: seq<U32>,
                 ghost flags: seq<bool>, ghost cols: seq<U32>)
    returns (entry: nat, colors: seq<U32>)
    requires WellFormed(nb) && y < 8 && z < 8 && SurfaceFlags(nb, flags) && cols == CenterColors(nb)
    requires entry0 == PackRun(flags, 64 * z, 64 * z + 8 * y)
    requires colors0 == Collect(flags, cols, 64 * z + 8 * y)
    ensures entry == PackRun(flags, 64 * z, 64 * z + 8 * y + 8)
    ensures colors == Collect(flags, cols, 64 * z + 8 * y + 8)
  {
    entry, colors := entry0, colors0;
    var x: nat := 0;
    while x < 8
      invariant x <= 8
      invariant entry == PackRun(flags, 64 * z, 64 * z + 8 * y + x)
      invariant colors == Collect(flags, cols, 64 * z + 8 * y + x)
    {
      VoxelStep(nb, flags, cols, x, y, z);
      var surfaceVoxel, albedoWord := VisitVoxel(nb, x, y, z);
      if surfaceVoxel {
        entry := entry + Pow2(x + y * 8);
        colors := colors + [albedoWord];
      }
      x := x + 1;
    }
  }

  /** Visiting voxel `(x, y, z)` extends the packed run by its weight and the
      colour list by its colour exactly when it is a surface voxel. */
  lemma VoxelStep(nb: Neighbourhood, flags: seq<bool>, cols: seq<U32>, x: nat, y: nat, z: nat)
    requires WellFormed(nb) && x < 8 && y < 8 && z < 8 && SurfaceFlags(nb, flags) && cols == CenterColors(nb)
    ensures var n := 64 * z + 8 * y + x;
      && n == BrickIndex(x, y, z) && n < 512
      && PackRun(flags, 64 * z, n + 1)
         == PackRun(flags, 64 * z, n) + (if IsSurface(nb, x, y, z) then Pow2(x + y * 8) else 0)
      && Collect(flags, cols, n + 1)
         == Collect(flags, cols, n) + (if IsSurface(nb, x, y, z) then [ColorOf(nb.center[n])] else [])
  {
    var n := 64 * z + 8 * y + x;
    assert n == BrickIndex(x, y, z);
    assert flags[n] <==> IsSurface(nb, x, y, z);
    assert n - 64 * z == x + y * 8;
  }

  /** The body of the culler's x loop for voxel `(x, y, z)`: an empty voxel is
      skipped; a solid one is a surface voxel when one of its six face
      neighbours, read at the source's flat offsets (`OffsetTest`), is empty,
      and then its colour is packed. */
  method VisitVoxel(nb: Neighbourhood, x: nat, y: nat, z: nat) returns (surfaceVoxel: bool, albedo: U32)
    requires WellFormed(nb) && x < 8 && y < 8 && z < 8
    ensures BrickIndex(x, y, z) < 512
    ensures surfaceVoxel == IsSurface(nb, x, y, z)
    ensures surfaceVoxel ==> albedo == ColorOf(nb.center[BrickIndex(x, y, z)])
  {
    var idx := BrickIndex(x, y, z);
    surfaceVoxel, albedo := false, 0;
    match nb.center[idx] {
      case Empty =>
      case Color(r, g, b) =>
        surfaceVoxel := OffsetTest(nb, x, y, z, idx);
        if surfaceVoxel {
          albedo := r * 0x100_0000 + g * 0x1_0000 + b * 0x100 + 255;
        }
    }
    assert surfaceVoxel == IsSurface(nb, x, y, z) by {
      SurfaceByOffsets(nb, x, y, z);
    }
  }

  /** Every voxel of the brick is solid. */
  predicate AllSolid(brick: seq<Voxel>) {
    forall i :: 0 <= i < |brick| ==> brick[i].Color?
  }

  /** Inside a fully solid neighbourhood no voxel has an empty face neighbour. */
  lemma SolidVoxelHidden(nb: Neighbourhood, x: nat, y: nat, z: nat)
    requires WellFormed(nb) && x < 8 && y < 8 && z < 8
    requires AllSolid(nb.center) && AllSolid(nb.forward) && AllSolid(nb.backward)
    requires AllSolid(nb.right) && AllSolid(nb.left) && AllSolid(nb.up) && AllSolid(nb.down)
    ensures !IsSurface(nb, x, y, z)
  {
    FaceOffsets(nb, x, y, z);
  }

  /** A fully solid centre brick with fully solid neighbours has no surface
      voxel: every mask word is 0 and no colour is pushed. */
  lemma SolidBrick(nb: Neighbourhood)
    requires WellFormed(nb)
    requires AllSolid(nb.center) && AllSolid(nb.forward) && AllSolid(nb.backward)
    requires AllSolid(nb.right) && AllSolid(nb.left) && AllSolid(nb.up) && AllSolid(nb.down)
    ensures forall i :: 0 <= i < 512 ==> !SurfaceBits(nb)[i]
    ensures forall w :: 0 <= w < 16 ==> MaskWords(SurfaceBits(nb))[w] == 0
    ensures SurfaceColors(nb) == []
  {
    var bits := SurfaceBits(nb);
    forall i | 0 <= i < 512
      ensures !bits[i]
    {
      CoordsOfIndex(i);
      SolidVoxelHidden(nb, i % 8, (i / 8) % 8, i / 64);
    }
    forall w | 0 <= w < 16
      ensures MaskWords(bits)[w] == 0
    {
      PackNone(bits[32 * w..32 * w + 32]);
    }
    CollectNone(bits, CenterColors(nb), 512);
  }

  /** Nothing is collected while no flag is set. */
  lemma {:induction false} CollectNone(flags: seq<bool>, cols: seq<U32>, n: nat)
    requires n <= |flags| && n <= |cols|
    requires forall i :: 0 <= i < n ==> !flags[i]
    ensures Collect(flags, cols, n) == []
  {
    if n > 0 {
      CollectNone(flags, cols, n - 1);
    }
  }

  /** With exactly one flag set, at `i0`, the one colour `cols[i0]` is collected
      once the run has passed it. */
  lemma {:induction false} CollectSingle(flags: seq<bool>, cols: seq<U32>, i0: nat, n: nat)
    requires n <= |flags| && n <= |cols|
    requires forall i :: 0 <= i < n ==> (flags[i] <==> i == i0)
    ensures Collect(flags, cols, n) == if i0 < n then [cols[i0]] else []
  {
    if n > 0 {
      CollectSingle(flags, cols, i0, n - 1);
    }
  }

  /** One solid voxel in an otherwise empty centre brick is always on the surface
      (one of its x neighbours lies inside the brick and is empty), whatever the
      adjacent bricks hold: the mask has exactly its bit and the colour list is
      its colour alone. */
  lemma IsolatedVoxel(nb: Neighbourhood, i0: nat)
    requires WellFormed(nb) && i0 < 512
    requires forall i :: 0 <= i < 512 ==> (nb.center[i].Color? <==> i == i0)
    ensures forall i :: 0 <= i < 512 ==> (SurfaceBits(nb)[i] <==> i == i0)
    ensures SurfaceColors(nb) == [ColorOf(nb.center[i0])]
  {
    var bits := SurfaceBits(nb);
    IsolatedOnSurface(nb, i0);
    assert bits[i0];
    forall i | 0 <= i < 512 && i != i0
      ensures !bits[i]
    {
      CoordsOfIndex(i);
    }
    CollectSingle(bits, CenterColors(nb), i0, 512);
  }

  /** The solid voxel of `IsolatedVoxel` has an empty x neighbour inside the brick. */
  lemma IsolatedOnSurface(nb: Neighbourhood, i0: nat)
    requires WellFormed(nb) && i0 < 512
    requires forall i :: 0 <= i < 512 ==> (nb.center[i].Color? <==> i == i0)
    ensures SurfaceAt(nb, i0)
  {
    CoordsOfIndex(i0);
    var x, y, z := i0 % 8, (i0 / 8) % 8, i0 / 64;
    if x == 7 {
      assert BrickIndex(x - 1, y, z) == i0 - 1;
      assert !nb.center[i0 - 1].Color?;
      assert Neighbour(nb, x, y, z, Backward).Empty?;
    } else {
      assert BrickIndex(x + 1, y, z) == i0 + 1;
      assert !nb.center[i0 + 1].Color?;
      assert Neighbour(nb, x, y, z, Forward).Empty?;
    }
  }

  /** `to_brickgrid_element`: `(idx << 8) + flag` on u32, where the shift drops
      the top 8 bits of the index. */
  function ToBrickgridElement(brickmapCacheIdx: U32, flag: BrickgridFlag): (r: U32)
    ensures r == ElementNew(brickmapCacheIdx, flag)
    ensures GetPointer(r) == brickmapCacheIdx % 0x100_0000 && GetFlag(r) == flag
  {
    ShiftU32(brickmapCacheIdx);
    ElementRoundTrip(brickmapCacheIdx, flag);
    (brickmapCacheIdx * 256) % 0x1_0000_0000 + FlagValue(flag)
  }

  /** `idx << 8` on a u32 keeps the low 24 bits of `idx`. */
  lemma ShiftU32(idx: U32)
    ensures (idx * 256) % 0x1_0000_0000 == (idx % 0x100_0000) * 256
  {
    ShiftKeepsLow24Bits(idx);
    assert idx % 0x1_0000_0000 == idx;
  }

  /** A signed 3-component vector (glam's `IVec3`). */
  datatype IVec3 = IVec3(x: int, y: int, z: int)

  /** `grid_pos_to_world_pos`: the chunk is the floor of the grid position
      divided by the chunk dimensions, per axis, and the block is what remains. */
  function GridPosToWorldPos(chunkDims: UVec3, gridPos: IVec3): (r: (IVec3, UVec3))
    requires chunkDims.x > 0 && chunkDims.y > 0 && chunkDims.z > 0
    ensures gridPos.x == r.0.x * chunkDims.x + r.1.x && r.1.x < chunkDims.x
    ensures gridPos.y == r.0.y * chunkDims.y + r.1.y && r.1.y < chunkDims.y
    ensures gridPos.z == r.0.z * chunkDims.z + r.1.z && r.1.z < chunkDims.z
  {
    var chunkPos := IVec3(gridPos.x / chunkDims.x, gridPos.y / chunkDims.y, gridPos.z / chunkDims.z);
    var blockPos := UVec3(gridPos.x - chunkPos.x * chunkDims.x,
                          gridPos.y - chunkPos.y * chunkDims.y,
                          gridPos.z - chunkPos.z * chunkDims.z);
    (chunkPos, blockPos)
  }

  /** The split is the only one with a block inside the chunk: any chunk and
      block that recompose the position with the block in `[0, dims)` are the
      ones `GridPosToWorldPos` returns. */
  lemma GridPosUnique(chunkDims: UVec3, gridPos: IVec3, chunk: IVec3, block: UVec3)
    requires chunkDims.x > 0 && chunkDims.y > 0 && chunkDims.z > 0
    requires block.x < chunkDims.x && block.y < chunkDims.y && block.z < chunkDims.z
    requires gridPos.x == chunk.x * chunkDims.x + block.x
    requires gridPos.y == chunk.y * chunkDims.y + block.y
    requires gridPos.z == chunk.z * chunkDims.z + block.z
    ensures GridPosToWorldPos(chunkDims, gridPos) == (chunk, block)
  {
    DivModUnique(gridPos.x, chunkDims.x, chunk.x, block.x);
    DivModUnique(gridPos.y, chunkDims.y, chunk.y, block.y);
    DivModUnique(gridPos.z, chunkDims.z, chunk.z, block.z);
  }

  /** A negative position is floored: x = -1 lies in chunk -1 at the last block. */
  lemma GridPosNegative(chunkDims: UVec3)
    requires chunkDims.x > 0 && chunkDims.y > 0 && chunkDims.z > 0
    ensures GridPosToWorldPos(chunkDims, IVec3(-1, 0, 0)) == (IVec3(-1, 0, 0), UVec3(chunkDims.x - 1, 0, 0))
  {
    GridPosUnique(chunkDims, IVec3(-1, 0, 0), IVec3(-1, 0, 0), UVec3(chunkDims.x - 1, 0, 0));
  }
}
