/** Integer helpers: the row-major index of `src/math.rs` and the powers of two
    and Euclidean division facts the rest of the model leans on. */
module Math {

  /** An unsigned 3-component vector (glam's `UVec3`). */
  datatype UVec3 = UVec3(x: nat, y: nat, z: nat)

  function Min(a: nat, b: nat): nat {
    if a <= b then a else b
  }

  /** Number of cells of a box with dimensions `dim`. */
  function Volume(dim: UVec3): nat {
    dim.x * dim.y * dim.z
  }

  predicate InBounds(p: UVec3, dim: UVec3) {
    p.x < dim.x && p.y < dim.y && p.z < dim.z
  }

  /** Maps a 3D position to its row-major flat index: x varies fastest, then y, then z. */
  function To1dIndex(p: UVec3, dim: UVec3): nat {
    p.x + p.y * dim.x + p.z * dim.x * dim.y
  }

  /** The position whose row-major index is `i`; the inverse of `To1dIndex`. */
  function From1dIndex(i: nat, dim: UVec3): UVec3
    requires dim.x > 0 && dim.y > 0
  {
    UVec3(i % dim.x, (i / dim.x) % dim.y, (i / dim.x) / dim.y)
  }

  /** Quotient and remainder are determined by `a == q * d + r` with `0 <= r < d`. */
  lemma DivModUnique(a: int, d: int, q: int, r: int)
    requires d > 0 && 0 <= r < d && a == q * d + r
    ensures a / d == q && a % d == r
  {
    var q', r' := a / d, a % d;
    assert a == q' * d + r';
    if q' > q {
      MulAtLeast(q' - q, d);
    } else if q' < q {
      MulAtLeast(q - q', d);
    }
  }

  /** Stepping a ring position: `(a % n + 1) % n == (a + 1) % n`. */
  lemma ModStep(a: nat, n: nat, b: nat, c: nat)
    requires n > 0 && b == a % n && c == (b + 1) % n
    ensures c == (a + 1) % n
  {
    if a % n + 1 < n {
      DivModUnique(a + 1, n, a / n, a % n + 1);
      DivModUnique(a % n + 1, n, 0, a % n + 1);
    } else {
      DivModUnique(a + 1, n, a / n + 1, 0);
      DivModUnique(a % n + 1, n, 1, 0);
    }
  }

  lemma MulAtLeast(k: int, d: int)
    requires k >= 1 && d > 0
    ensures k * d >= d
  {
    assert k * d == (k - 1) * d + d;
    if k > 1 {
      MulAtLeast(k - 1, d);
    }
  }

  lemma MulMonotone(a: nat, b: nat, c: nat)
    requires a <= b
    ensures a * c <= b * c
  {
    assert b * c == a * c + (b - a) * c;
  }

  /** A position inside the box maps to a flat index inside `0..Volume(dim)`. */
  lemma IndexInRange(p: UVec3, dim: UVec3)
    requires InBounds(p, dim)
    ensures To1dIndex(p, dim) < Volume(dim)
  {
    MulMonotone(p.y, dim.y - 1, dim.x);
    MulMonotone(p.z, dim.z - 1, dim.x * dim.y);
    assert p.z * dim.x * dim.y == p.z * (dim.x * dim.y);
    assert (dim.y - 1) * dim.x + dim.x == dim.x * dim.y;
    assert (dim.z - 1) * (dim.x * dim.y) + dim.x * dim.y == Volume(dim);
  }

  lemma {:induction false} IndexRoundTrip(p: UVec3, dim: UVec3)
    requires InBounds(p, dim)
    ensures From1dIndex(To1dIndex(p, dim), dim) == p
  {
    var i := To1dIndex(p, dim);
    var q := p.y + p.z * dim.y;
    assert q * dim.x == p.y * dim.x + (p.z * dim.y) * dim.x;
    assert (p.z * dim.y) * dim.x == p.z * dim.x * dim.y;
    assert i == q * dim.x + p.x;
    DivModUnique(i, dim.x, q, p.x);
    DivModUnique(q, dim.y, p.z, p.y);
  }

  /** Every flat index below the volume is the index of some in-bounds position. */
  lemma {:induction false} IndexSurjective(i: nat, dim: UVec3)
    requires dim.x > 0 && dim.y > 0 && i < Volume(dim)
    ensures InBounds(From1dIndex(i, dim), dim)
    ensures To1dIndex(From1dIndex(i, dim), dim) == i
  {
    var q := i / dim.x;
    var z := q / dim.y;
    assert i == q * dim.x + i % dim.x;
    assert q == z * dim.y + q % dim.y;
    if z >= dim.z {
      MulMonotone(dim.z, z, dim.y);
      MulMonotone(dim.z * dim.y, q, dim.x);
      assert false;
    }
    assert i == i % dim.x + (q % dim.y) * dim.x + z * dim.x * dim.y;
  }

  /** Distinct in-bounds positions have distinct flat indices. */
  lemma {:induction false} IndexInjective(p: UVec3, q: UVec3, dim: UVec3)
    requires InBounds(p, dim) && InBounds(q, dim)
    requires To1dIndex(p, dim) == To1dIndex(q, dim)
    ensures p == q
  {
    IndexRoundTrip(p, dim);
    IndexRoundTrip(q, dim);
  }

  /** A unit step along x, y or z moves the flat index by 1, `dim.x` or `dim.x * dim.y`. */
  lemma IndexSteps(p: UVec3, dim: UVec3)
    ensures To1dIndex(UVec3(p.x + 1, p.y, p.z), dim) == To1dIndex(p, dim) + 1
    ensures To1dIndex(UVec3(p.x, p.y + 1, p.z), dim) == To1dIndex(p, dim) + dim.x
    ensures To1dIndex(UVec3(p.x, p.y, p.z + 1), dim) == To1dIndex(p, dim) + dim.x * dim.y
  {
  }

  function Pow2(n: nat): (r: nat)
    ensures r >= 1
  {
    if n == 0 then 1 else 2 * Pow2(n - 1)
  }

  lemma {:induction false} Pow2Add(a: nat, b: nat)
    ensures Pow2(a + b) == Pow2(a) * Pow2(b)
  {
    if b > 0 {
      Pow2Add(a, b - 1);
      assert Pow2(a + b) == 2 * Pow2(a + b - 1);
    }
  }

  lemma {:induction false} Pow2Monotone(a: nat, b: nat)
    requires a < b
    ensures Pow2(a) < Pow2(b)
  {
    if b - 1 > a {
      Pow2Monotone(a, b - 1);
    }
  }

  /** The powers of two that name the bit positions of the packed 32-bit words. */
  lemma Pow2Values()
    ensures Pow2(4) == 16 && Pow2(8) == 256 && Pow2(16) == 0x1_0000
    ensures Pow2(24) == 0x100_0000 && Pow2(32) == 0x1_0000_0000
  {
    assert Pow2(2) == 4;
    assert Pow2(4) == 16;
    assert Pow2(8) == 256 by { Pow2Add(4, 4); }
    Pow2Add(8, 8);
    Pow2Add(16, 8);
    Pow2Add(16, 16);
  }
}
