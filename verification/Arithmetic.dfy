/** Powers of two, ceiling division and the two Galois connections the engine's
    fixed-point arithmetic rests on. */
module Arithmetic {

  const TWO_62: int := 0x4000_0000_0000_0000
  const TWO_64: int := 0x1_0000_0000_0000_0000
  const TWO_128: int := 0x1_0000_0000_0000_0000_0000_0000_0000_0000
  const MAX_U32: int := 0xFFFF_FFFF
  const MAX_U64: int := 0xFFFF_FFFF_FFFF_FFFF

  type u8 = x: int | 0 <= x < 0x100
  type u32 = x: int | 0 <= x < 0x1_0000_0000
  type u64 = x: int | 0 <= x < 0x1_0000_0000_0000_0000
  type u128 = x: int | 0 <= x < 0x1_0000_0000_0000_0000_0000_0000_0000_0000

  function Min(a: int, b: int): int {
    if a <= b then a else b
  }

  function Max(a: int, b: int): int {
    if a <= b then b else a
  }

  function SaturatingSub(a: u64, b: u64): u64 {
    if b <= a then a - b else 0
  }

  function SaturatingAdd(a: u64, b: u64): u64 {
    if a + b <= MAX_U64 then a + b else MAX_U64
  }

  function Pow2(k: nat): (r: nat)
    ensures 1 <= r
  {
    if k == 0 then 1 else 2 * Pow2(k - 1)
  }

  lemma {:induction false} Pow2Add(a: nat, b: nat)
    ensures Pow2(a + b) == Pow2(a) * Pow2(b)
  {
    if a != 0 {
      Pow2Add(a - 1, b);
      assert Pow2(a + b) == 2 * Pow2(a - 1 + b);
      assert 2 * (Pow2(a - 1) * Pow2(b)) == (2 * Pow2(a - 1)) * Pow2(b);
    }
  }

  lemma {:induction false} Pow2Monotonic(a: nat, b: nat)
    requires a <= b
    ensures Pow2(a) <= Pow2(b)
  {
    if a < b {
      Pow2Monotonic(a, b - 1);
    }
  }

  lemma Pow2Sum(a: nat, b: nat, x: nat, y: nat)
    requires Pow2(a) == x && Pow2(b) == y
    ensures Pow2(a + b) == x * y
  {
    Pow2Add(a, b);
  }

  lemma Pow2Of32()
    ensures Pow2(30) == 0x4000_0000 && Pow2(32) == 0x1_0000_0000
  {
    Pow2Sum(8, 8, 0x100, 0x100);
    Pow2Sum(16, 14, 0x1_0000, 0x4000);
    Pow2Sum(16, 16, 0x1_0000, 0x1_0000);
  }

  lemma Pow2Of64()
    ensures Pow2(61) == 0x2000_0000_0000_0000
    ensures Pow2(62) == TWO_62
    ensures Pow2(63) == 0x8000_0000_0000_0000
    ensures Pow2(64) == TWO_64
  {
    Pow2Of32();
    Pow2Sum(32, 30, 0x1_0000_0000, 0x4000_0000);
    Pow2Sum(32, 32, 0x1_0000_0000, 0x1_0000_0000);
    var k := 62;
    assert Pow2(k) == 2 * Pow2(k - 1) && Pow2(k + 1) == 2 * Pow2(k);
  }

  lemma Pow2Of128()
    ensures Pow2(128) == TWO_128
  {
    Pow2Of64();
    Pow2Sum(64, 64, TWO_64, TWO_64);
  }

  /** Rust's `div_ceil`. */
  function DivCeil(x: nat, d: nat): (q: nat)
    requires 0 < d
    ensures x <= q * d
    ensures 0 < q ==> (q - 1) * d < x
  {
    var q := x / d;
    assert x == q * d + x % d;
    assert (q + 1) * d == q * d + d;
    if x % d == 0 then
      assert 0 < q ==> (q - 1) * d == q * d - d;
      q
    else
      q + 1
  }

  lemma Associate(x: int, y: int, z: int)
    ensures x * (y * z) == (x * y) * z
  {
  }

  lemma ProductMonotonic(a: int, b: int, c: nat)
    requires a <= b
    ensures a * c <= b * c
  {
    assert 0 <= (b - a) * c;
  }

  /** A common positive factor cancels from an inequality. */
  lemma CancelFactor(a: int, b: int, c: nat)
    requires 0 < c
    ensures a * c <= b * c <==> a <= b
    ensures a * c < b * c <==> a < b
  {
    if a < b {
      ProductMonotonic(a + 1, b, c);
      assert (a + 1) * c == a * c + c;
    } else if b < a {
      ProductMonotonic(b + 1, a, c);
      assert (b + 1) * c == b * c + c;
    }
  }

  /** Flooring division is the upper adjoint of multiplication... */
  lemma FloorGalois(x: int, d: nat, q: int)
    requires 0 < d
    ensures q <= x / d <==> q * d <= x
  {
    var f := x / d;
    assert x == f * d + x % d;
    if q <= f {
      ProductMonotonic(q, f, d);
    } else {
      ProductMonotonic(f + 1, q, d);
      assert (f + 1) * d == f * d + d;
    }
  }

  lemma QuotientAtMost(x: nat, w: nat)
    requires 0 < w
    ensures 0 <= x / w <= x
  {
    ProductMonotonic(1, w, x + 1);
    FloorGalois(x, w, x + 1);
  }

  lemma FloorBounds(x: nat, w: nat)
    requires 0 < w
    ensures (x / w) * w <= x < (x / w) * w + w
  {
    FloorGalois(x, w, x / w);
    FloorGalois(x, w, x / w + 1);
    assert (x / w + 1) * w == (x / w) * w + w;
  }

  /** ...and ceiling division is its lower adjoint. */
  lemma CeilGalois(x: nat, d: nat, q: nat)
    requires 0 < d
    ensures DivCeil(x, d) <= q <==> x <= q * d
  {
    var c := DivCeil(x, d);
    if c <= q {
      ProductMonotonic(c, q, d);
    } else {
      ProductMonotonic(q, c - 1, d);
    }
  }

  /** Significant bits of `x`, zero for zero. */
  function Bits(x: nat): nat {
    if x == 0 then 0 else 1 + Bits(x / 2)
  }

  /** The width of a positive number brackets it between two powers of two. */
  lemma {:induction false} BitsBracket(x: nat)
    requires 0 < x
    ensures 0 < Bits(x)
    ensures Pow2(Bits(x) - 1) <= x < Pow2(Bits(x))
  {
    if x == 1 {
      assert Bits(1) == 1 + Bits(0) && Pow2(1) == 2 * Pow2(0);
    } else {
      BitsBracket(x / 2);
    }
  }

  lemma {:induction false} BitsAtMost(x: nat, k: nat)
    requires x < Pow2(k)
    ensures Bits(x) <= k
  {
    if 0 < x {
      BitsBracket(x);
    }
    if k < Bits(x) {
      Pow2Monotonic(k, Bits(x) - 1);
    }
  }
}
