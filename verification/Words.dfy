/** Machine integers of the C sources: ranges, wrap-around casts and powers of two. */
module Words {

  type i8 = x: int | -0x80 <= x < 0x80
  type i16 = x: int | -0x8000 <= x < 0x8000
  type i32 = x: int | -0x8000_0000 <= x < 0x8000_0000
  type i64 = x: int | -0x8000_0000_0000_0000 <= x < 0x8000_0000_0000_0000
  type u8 = x: int | 0 <= x < 0x100
  type u16 = x: int | 0 <= x < 0x1_0000
  type u32 = x: int | 0 <= x < 0x1_0000_0000

  predicate FitsI16(x: int) { -0x8000 <= x < 0x8000 }

  predicate FitsI32(x: int) { -0x8000_0000 <= x < 0x8000_0000 }

  predicate FitsI64(x: int) { -0x8000_0000_0000_0000 <= x < 0x8000_0000_0000_0000 }

  // The casts `(q7_t) x`, `(q15_t) x`, `(q31_t) x`, `(q63_t) x` and `(uint32_t) x`: two's complement wrap-around.

  function ToI8(x: int): i8 { (x + 0x80) % 0x100 - 0x80 }

  function ToI16(x: int): i16 { (x + 0x8000) % 0x1_0000 - 0x8000 }

  function ToI32(x: int): i32 { (x + 0x8000_0000) % 0x1_0000_0000 - 0x8000_0000 }

  function ToI64(x: int): i64 {
    (x + 0x8000_0000_0000_0000) % 0x1_0000_0000_0000_0000 - 0x8000_0000_0000_0000
  }

  function ToU32(x: int): u32 { x % 0x1_0000_0000 }

  // A cast that fits changes nothing.

  lemma SameI16(x: int)
    requires FitsI16(x)
    ensures ToI16(x) == x
  {}

  lemma SameI32(x: int)
    requires FitsI32(x)
    ensures ToI32(x) == x
  {}

  lemma SameI64(x: int)
    requires FitsI64(x)
    ensures ToI64(x) == x
  {}

  lemma SameU32(x: int)
    requires 0 <= x < 0x1_0000_0000
    ensures ToU32(x) == x
  {}

  /** A cast keeps the value modulo 2^width, which its range determines. */
  lemma CastsKeepResidues(x: int)
    ensures (ToI8(x) - x) % 0x100 == 0 && (ToI16(x) - x) % 0x1_0000 == 0
    ensures (ToI32(x) - x) % 0x1_0000_0000 == 0 && (ToU32(x) - x) % 0x1_0000_0000 == 0
    ensures (ToI64(x) - x) % 0x1_0000_0000_0000_0000 == 0
  {
    ModShift(0, -((x + 0x80) / 0x100), 0x100);
    ModShift(0, -((x + 0x8000) / 0x1_0000), 0x1_0000);
    ModShift(0, -((x + 0x8000_0000) / 0x1_0000_0000), 0x1_0000_0000);
    ModShift(0, -(x / 0x1_0000_0000), 0x1_0000_0000);
    ModShift(0, -((x + 0x8000_0000_0000_0000) / 0x1_0000_0000_0000_0000), 0x1_0000_0000_0000_0000);
  }

  /** A cast changes a value by a multiple of 2^width only. */
  lemma CastTurns(x: int) returns (k32: int, k64: int)
    ensures ToI32(x) == x + k32 * 0x1_0000_0000
    ensures ToI64(x) == x + k64 * 0x1_0000_0000_0000_0000
  {
    k32 := -((x + 0x8000_0000) / 0x1_0000_0000);
    k64 := -((x + 0x8000_0000_0000_0000) / 0x1_0000_0000_0000_0000);
  }

  lemma CastIgnoresTurns(x: int, y: int, k: int)
    requires x == y + k * 0x1_0000_0000
    ensures ToI32(x) == ToI32(y)
  {}

  function Min(a: int, b: int): int { if a <= b then a else b }

  function Max(a: int, b: int): int { if a <= b then b else a }

  /** The nearest value of the range. */
  function Clamp(lo: int, hi: int, x: int): (r: int)
    requires lo <= hi
    ensures lo <= r <= hi
    ensures (lo <= x <= hi ==> r == x) && (x < lo ==> r == lo) && (x > hi ==> r == hi)
  {
    if x < lo then lo else if x > hi then hi else x
  }

  function Clamp16(x: int): i16 { Clamp(-0x8000, 0x7FFF, x) }

  function Clamp32(x: int): i32 { Clamp(-0x8000_0000, 0x7FFF_FFFF, x) }

  function Pow2(k: nat): (r: nat)
    ensures r >= 1
  {
    if k == 0 then 1 else 2 * Pow2(k - 1)
  }

  /** `x << s` on a 32-bit unsigned register. */
  function Shl(x: int, s: nat): u32 { ToU32(x * Pow2(s)) }

  lemma {:induction false} Pow2Add(a: nat, b: nat)
    ensures Pow2(a + b) == Pow2(a) * Pow2(b)
    decreases a
  {
    if a != 0 {
      Pow2Add(a - 1, b);
      assert Pow2(a + b) == 2 * Pow2(a - 1 + b);
      MulAssoc(2, Pow2(a - 1), Pow2(b));
    }
  }

  lemma {:induction false} Pow2Mono(a: nat, b: nat)
    requires a <= b
    ensures Pow2(a) <= Pow2(b)
    decreases b - a
  {
    if a < b {
      Pow2Mono(a + 1, b);
    }
  }

  lemma Pow2Values()
    ensures Pow2(2) == 4 && Pow2(3) == 8 && Pow2(4) == 16 && Pow2(5) == 32 && Pow2(6) == 64 && Pow2(7) == 0x80
    ensures Pow2(8) == 0x100 && Pow2(14) == 0x4000 && Pow2(15) == 0x8000 && Pow2(16) == 0x1_0000
    ensures Pow2(20) == 0x10_0000 && Pow2(24) == 0x100_0000 && Pow2(30) == 0x4000_0000
    ensures Pow2(31) == 0x8000_0000 && Pow2(32) == 0x1_0000_0000
  {
    assert Pow2(8) == 0x100;
    Pow2Add(8, 8);
    Pow2Add(16, 8);
    Pow2Add(24, 6);
    Pow2Add(16, 16);
  }

  // Small facts of integer arithmetic the solver is not asked to rediscover.

  lemma MulAssoc(a: int, b: int, c: int)
    ensures (a * b) * c == a * (b * c)
  {}

  lemma MulMono(a: int, b: int, c: int)
    requires a <= b && 0 <= c
    ensures a * c <= b * c
  {}

  lemma MulNonNegative(a: int, b: int)
    requires 0 <= a && 0 <= b
    ensures 0 <= a * b
  {}

  /** Euclidean division by a positive divisor is determined by its defining equation. */
  lemma DivModUnique(x: int, d: int, q: int, r: int)
    requires 0 < d && 0 <= r < d && x == q * d + r
    ensures x / d == q && x % d == r
  {
    var q', r' := x / d, x % d;
    assert x == d * q' + r' && 0 <= r' < d;
    assert (q - q') * d == r' - r;
    if q < q' {
      MulMono(q - q', -1, d);
      assert false;
    } else if q > q' {
      MulMono(1, q - q', d);
      assert false;
    }
  }

  lemma DivMono(x: int, y: int, d: int)
    requires x <= y && 0 < d
    ensures x / d <= y / d
  {
    var qx, qy := x / d, y / d;
    assert x == d * qx + x % d && y == d * qy + y % d;
    if qx > qy {
      MulMono(qy + 1, qx, d);
      assert false;
    }
  }

  /** A shift by a multiple of the divisor passes through the remainder. */
  lemma ModShift(x: int, k: int, d: int)
    requires 0 < d
    ensures (x + k * d) % d == x % d && (x + k * d) / d == x / d + k
  {
    assert x == d * (x / d) + x % d;
    assert (x / d + k) * d == d * (x / d) + k * d;
    DivModUnique(x + k * d, d, x / d + k, x % d);
  }
}
