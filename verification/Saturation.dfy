/** Clips, saturating additions and the wide multiply of arm_math.h (portable C forms). */
module Saturation {
  import opened Words

  // `k ^ s` for s == 0 or s == -1, as the clips use it: the identity or the complement.
  function XorSign(k: int, s: int): int
    requires s == 0 || s == -1
  {
    if s == 0 then k else -1 - k
  }

  function ClipQ63ToQ31(x: i64): i32 {
    if ToI32(x / 0x1_0000_0000) != ToI32(x) / 0x8000_0000 then
      XorSign(0x7FFF_FFFF, ToI32(x / 0x8000_0000_0000_0000))
    else
      ToI32(x)
  }

  function ClipQ63ToQ15(x: i64): i16 {
    if ToI32(x / 0x1_0000_0000) != ToI32(x) / 0x8000_0000 then
      XorSign(0x7FFF, ToI16(x / 0x8000_0000_0000_0000))
    else
      ToI16(x / 0x8000)
  }

  function ClipQ31ToQ7(x: i32): i8 {
    if ToI32(x / 0x100_0000) != x / 0x80_0000 then
      XorSign(0x7F, ToI8(x / 0x8000_0000))
    else
      ToI8(x)
  }

  function ClipQ31ToQ15(x: i32): i16 {
    if ToI32(x / 0x1_0000) != x / 0x8000 then
      XorSign(0x7FFF, ToI16(x / 0x8000_0000))
    else
      ToI16(x)
  }

  /** The Q63-to-Q31 clip is exact saturation on its whole domain. */
  lemma ClipQ63ToQ31Saturates(x: i64)
    ensures ClipQ63ToQ31(x) == Clamp32(x)
  {
    assert x / 0x8000_0000_0000_0000 == if x < 0 then -1 else 0;
    ClipGuard(x);
  }

  /** So is the Q31-to-Q15 clip. */
  lemma ClipQ31ToQ15Saturates(x: i32)
    ensures ClipQ31ToQ15(x) == Clamp16(x)
  {
    SixteenBitGuard(x, x / 0x8000, x / 0x1_0000);
    assert ToI32(x / 0x1_0000) == x / 0x1_0000;
    hide ToI32;
    assert x / 0x8000_0000 == if x < 0 then -1 else 0;
  }

  lemma SixteenBitGuard(x: int, half: int, word: int)
    requires 0 <= x - 0x8000 * half < 0x8000 && 0 <= x - 0x1_0000 * word < 0x1_0000
    ensures word == half <==> FitsI16(x)
  {}

  /** The Q63-to-Q15 clip saturates x >> 15 exactly outside the band where the guard
      still sees a 32-bit value but the shifted value no longer fits 16 bits; there it is one turn off. */
  lemma ClipQ63ToQ15Exact(x: i64)
    ensures 0x4000_0000 <= x < 0x8000_0000 ==> ClipQ63ToQ15(x) == x / 0x8000 - 0x1_0000
    ensures -0x8000_0000 <= x < -0x4000_0000 ==> ClipQ63ToQ15(x) == x / 0x8000 + 0x1_0000
    ensures ClipQ63ToQ15(x) == Clamp16(x / 0x8000)
       <==> !(-0x8000_0000 <= x < -0x4000_0000 || 0x4000_0000 <= x < 0x8000_0000)
  {
    hide ToI32, ToI16, Clamp16;
    ClipGuard(x);
    SignOf64(x);
    if FitsI32(x) {
      ShiftedCast(x);
    } else {
      ShiftedClamp(x);
    }
  }

  lemma SignOf64(x: i64)
    ensures x / 0x8000_0000_0000_0000 == (if x < 0 then -1 else 0) && ToI16(x / 0x8000_0000_0000_0000) == if x < 0 then -1 else 0
  {}

  /** What the cast makes of a shifted value that was taken to fit. */
  lemma ShiftedCast(x: int)
    requires FitsI32(x)
    ensures ToI16(x / 0x8000) == x / 0x8000 + if x >= 0x4000_0000 then -0x1_0000 else if x < -0x4000_0000 then 0x1_0000 else 0
    ensures Clamp16(x / 0x8000) == if x >= 0x4000_0000 then 0x7FFF else if x < -0x4000_0000 then -0x8000 else x / 0x8000
  {}

  lemma ShiftedClamp(x: int)
    requires !FitsI32(x)
    ensures Clamp16(x / 0x8000) == if x < 0 then -0x8000 else 0x7FFF
  {}

  lemma ClipGuard(x: i64)
    ensures FitsI32(x) <==> ToI32(x / 0x1_0000_0000) == ToI32(x) / 0x8000_0000
    ensures FitsI32(x) ==> ToI32(x) == x
  {
    assert ToI32(x / 0x1_0000_0000) == x / 0x1_0000_0000;
  }

  /** The Q31-to-Q7 clip saturates exactly outside its band 2^7 <= |x| < 2^23,
      or where the wrapped byte happens to be the limit; in the band it keeps the low byte. */
  lemma ClipQ31ToQ7Exact(x: i32)
    ensures -0x80_0000 <= x < 0x80_0000 ==> ClipQ31ToQ7(x) == (x + 0x80) % 0x100 - 0x80
    ensures ClipQ31ToQ7(x) == Clamp(-0x80, 0x7F, x)
       <==> !((-0x80_0000 <= x < -0x80 && x % 0x100 != 0x80) || (0x80 <= x < 0x80_0000 && x % 0x100 != 0x7F))
  {
    assert ToI32(x / 0x100_0000) == x / 0x100_0000;
  }

  function Mult32x64(x: i64, y: i32): i64 {
    ToI64(ToI64((x % 0x1_0000_0000) * y) / 0x1_0000_0000 + ToI64((x / 0x1_0000_0000) * y))
  }

  /** No intermediate overflows, and the two half products make the exact floor of x*y / 2^32. */
  lemma Mult32x64Exact(x: i64, y: i32)
    ensures Mult32x64(x, y) == (x * y) / 0x1_0000_0000
  {
    var lo: int, hi: int := x % 0x1_0000_0000, x / 0x1_0000_0000;
    ProductBound(lo, y, 0x1_0000_0000, 0x8000_0000);
    ProductBound(hi, y, 0x8000_0000, 0x8000_0000);
    HalfProducts(x, hi, lo, y);
    HalvesFit(lo * y, hi * y);
  }

  lemma HalvesFit(p: int, q: int)
    requires -0x8000_0000_0000_0000 <= p < 0x8000_0000_0000_0000
    requires -0x4000_0000_0000_0000 <= q <= 0x4000_0000_0000_0000
    ensures ToI64(ToI64(p) / 0x1_0000_0000 + ToI64(q)) == (p + 0x1_0000_0000 * q) / 0x1_0000_0000
  {
    hide ToI64;
    SameI64(p);
    SameI64(q);
    ModShift(p, q, 0x1_0000_0000);
    SameI64(p / 0x1_0000_0000 + q);
  }

  lemma HalfProducts(x: int, hi: int, lo: int, y: int)
    requires x == hi * 0x1_0000_0000 + lo
    ensures x * y == lo * y + 0x1_0000_0000 * (hi * y)
  {}

  lemma ProductBound(a: int, b: int, m: int, n: int)
    requires -m <= a <= m && -n <= b <= n
    ensures -(m * n) <= a * b <= m * n
  {
    var a', b' := if a < 0 then -a else a, if b < 0 then -b else b;
    MulMono(a', m, b');
    MulMono(b', n, m);
    MulNonNegative(a', b');
    assert a' * b' <= m * n by {
      assert m * b' == b' * m && n * m == m * n;
    }
    assert a * b == a' * b' || a * b == -(a' * b');
  }

  /** Saturation of x to y bits. */
  function SsatLimit(x: int, y: int): int
    requires 1 <= y
  {
    var limit: int := Pow2(y - 1);
    Clamp(-limit, limit - 1, x)
  }

  lemma SmallLimit(i: nat)
    requires i <= 30
    ensures Pow2(i) <= 0x4000_0000
  {
    Pow2Mono(i, 30);
    Pow2Values();
  }

  /** __SSAT for cores without the instruction: the limit is computed by repeated doubling. */
  method Ssat(x: i32, y: u32) returns (r: i32)
    requires 1 <= y <= 31
    ensures r == SsatLimit(x, y)
    ensures 0 <= x + Pow2(y - 1) < 2 * Pow2(y - 1) ==> r == x
    ensures x >= Pow2(y - 1) ==> r == Pow2(y - 1) - 1
    ensures x + Pow2(y - 1) < 0 ==> r + Pow2(y - 1) == 0
  {
    hide ToI32;
    r := x;
    var posMax: int := 1;
    var i: int := 0;
    while i < y - 1
      invariant 0 <= i <= y - 1 && posMax == Pow2(i)
    {
      SmallLimit(i + 1);
      SameI32(posMax * 2);
      posMax := ToI32(posMax * 2);
      i := i + 1;
    }
    SmallLimit(i);
    if x > 0 {
      posMax := posMax - 1;
      if x > posMax {
        r := posMax;
      }
    } else {
      var negMin := -posMax;
      if x < negMin {
        r := negMin;
      }
    }
  }

  function Qadd(x: i32, y: i32): i32 { ClipQ63ToQ31(x + y) }

  function Qsub(x: i32, y: i32): i32 { ClipQ63ToQ31(x - y) }

  /** The 32-bit additions saturate. */
  lemma QaddQsubSaturate(x: i32, y: i32)
    ensures Qadd(x, y) == Clamp32(x + y) && Qsub(x, y) == Clamp32(x - y)
  {
    ClipQ63ToQ31Saturates(x + y);
    ClipQ63ToQ31Saturates(x - y);
  }
}
