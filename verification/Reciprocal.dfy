/** The Newton reciprocals of arm_math.h in Q31 and Q15. */
module Reciprocal {
  import opened Words
  import opened Bits
  import opened Saturation
  import opened BitLoops

  const INDEX_MASK: nat := 0x3F

  // ---- One Newton step, as coded ----

  function NewtonQ31(n: i32, out: i32): i32 {
    var tempVal := ToU32(ToI64(n * out) / 0x8000_0000);
    var tempVal' := ToU32(0x7FFF_FFFF - tempVal);
    ClipQ63ToQ31(ToI64(ToI64(out * tempVal') / 0x4000_0000))
  }

  function NewtonQ15(n: i16, out: i16): i16 {
    var tempVal := ToU32(ToI32(n * out) / 0x8000);
    var tempVal' := ToU32(0x7FFF - tempVal);
    ToI16(ToU32(out * tempVal') / 0x4000)
  }

  lemma FactorIs(m: int, t: int)
    ensures ToU32(m - ToU32(t)) == (m - t) % 0x1_0000_0000
  {
    ModShift(m - t, t / 0x1_0000_0000, 0x1_0000_0000);
  }

  /** Spelled out for every input and estimate: only the correction factor is unsigned, and the clip is exact. */
  lemma NewtonQ31Is(n: i32, out: i32)
    ensures NewtonQ31(n, out) == Clamp32(out * ((0x7FFF_FFFF - n * out / 0x8000_0000) % 0x1_0000_0000) / 0x4000_0000)
  {
    hide ToI64, ToU32, ClipQ63ToQ31, Clamp32;
    ProductBound(n, out, 0x8000_0000, 0x8000_0000);
    SameI64(n * out);
    FactorIs(0x7FFF_FFFF, n * out / 0x8000_0000);
    var f: int := (0x7FFF_FFFF - n * out / 0x8000_0000) % 0x1_0000_0000;
    FactorProduct(out, f);
    SameI64(out * f);
    SameI64(out * f / 0x4000_0000);
    ClipQ63ToQ31Saturates(out * f / 0x4000_0000);
  }

  lemma FactorProduct(out: i32, f: int)
    requires 0 <= f < 0x1_0000_0000
    ensures FitsI64(out * f)
  {
    MulMono(-0x8000_0000, out, f);
    MulMono(out, 0x7FFF_FFFF, f);
  }

  /** In Q15 the product is unsigned, and its cast wraps. */
  lemma NewtonQ15Is(n: i16, out: i16)
    ensures NewtonQ15(n, out) ==
            (out * ((0x7FFF - n * out / 0x8000) % 0x1_0000_0000) % 0x1_0000_0000 / 0x4000 + 0x8000) % 0x1_0000 - 0x8000
  {
    hide ToI32;
    ProductBound(n, out, 0x8000, 0x8000);
    SameI32(n * out);
    FactorIs(0x7FFF, n * out / 0x8000);
    assert NewtonQ15(n, out) == ToI16(ToU32(out * ToU32(0x7FFF - ToU32(n * out / 0x8000))) / 0x4000);
    hide NewtonQ15;
  }

  // ---- The step in exact arithmetic, for either format ----
  // d is the scaled value of 1 (2^61 or 2^29), p = n * out the current product, w the word size
  // (2^31 or 2^15), x = w * tempVal the scaled correction factor and m the next product.

  lemma SquareNonNegative(a: int)
    ensures 0 <= a * a
  {}

  lemma SquareOfGap(d: int, p: int)
    ensures (d - p) * (d - p) == d * d - 2 * (d * p) + p * p
  {}

  /** However good or bad the estimate, the next one is strictly below the true reciprocal. */
  lemma NewtonUndershoots(d: int, p: int, x: int, m: int)
    requires 0 < d && 0 <= p && x <= 2 * d - p - 1 && m * d <= p * x
    ensures m < d
  {
    SquareNonNegative(d - p);
    SquareOfGap(d, p);
    MulMono(x, 2 * d - p - 1, p);
    assert (2 * d - p - 1) * p == 2 * (d * p) - p * p - p;
    assert x * p == p * x;
    if m >= d {
      MulMono(d, m, d);
      MulNonNegative(d, d);
      assert p == 0;
      assert m * d <= 0;
      MulMono(1, d, d);
    }
  }

  /** The error of the next estimate: the square of the last one, plus the rounding. */
  lemma NewtonSquaresError(d: int, p: int, x: int, m: int, n: int, w: int)
    requires 0 < d && 0 <= p && n < w
    requires x >= 2 * d - w - p && m * d >= p * x - n * d
    ensures (d - m) * d < (d - p) * (d - p) + (d + p) * w
  {
    SquareOfGap(d, p);
    MulMono(2 * d - w - p, x, p);
    assert (2 * d - w - p) * p == 2 * (d * p) - w * p - p * p;
    assert x * p == p * x;
    MulMono(n + 1, w, d);
    assert (n + 1) * d == n * d + d;
    assert (d - m) * d == d * d - m * d;
    assert (d + p) * w == w * d + w * p;
  }

  // ---- Q31 ----

  /** One step without casts: no intermediate leaves its type and the clip does nothing. */
  lemma NewtonQ31Exact(n: i32, out: i32)
    requires 0x4000_0000 <= n && 0 <= out
    ensures NewtonQ31(n, out) as int * n < 0x2000_0000_0000_0000
    ensures NewtonQ31(n, out) == (out * (0x7FFF_FFFF - (n * out) / 0x8000_0000)) / 0x4000_0000 >= 0
    ensures (0x2000_0000_0000_0000 - n * NewtonQ31(n, out)) * 0x2000_0000_0000_0000
          < (0x2000_0000_0000_0000 - n * out) * (0x2000_0000_0000_0000 - n * out)
            + (0x2000_0000_0000_0000 + n * out) * 0x8000_0000
  {
    var p: int := n * out;
    MulNonNegative(n, out);
    ProductBound(n, out, 0x7FFF_FFFF, 0x7FFF_FFFF);
    var t: int := p / 0x8000_0000;
    var f: int := 0x7FFF_FFFF - t;
    assert 0 <= t < 0x7FFF_FFFF;
    var q: int := out * f;
    MulNonNegative(out, f);
    ProductBound(out, f, 0x7FFF_FFFF, 0x7FFF_FFFF);
    var r: int := q / 0x4000_0000;
    StepFacts31(n, out, p, f, q, r);
    CodedStep31(n, out, p, q, r);
  }

  lemma StepFacts31(n: int, out: int, p: int, f: int, q: int, r: int)
    requires 0x4000_0000 <= n < 0x8000_0000 && 0 <= p == n * out && 0 <= q == out * f
    requires f == 0x7FFF_FFFF - p / 0x8000_0000 && r == q / 0x4000_0000
    ensures n * r < 0x2000_0000_0000_0000 && 0 <= r < 0x8000_0000
    ensures (0x2000_0000_0000_0000 - n * r) * 0x2000_0000_0000_0000
          < (0x2000_0000_0000_0000 - p) * (0x2000_0000_0000_0000 - p)
            + (0x2000_0000_0000_0000 + p) * 0x8000_0000
  {
    var x, m := 0x8000_0000 * f, n * r;
    assert p * f == n * q by { MulAssoc(n, out, f); }
    assert p * x == 0x8000_0000 * (n * q);
    MulMono(r * 0x4000_0000, q, n);
    MulMono(q, (r + 1) * 0x4000_0000, n);
    assert r * 0x4000_0000 * n == 0x4000_0000 * m && (r + 1) * 0x4000_0000 * n == 0x4000_0000 * m + 0x4000_0000 * n;
    NewtonUndershoots(0x2000_0000_0000_0000, p, x, m);
    NewtonSquaresError(0x2000_0000_0000_0000, p, x, m, n, 0x8000_0000);
    MulMono(0x4000_0000, n, r);
  }

  lemma CodedStep31(n: i32, out: i32, p: int, q: int, r: int)
    requires p == n * out && 0 <= p < 0x3FFF_FFFF_8000_0000
    requires q == out * (0x7FFF_FFFF - p / 0x8000_0000) && 0 <= q < 0x4000_0000_0000_0000
    requires r == q / 0x4000_0000 && 0 <= r < 0x8000_0000
    ensures NewtonQ31(n, out) == r
  {
    hide ToI64, ToU32, ClipQ63ToQ31;
    var t: int := p / 0x8000_0000;
    SameI64(p);
    SameU32(t);
    SameU32(0x7FFF_FFFF - t);
    SameI64(q);
    SameI64(r);
    ClipQ63ToQ31Saturates(r);
  }

  /** k Newton steps from a first estimate. */
  function RefinedQ31(n: i32, first: i32, k: nat): i32 {
    if k == 0 then first else NewtonQ31(n, RefinedQ31(n, first, k - 1))
  }

  /** Both iterations stay non-negative, and after the first one strictly below the reciprocal. */
  lemma {:induction false} RefinedQ31Below(n: i32, first: i32, k: nat)
    requires 0x4000_0000 <= n && 0 <= first
    ensures 0 <= RefinedQ31(n, first, k)
    ensures k > 0 ==> n * RefinedQ31(n, first, k) < 0x2000_0000_0000_0000
  {
    if k != 0 {
      RefinedQ31Below(n, first, k - 1);
      NewtonQ31Exact(n, RefinedQ31(n, first, k - 1));
    }
  }

  predicate CloseQ31(n: int, first: int) {
    -0x80_0000_0000_0000 <= 0x2000_0000_0000_0000 - n * first <= 0x80_0000_0000_0000
  }

  /** A table accurate to 2^-6 gives, after the two iterations, a relative error below 2^-24 + 2^-28. */
  lemma TwoStepsConvergeQ31(n: i32, first: i32)
    requires 0x4000_0000 <= n && 0 <= first && CloseQ31(n, first)
    ensures 0 < 0x2000_0000_0000_0000 - n * RefinedQ31(n, first, 2) < 0x22_0000_0000
  {
    RefinedQ31Below(n, first, 1);
    var second := NewtonQ31(n, first);
    assert RefinedQ31(n, first, 1) == second by {
      hide NewtonQ31;
      assert RefinedQ31(n, first, 0) == first;
    }
    assert RefinedQ31(n, first, 2) == NewtonQ31(n, second) by {
      hide NewtonQ31;
    }
    NewtonQ31Exact(n, first);
    NewtonQ31Exact(n, second);
    var e0: int, e1: int, e2: int := 0x2000_0000_0000_0000 - n * first, 0x2000_0000_0000_0000 - n * second,
      0x2000_0000_0000_0000 - n * NewtonQ31(n, second);
    hide *;
    SquareBound(e0, 0x80_0000_0000_0000);
    assert e1 <= 0x2_0001_0400_0000;
    SquareBound(e1, 0x2_0001_0400_0000);
  }

  lemma SquareBound(e: int, b: int)
    requires -b <= e <= b
    ensures e * e <= b * b
  {
    ProductBound(e, e, b, b);
  }

  /** arm_recip_q31: *dst and the returned exponent. The input is first scaled by 2^(ret-1) so that its
      magnitude is in [2^30, 2^31). For a positive input dst is then 2^61 over the scaled input, from below;
      for any other it is not even of the right sign. Negating -2^31 is undefined in C. */
  method RecipQ31(input: i32, recipTable: array<i32>) returns (dst: i32, ret: u32)
    requires input != -0x8000_0000 && recipTable.Length == 64
    ensures 1 <= ret <= 32 && NormalisedQ31(input, input * Pow2(ret - 1))
    ensures (input > 0 ==> 0x4000_0000 <= input * Pow2(ret - 1) < 0x8000_0000) && (input == 0 ==> ret == 32)
    ensures input < 0 ==> -0x8000_0000 < input * Pow2(ret - 1) <= -0x4000_0000
    ensures var n := input * Pow2(ret - 1);
            var first := recipTable[n / 0x100_0000 % 64];
            && dst == RefinedQ31(n, first, 2) == NewtonQ31(n, NewtonQ31(n, first))
            && (input > 0 && first >= 0 ==> 0 <= n * dst < 0x2000_0000_0000_0000)
            && (input > 0 && first >= 0 && -0x80_0000_0000_0000 <= 0x2000_0000_0000_0000 - n * first <= 0x80_0000_0000_0000 ==>
                  n * dst > 0x2000_0000_0000_0000 - 0x22_0000_0000)
            && (input <= 0 && first >= 0 ==> dst >= 0 && n * dst <= 0)
  {
    hide And, Pow2, ToI32, ToU32, NewtonQ31, RefinedQ31;
    var clz: u32;
    if input > 0 {
      clz := Clz(input);
    } else {
      clz := Clz(-(input as int));
    }
    ScaleQ31(input, clz);
    var signBits: u32 := ToU32(clz - 1);
    var n: i32 := ToI32(input * Pow2(signBits));
    var index := ToU32(n / 0x100_0000);
    IndexQ31(n);
    index := And(index, INDEX_MASK);
    dst := recipTable[index];
    ghost var first := dst;
    var i := 0;
    RefinedStartQ31(n, first);
    while i < 2
      invariant 0 <= i <= 2 && dst == RefinedQ31(n, first, i)
    {
      RefinedNextQ31(n, first, i);
      dst := NewtonQ31(n, dst);
      i := i + 1;
    }
    TwoStepsQ31(n, first);
    if first >= 0 {
      RefinedTwice(input, n, first);
    }
    ret := signBits + 1;
  }

  /** The scaled input: of full width, with the sign of the input. */
  predicate NormalisedQ31(input: int, n: int) {
    if input == 0 then n == 0
    else if input > 0 then 0x4000_0000 <= n < 0x8000_0000
    else -0x8000_0000 < n <= -0x4000_0000
  }

  /** What two steps give, by the sign of the input. */
  lemma RefinedTwice(input: int, n: i32, first: i32)
    requires NormalisedQ31(input, n) && first >= 0
    ensures var dst := RefinedQ31(n, first, 2);
            && (input > 0 ==> 0 <= n * dst < 0x2000_0000_0000_0000)
            && (input > 0 && CloseQ31(n, first) ==> n * dst > 0x2000_0000_0000_0000 - 0x22_0000_0000)
            && (input <= 0 ==> dst >= 0 && n * dst <= 0)
  {
    hide RefinedQ31, CloseQ31;
    var dst: int := RefinedQ31(n, first, 2);
    if input > 0 {
      RefinedQ31Below(n, first, 2);
      MulNonNegative(n, dst);
      if CloseQ31(n, first) {
        TwoStepsConvergeQ31(n, first);
      }
    } else {
      RefinedQ31WrongSign(n, first, 2);
      MulMono(n, 0, dst);
    }
  }

  /** A step from a non-negative estimate never gives the negative reciprocal of a negative input. */
  lemma NewtonQ31WrongSign(n: i32, out: i32)
    requires n <= 0 <= out
    ensures 0 <= NewtonQ31(n, out)
  {
    hide ToI64, ToU32, ClipQ63ToQ31;
    var p: int := n * out;
    ProductBound(n, out, 0x8000_0000, 0x7FFF_FFFF);
    MulMono(n, 0, out);
    var t: int := p / 0x8000_0000;
    SameI64(p);
    FactorOf(t);
    var f: int := 0x7FFF_FFFF - t;
    ProductBound(out, f, 0x7FFF_FFFF, 0xFFFF_FFFF);
    MulNonNegative(out, f);
    SameI64(out * f);
    SameI64(out * f / 0x4000_0000);
    ClipQ63ToQ31Saturates(out * f / 0x4000_0000);
  }

  lemma FactorOf(t: int)
    requires -0x8000_0000 <= t <= 0
    ensures ToU32(0x7FFF_FFFF - ToU32(t)) == 0x7FFF_FFFF - t
  {}

  lemma {:induction false} RefinedQ31WrongSign(n: i32, first: i32, k: nat)
    requires n <= 0 <= first
    ensures 0 <= RefinedQ31(n, first, k)
  {
    hide NewtonQ31;
    if k != 0 {
      RefinedQ31WrongSign(n, first, k - 1);
      NewtonQ31WrongSign(n, RefinedQ31(n, first, k - 1));
    }
  }

  /** A positive value of 32-k bits has at least k leading zeros, and the rest of them normalise it. */
  lemma SignBits(data: nat, clz: nat, k: nat)
    requires 1 <= k <= 31 && clz <= 31 && data < Pow2(32 - k)
    requires 0x8000_0000 <= data * Pow2(clz) < 0x1_0000_0000
    ensures k <= clz
    ensures 0x8000_0000 <= data * Pow2(clz - k) * Pow2(k) < 0x1_0000_0000
  {
    Pow2Values();
    if clz < k {
      Pow2Mono(clz, k - 1);
      Pow2Add(32 - k, k - 1);
      TooFewBits(data, Pow2(clz), Pow2(32 - k), Pow2(k - 1));
      assert false;
    }
    Pow2Add(clz - k, k);
    MulAssoc(data, Pow2(clz - k), Pow2(k));
  }

  lemma TooFewBits(data: nat, c: nat, h: nat, p: nat)
    requires data < h && c <= p && 1 <= p && h * p == 0x8000_0000
    ensures data * c < 0x8000_0000
  {
    MulMono(c, p, data);
    MulMono(data, h - 1, p);
    assert (h - 1) * p == h * p - p;
  }

  /** What Clz returned for the magnitude. */
  predicate LeadingZeros(data: int, clz: u32) {
    if data == 0 then clz == 32 else clz <= 31 && 0x8000_0000 <= data * Pow2(clz) < 0x1_0000_0000
  }

  function Magnitude(x: int): nat { if x < 0 then -x else x }

  lemma ScaleQ31(input: i32, clz: u32)
    requires input != -0x8000_0000 && LeadingZeros(Magnitude(input), clz)
    ensures 1 <= clz <= 32 && ToU32(clz - 1) == clz - 1 && (input == 0 ==> clz == 32)
    ensures NormalisedQ31(input, input * Pow2(clz - 1))
    ensures ToI32(input * Pow2(clz - 1)) == input * Pow2(clz - 1)
  {
    hide Pow2, ToI32, NormalisedQ31;
    if input != 0 {
      var m := Magnitude(input);
      Pow2Values();
      Pow2One();
      SignBits(m, clz, 1);
      ScaledMagnitude(input, m, Pow2(clz - 1));
      FullWidthQ31(input, m * Pow2(clz - 1));
    } else {
      ZeroScaled(Pow2(clz - 1));
      FullWidthQ31(0, 0);
    }
    SameI32(input * Pow2(clz - 1));
    SameU32(clz - 1);
  }

  lemma ScaledMagnitude(x: int, m: nat, scale: int)
    requires m == Magnitude(x)
    ensures x * scale == if x < 0 then -(m * scale) else m * scale
  {}

  lemma ZeroScaled(scale: int)
    ensures 0 * scale == 0
  {}

  lemma FullWidthQ31(input: int, m: int)
    requires if input == 0 then m == 0 else 0x8000_0000 <= m * 2 < 0x1_0000_0000
    ensures NormalisedQ31(input, if input < 0 then -m else m) && FitsI32(if input < 0 then -m else m)
  {}

  lemma Pow2One()
    ensures Pow2(1) == 2
  {}

  lemma IndexQ31(n: i32)
    ensures And(ToU32(n / 0x100_0000), INDEX_MASK) == n / 0x100_0000 % 64
  {
    hide And, ToU32;
    IndexMask(n / 0x100_0000);
  }

  lemma TwoStepsQ31(n: i32, first: i32)
    ensures RefinedQ31(n, first, 2) == NewtonQ31(n, NewtonQ31(n, first))
  {
    hide NewtonQ31;
    assert RefinedQ31(n, first, 1) == NewtonQ31(n, RefinedQ31(n, first, 0));
  }

  lemma TwoStepsQ15(n: i16, first: i16)
    ensures RefinedQ15(n, first, 2) == NewtonQ15(n, NewtonQ15(n, first))
  {
    hide NewtonQ15;
    assert RefinedQ15(n, first, 1) == NewtonQ15(n, RefinedQ15(n, first, 0));
  }

  lemma RefinedStartQ31(n: i32, first: i32)
    ensures RefinedQ31(n, first, 0) == first
  {}

  lemma RefinedNextQ31(n: i32, first: i32, k: nat)
    ensures RefinedQ31(n, first, k + 1) == NewtonQ31(n, RefinedQ31(n, first, k))
  {}

  lemma IndexMask(shifted: int)
    ensures And(ToU32(shifted), INDEX_MASK) == shifted % 64
  {
    hide And, Pow2;
    AndLowMask(ToU32(shifted), 6);
    Pow2Values();
  }

  // ---- Q15 ----

  /** One Q15 step without casts: the clip that is commented out in the source would do nothing. */
  lemma NewtonQ15Exact(n: i16, out: i16)
    requires 0x4000 <= n && 0 <= out
    ensures NewtonQ15(n, out) == (out * (0x7FFF - (n * out) / 0x8000)) / 0x4000 >= 0
    ensures NewtonQ15(n, out) == ClipQ31ToQ15((out * (0x7FFF - (n * out) / 0x8000)) / 0x4000)
    ensures NewtonQ15(n, out) as int * n < 0x2000_0000
    ensures (0x2000_0000 - n * NewtonQ15(n, out)) * 0x2000_0000
          < (0x2000_0000 - n * out) * (0x2000_0000 - n * out) + (0x2000_0000 + n * out) * 0x8000
  {
    var p: int := n * out;
    MulNonNegative(n, out);
    ProductBound(n, out, 0x7FFF, 0x7FFF);
    var f: int := 0x7FFF - p / 0x8000;
    assert 0 <= f <= 0x7FFF;
    var q: int := out * f;
    MulNonNegative(out, f);
    ProductBound(out, f, 0x7FFF, 0x7FFF);
    var r: int := q / 0x4000;
    StepFacts15(n, out, p, f, q, r);
    CodedStep15(n, out, p, q, r);
    ClipQ31ToQ15Saturates(r);
    hide ClipQ31ToQ15, NewtonQ15;
  }

  lemma StepFacts15(n: int, out: int, p: int, f: int, q: int, r: int)
    requires 0x4000 <= n < 0x8000 && 0 <= p == n * out && 0 <= q == out * f
    requires f == 0x7FFF - p / 0x8000 && r == q / 0x4000
    ensures n * r < 0x2000_0000 && 0 <= r < 0x8000
    ensures (0x2000_0000 - n * r) * 0x2000_0000
          < (0x2000_0000 - p) * (0x2000_0000 - p) + (0x2000_0000 + p) * 0x8000
  {
    var x, m := 0x8000 * f, n * r;
    assert p * f == n * q by { MulAssoc(n, out, f); }
    assert p * x == 0x8000 * (n * q);
    MulMono(r * 0x4000, q, n);
    MulMono(q, (r + 1) * 0x4000, n);
    assert r * 0x4000 * n == 0x4000 * m && (r + 1) * 0x4000 * n == 0x4000 * m + 0x4000 * n;
    NewtonUndershoots(0x2000_0000, p, x, m);
    NewtonSquaresError(0x2000_0000, p, x, m, n, 0x8000);
    MulMono(0x4000, n, r);
  }

  lemma CodedStep15(n: i16, out: i16, p: int, q: int, r: int)
    requires p == n * out && 0 <= p < 0x3FFF_8000
    requires q == out * (0x7FFF - p / 0x8000) && 0 <= q < 0x4000_0000
    requires r == q / 0x4000 && 0 <= r < 0x8000
    ensures NewtonQ15(n, out) == r
  {
    hide ToI32, ToU32, ToI16;
    var t: int := p / 0x8000;
    SameI32(p);
    SameU32(t);
    SameU32(0x7FFF - t);
    SameU32(q);
    SameI16(r);
  }

  function RefinedQ15(n: i16, first: i16, k: nat): i16 {
    if k == 0 then first else NewtonQ15(n, RefinedQ15(n, first, k - 1))
  }

  lemma {:induction false} RefinedQ15Below(n: i16, first: i16, k: nat)
    requires 0x4000 <= n && 0 <= first
    ensures 0 <= RefinedQ15(n, first, k)
    ensures k > 0 ==> n as int * RefinedQ15(n, first, k) < 0x2000_0000
  {
    if k != 0 {
      RefinedQ15Below(n, first, k - 1);
      NewtonQ15Exact(n, RefinedQ15(n, first, k - 1));
    }
  }

  predicate CloseQ15(n: int, first: int) {
    -0x80_0000 <= 0x2000_0000 - n * first <= 0x80_0000
  }

  /** In Q15 rounding dominates: a table accurate to 2^-6 gives a relative error below 2^-13 + 2^-22. */
  lemma TwoStepsConvergeQ15(n: i16, first: i16)
    requires 0x4000 <= n && 0 <= first && CloseQ15(n, first)
    ensures 0 < 0x2000_0000 - n as int * RefinedQ15(n, first, 2) < 0x1_0080
  {
    RefinedQ15Below(n, first, 1);
    var second := NewtonQ15(n, first);
    assert RefinedQ15(n, first, 1) == second by {
      hide NewtonQ15;
      assert RefinedQ15(n, first, 0) == first;
    }
    assert RefinedQ15(n, first, 2) == NewtonQ15(n, second) by {
      hide NewtonQ15;
    }
    NewtonQ15Exact(n, first);
    NewtonQ15Exact(n, second);
    var e0: int, e1: int, e2: int := 0x2000_0000 - n * first, 0x2000_0000 - n * second,
      0x2000_0000 - n * NewtonQ15(n, second);
    hide *;
    SquareBound(e0, 0x80_0000);
    assert e1 <= 0x3_0200;
    SquareBound(e1, 0x3_0200);
  }

  /** arm_recip_q15, scaled by 2^(ret-1) into [2^14, 2^15). A negative input takes the same steps, without
      the clip, so its result may wrap. The shift count for -2^15 would be negative, which C leaves undefined. */
  method RecipQ15(input: i16, recipTable: array<i16>) returns (dst: i16, ret: u32)
    requires input != -0x8000 && recipTable.Length == 64
    ensures 1 <= ret <= 16 && NormalisedQ15(input, input * Pow2(ret - 1))
    ensures (input > 0 ==> 0x4000 <= input * Pow2(ret - 1) < 0x8000) && (input == 0 ==> ret == 16)
    ensures input < 0 ==> -0x8000 < input * Pow2(ret - 1) <= -0x4000
    ensures var n := input * Pow2(ret - 1);
            var first := recipTable[n / 0x100 % 64];
            && dst == RefinedQ15(n, first, 2) == NewtonQ15(n, NewtonQ15(n, first))
            && (input > 0 && first >= 0 ==> 0 <= n * dst < 0x2000_0000)
            && (input > 0 && first >= 0 && -0x80_0000 <= 0x2000_0000 - n * first <= 0x80_0000 ==>
                  n * dst > 0x2000_0000 - 0x1_0080)
  {
    hide And, Pow2, ToI16, ToU32, NewtonQ15, RefinedQ15;
    var clz: u32;
    if input > 0 {
      clz := Clz(input);
    } else {
      clz := Clz(-(input as int));
    }
    ScaleQ15(input, clz);
    var signBits: u32 := ToU32(clz - 17);
    var n: i16 := ToI16(input * Pow2(signBits));
    var index := ToU32(n / 0x100);
    IndexMask(n / 0x100);
    index := And(index, INDEX_MASK);
    dst := recipTable[index];
    ghost var first := dst;
    var i := 0;
    RefinedStartQ15(n, first);
    while i < 2
      invariant 0 <= i <= 2 && dst == RefinedQ15(n, first, i)
    {
      RefinedNextQ15(n, first, i);
      dst := NewtonQ15(n, dst);
      i := i + 1;
    }
    TwoStepsQ15(n, first);
    if input > 0 && first >= 0 {
      RefinedQ15Below(n, first, 2);
      MulNonNegative(n, dst);
      if CloseQ15(n, first) {
        TwoStepsConvergeQ15(n, first);
      }
    }
    ret := signBits + 1;
  }

  predicate NormalisedQ15(input: int, n: int) {
    if input == 0 then n == 0
    else if input > 0 then 0x4000 <= n < 0x8000
    else -0x8000 < n <= -0x4000
  }

  lemma ScaleQ15(input: i16, clz: u32)
    requires input != -0x8000 && LeadingZeros(Magnitude(input), clz)
    ensures 17 <= clz <= 32 && ToU32(clz - 17) == clz - 17 && (input == 0 ==> clz == 32)
    ensures NormalisedQ15(input, input * Pow2(clz - 17))
    ensures ToI16(input * Pow2(clz - 17)) == input * Pow2(clz - 17)
  {
    assert Pow2(17) == 0x2_0000 by { Pow2Values(); }
    hide Pow2, ToI16, NormalisedQ15;
    if input != 0 {
      var m := Magnitude(input);
      Pow2Values();
      SignBits(m, clz, 17);
      ScaledMagnitude(input, m, Pow2(clz - 17));
      FullWidthQ15(input, m * Pow2(clz - 17));
    } else {
      ZeroScaled(Pow2(clz - 17));
      FullWidthQ15(0, 0);
    }
    SameI16(input * Pow2(clz - 17));
    SameU32(clz - 17);
  }

  lemma FullWidthQ15(input: int, m: int)
    requires if input == 0 then m == 0 else 0x8000_0000 <= m * 0x2_0000 < 0x1_0000_0000
    ensures NormalisedQ15(input, if input < 0 then -m else m) && FitsI16(if input < 0 then -m else m)
  {}

  lemma RefinedStartQ15(n: i16, first: i16)
    ensures RefinedQ15(n, first, 0) == first
  {}

  lemma RefinedNextQ15(n: i16, first: i16, k: nat)
    ensures RefinedQ15(n, first, k + 1) == NewtonQ15(n, RefinedQ15(n, first, k))
  {}
}
