/** Table interpolation of arm_math.h: inputs in 12.20 format, tables in Q31, Q15 or Q7. */
module LinearInterp {
  import opened Words
  import opened Bits
  import opened Saturation

  // (x & 0xFFF00000) >> 20 on a signed word
  function Index(x: i32): int { ToI32(And(ToU32(x), 0xFFF0_0000)) / 0x10_0000 }

  // x & 0x000FFFFF
  function Fraction(x: i32): nat { And(ToU32(x), 0xF_FFFF) }

  lemma MaskedParts(u: u32)
    ensures And(u, 0xFFF0_0000) == u - u % 0x10_0000 && And(u, 0xF_FFFF) == u % 0x10_0000
  {
    hide And, Pow2;
    Pow2Values();
    AndHighMask(u, 0xFFF0_0000, 20, 32);
    AndLowMask(u, 20);
  }

  lemma SignedParts(x: i32)
    ensures ToU32(x) % 0x10_0000 == x % 0x10_0000
    ensures ToI32(ToU32(x) - x % 0x10_0000) == x - x % 0x10_0000
  {
    assert ToU32(x) == if x < 0 then x + 0x1_0000_0000 else x;
    hide ToU32;
  }

  /** Index and fraction split the input at bit 20; the index keeps the sign. */
  lemma SplitInput(x: i32)
    ensures Index(x) == x / 0x10_0000 && Fraction(x) == x % 0x10_0000
    ensures x == Index(x) * 0x10_0000 + Fraction(x)
  {
    MaskedParts(ToU32(x));
    SignedParts(x);
    hide And, ToU32, ToI32;
    assert (x - x % 0x10_0000) / 0x10_0000 == x / 0x10_0000;
  }

  // ---- Q15 and Q7: the weights are (2^20 - 1) - fract and fract ----

  function InterpQ15(table: seq<i16>, x: i32): i16
    requires 0 < |table| <= 0x8000_0000
  {
    var index := Index(x);
    if index >= |table| - 1 then table[|table| - 1]
    else if index < 0 then table[0]
    else
      var fract := Fraction(x);
      var y0, y1 := table[index], table[index + 1];
      var y := ToI64(y0 * (0xF_FFFF - fract));
      ToI16(ToI64(y + ToI64(y1 * fract)) / 0x10_0000)
  }

  function InterpQ7(table: seq<i8>, x: i32): i8
    requires 0 < |table| < 0x1_0000_0000
  {
    if x < 0 then table[0]
    else
      var index := And(x / 0x10_0000, 0xFFF);
      if index >= |table| - 1 then table[|table| - 1]
      else
        var fract := Fraction(x);
        var y0, y1 := table[index], table[index + 1];
        var y := ToI32(y0 * (0xF_FFFF - fract));
        ToI8(ToI32(y + ToI32(y1 * fract)) / 0x10_0000)
  }

  /** The common core in exact integers. */
  function Blend(y0: int, y1: int, f: int): int { (y0 * (0xF_FFFF - f) + y1 * f) / 0x10_0000 }

  lemma BlendBetween(y0: int, y1: int, f: int)
    requires -0x8000 <= y0 < 0x8000 && -0x8000 <= y1 < 0x8000 && 0 <= f < 0x10_0000
    ensures Min(y0, y1) - 1 <= Blend(y0, y1, f) <= Max(y0, y1)
    ensures -0x8_0000_0000 <= y0 * (0xF_FFFF - f) + y1 * f < 0x8_0000_0000
  {
    var lo, hi, g := Min(y0, y1), Max(y0, y1), 0xF_FFFF - f;
    MulMono(lo, y0, g); MulMono(y0, hi, g);
    MulMono(lo, y1, f); MulMono(y1, hi, f);
    assert lo * g + lo * f == lo * 0xF_FFFF && hi * g + hi * f == hi * 0xF_FFFF;
  }

  /** Interpolation without widths: clamped below and above, blended in between. */
  function InterpExact(table: seq<int>, x: int): int
    requires 0 < |table|
  {
    var index := x / 0x10_0000;
    if index >= |table| - 1 then table[|table| - 1]
    else if index < 0 then table[0]
    else Blend(table[index], table[index + 1], x % 0x10_0000)
  }

  /** No cast of the Q15 routine changes a value. */
  lemma InterpQ15IsExact(table: seq<i16>, x: i32)
    requires 0 < |table| <= 0x8000_0000
    ensures InterpQ15(table, x) == InterpExact(table, x)
  {
    SplitInput(x);
    var index, fract := Index(x), Fraction(x);
    hide Index, Fraction, And, ToI16, ToI64, Blend;
    if 0 <= index < |table| - 1 {
      WideBlend(table[index], table[index + 1], fract);
    }
  }

  lemma WideBlend(y0: i16, y1: i16, f: int)
    requires 0 <= f < 0x10_0000
    ensures ToI16(ToI64(ToI64(y0 * (0xF_FFFF - f)) + ToI64(y1 * f)) / 0x10_0000) == Blend(y0, y1, f)
  {
    BlendBetween(y0, y1, f);
    ProductFits(y0, 0xF_FFFF - f, 0x8000);
    ProductFits(y1, f, 0x8000);
    hide ToI64, ToI16;
    SameI64(y0 * (0xF_FFFF - f));
    SameI64(y1 * f);
    SameI64(y0 * (0xF_FFFF - f) + y1 * f);
    SameI16(Blend(y0, y1, f));
  }

  lemma ProductFits(y: int, g: int, m: int)
    requires -m <= y <= m && 0 <= g < 0x10_0000
    ensures -(m * 0x10_0000) <= y * g <= m * 0x10_0000
  {
    ProductBound(y, g, m, 0x10_0000);
  }

  /** Nor does any cast of the Q7 routine, which works in 32 bits. */
  lemma InterpQ7IsExact(table: seq<i8>, x: i32)
    requires 0 < |table| < 0x1_0000_0000
    ensures InterpQ7(table, x) == InterpExact(table, x)
  {
    SplitInput(x);
    var index, fract := Index(x), Fraction(x);
    hide Index, Fraction, And, ToI8, ToI32, Blend;
    assert x < 0 <==> index < 0;
    if 0 <= x {
      UnsignedIndex(x);
    }
    if 0 <= index < |table| - 1 {
      NarrowBlend(table[index], table[index + 1], fract);
    }
  }

  lemma UnsignedIndex(x: i32)
    requires 0 <= x
    ensures And(x / 0x10_0000, 0xFFF) == x / 0x10_0000
  {
    hide And, Pow2;
    assert Pow2(12) == 0x1000 by {
      Pow2Add(8, 4);
      Pow2Values();
    }
    AndLowMask(x / 0x10_0000, 12);
  }

  lemma NarrowBlend(y0: i8, y1: i8, f: int)
    requires 0 <= f < 0x10_0000
    ensures ToI8(ToI32(ToI32(y0 * (0xF_FFFF - f)) + ToI32(y1 * f)) / 0x10_0000) == Blend(y0, y1, f)
  {
    var p0: int, p1: int := y0 * (0xF_FFFF - f), y1 * f;
    BlendBetween(y0, y1, f);
    LowestByte(y0, y1, f);
    assert Blend(y0, y1, f) == (p0 + p1) / 0x10_0000;
    ProductFits(y0, 0xF_FFFF - f, 0x80);
    ProductFits(y1, f, 0x80);
    hide *;
    SameI32(p0);
    SameI32(p1);
    SameI32(p0 + p1);
    SameByte((p0 + p1) / 0x10_0000);
  }

  lemma SameByte(x: int)
    requires -0x80 <= x < 0x80
    ensures ToI8(x) == x
  {}

  /** At the bottom of the range the blend does not leave the byte either. */
  lemma LowestByte(y0: i8, y1: i8, f: int)
    requires 0 <= f < 0x10_0000
    ensures Blend(y0, y1, f) >= -0x80
  {
    var g := 0xF_FFFF - f;
    MulMono(-0x80, y0, g);
    MulMono(-0x80, y1, f);
  }

  // ---- Range and order ----

  lemma BlendError(y0: int, y1: int, f: int)
    requires 0 <= f < 0x10_0000
    ensures var exact := y0 * (0x10_0000 - f) + y1 * f;
            -0x10_0000 - y0 < 0x10_0000 * Blend(y0, y1, f) - exact <= -y0
  {
    var sum := y0 * (0xF_FFFF - f) + y1 * f;
    assert y0 * (0x10_0000 - f) == y0 * (0xF_FFFF - f) + y0;
    FloorLoss(sum, sum / 0x10_0000);
  }

  lemma FloorLoss(sum: int, q: int)
    requires q == sum / 0x10_0000
    ensures -0x10_0000 < 0x10_0000 * q - sum <= 0
  {}

  /** Inside the table the Q15 result is exact rational interpolation, both scaled by 2^20, less the left
      entry and a rounding of less than one unit; outside it is the nearer end entry. */
  lemma InterpQ15Error(table: seq<i16>, x: i32)
    requires 0 < |table| <= 0x8000_0000
    ensures x / 0x10_0000 >= |table| - 1 ==> InterpQ15(table, x) == table[|table| - 1]
    ensures x < 0 && x / 0x10_0000 < |table| - 1 ==> InterpQ15(table, x) == table[0]
    ensures 0 <= x / 0x10_0000 < |table| - 1 ==>
              var y0: int, y1: int, f := table[x / 0x10_0000], table[x / 0x10_0000 + 1], x % 0x10_0000;
              -0x10_0000 - y0 < 0x10_0000 * (InterpQ15(table, x) as int) - (y0 * (0x10_0000 - f) + y1 * f) <= -y0
  {
    hide InterpQ15, Blend;
    InterpQ15IsExact(table, x);
    if 0 <= x / 0x10_0000 < |table| - 1 {
      BlendError(table[x / 0x10_0000], table[x / 0x10_0000 + 1], x % 0x10_0000);
    }
  }

  /** So does Q7. */
  lemma InterpQ7Error(table: seq<i8>, x: i32)
    requires 0 < |table| < 0x1_0000_0000
    ensures x / 0x10_0000 >= |table| - 1 ==> InterpQ7(table, x) == table[|table| - 1]
    ensures x < 0 && x / 0x10_0000 < |table| - 1 ==> InterpQ7(table, x) == table[0]
    ensures 0 <= x / 0x10_0000 < |table| - 1 ==>
              var y0: int, y1: int, f := table[x / 0x10_0000], table[x / 0x10_0000 + 1], x % 0x10_0000;
              -0x10_0000 - y0 < 0x10_0000 * (InterpQ7(table, x) as int) - (y0 * (0x10_0000 - f) + y1 * f) <= -y0
  {
    hide InterpQ7, Blend;
    InterpQ7IsExact(table, x);
    if 0 <= x / 0x10_0000 < |table| - 1 {
      BlendError(table[x / 0x10_0000], table[x / 0x10_0000 + 1], x % 0x10_0000);
    }
  }

  predicate Narrow(table: seq<int>) { forall i :: 0 <= i < |table| ==> -0x8000 <= table[i] < 0x8000 }

  predicate Sorted(table: seq<int>) { forall i, j :: 0 <= i < j < |table| ==> table[i] <= table[j] }

  /** Every interior result lies between its two table entries, at most one unit below. */
  lemma InterpBetween(table: seq<int>, x: int)
    requires 0 <= x / 0x10_0000 < |table| - 1 && Narrow(table)
    ensures var y0, y1 := table[x / 0x10_0000], table[x / 0x10_0000 + 1];
            Min(y0, y1) - 1 <= InterpExact(table, x) <= Max(y0, y1)
  {
    BlendBetween(table[x / 0x10_0000], table[x / 0x10_0000 + 1], x % 0x10_0000);
  }

  /** The value at a grid point, from either side: y * (2^20 - 1) >> 20. */
  function Edge(y: int): int { y * 0xF_FFFF / 0x10_0000 }

  lemma EdgeValue(y: int)
    requires -0x8000 <= y < 0x8000
    ensures Edge(y) == if y > 0 then y - 1 else y
  {}

  lemma BlendMonotone(y0: int, y1: int, f: int, g: int)
    requires y0 <= y1 && 0 <= f <= g < 0x10_0000
    ensures Edge(y0) <= Blend(y0, y1, f) <= Blend(y0, y1, g) <= Edge(y1)
  {
    BlendNumerator(y0, y1, f);
    BlendNumerator(y0, y1, g);
    MulMono(0, f, y1 - y0);
    MulMono(f, g, y1 - y0);
    MulMono(g, 0xF_FFFF, y1 - y0);
  }

  lemma BlendNumerator(y0: int, y1: int, f: int)
    ensures y0 * (0xF_FFFF - f) + y1 * f == y0 * 0xF_FFFF + f * (y1 - y0)
  {}

  /** Crossing grid points and the end clamp keeps the order. */
  lemma InterpMonotoneAbove(table: seq<int>, a: int, b: int)
    requires 0 < |table| && Narrow(table) && Sorted(table) && 0 <= a <= b
    ensures InterpExact(table, a) <= InterpExact(table, b)
  {
    var i, j := a / 0x10_0000, b / 0x10_0000;
    var f, g := a % 0x10_0000, b % 0x10_0000;
    hide Blend, Edge;
    if i < |table| - 1 {
      BlendMonotone(table[i], table[i + 1], f, if i == j then g else f);
      EdgeValue(table[i + 1]);
    }
    if i < j < |table| - 1 {
      BlendMonotone(table[j], table[j + 1], g, g);
      EdgeValue(table[j]);
    }
  }

  ghost predicate Monotone(table: seq<int>)
    requires 0 < |table|
  {
    forall a, b :: a <= b ==> InterpExact(table, a) <= InterpExact(table, b)
  }

  /** For a nondecreasing table the routine is nondecreasing over all inputs exactly when the first
      entry is not positive (or is the only one): below the range the entry itself is returned, and
      at zero one less. */
  lemma MonotoneExactly(table: seq<int>)
    requires 0 < |table| && Narrow(table) && Sorted(table)
    ensures Monotone(table) <==> table[0] <= 0 || |table| == 1
  {
    if |table| > 1 {
      BlendMonotone(table[0], table[1], 0, 0);
      EdgeValue(table[0]);
      assert Blend(table[0], table[1], 0) == Edge(table[0]);
      if table[0] > 0 {
        assert InterpExact(table, -1) > InterpExact(table, 0);
      } else {
        forall a, b | a <= b
          ensures InterpExact(table, a) <= InterpExact(table, b)
        {
          if a >= 0 {
            InterpMonotoneAbove(table, a, b);
          } else if b >= 0 {
            InterpMonotoneAbove(table, 0, b);
          }
        }
      }
    }
  }

  // ---- Q31: 1.31 weights, each product cut to its high word ----

  function InterpQ31(table: seq<i32>, x: i32): i32
    requires 0 < |table| <= 0x8000_0000
  {
    var index := Index(x);
    if index >= |table| - 1 then table[|table| - 1]
    else if index < 0 then table[0]
    else
      var fract := ToI32(Fraction(x) * 0x800);
      var y0, y1 := table[index], table[index + 1];
      var y := ToI32(ToI64(y0 * (0x7FFF_FFFF - fract)) / 0x1_0000_0000);
      var y' := ToI32(y + ToI32(ToI64(y1 * fract) / 0x1_0000_0000));
      ToI32(y' * 2)
  }

  /** Two high words of a product and its complement never leave 31 bits, even at the lowest entries. */
  lemma HighWordsFit(y0: int, y1: int, f: int)
    requires FitsI32(y0) && FitsI32(y1) && 0 <= f < 0x10_0000
    ensures FitsI64(y0 * (0x7FFF_FFFF - f * 0x800)) && FitsI64(y1 * (f * 0x800))
    ensures -0x4000_0000 <= y0 * (0x7FFF_FFFF - f * 0x800) / 0x1_0000_0000 + y1 * (f * 0x800) / 0x1_0000_0000 < 0x4000_0000
    ensures FitsI32(y0 * (0x7FFF_FFFF - f * 0x800) / 0x1_0000_0000)
    ensures FitsI32(y1 * (f * 0x800) / 0x1_0000_0000)
  {
    var w := 0x7FFF_FFFF - f * 0x800;
    MulMono(-0x8000_0000, y0, w); MulMono(y0, 0x7FFF_FFFF, w);
    MulMono(-0x8000_0000, y1, f * 0x800); MulMono(y1, 0x7FFF_FFFF, f * 0x800);
  }

  /** The result against exact rational interpolation, both scaled by 2^20: more than five units
      below and at most one above is impossible; the offset depends on the left entry only. */
  lemma InterpQ31Error(table: seq<i32>, x: i32)
    requires 0 < |table| <= 0x8000_0000 && 0 <= Index(x) < |table| - 1
    ensures Index(x) == x / 0x10_0000 && Fraction(x) == x % 0x10_0000
    ensures var y0: int, y1: int, w := table[x / 0x10_0000], table[x / 0x10_0000 + 1], x % 0x10_0000 * 0x800;
            InterpQ31(table, x) == 2 * (y0 * (0x7FFF_FFFF - w) / 0x1_0000_0000 + y1 * w / 0x1_0000_0000)
    ensures var y0, y1 := table[Index(x)], table[Index(x) + 1];
            var exact: int := y0 * (0x10_0000 - Fraction(x)) + y1 * Fraction(x);
            && -0x40_0000 * 0x800 - y0 < (0x10_0000 * InterpQ31(table, x) as int - exact) * 0x800 <= -(y0 as int)
            && -5 * 0x10_0000 < 0x10_0000 * InterpQ31(table, x) as int - exact <= 0x10_0000
  {
    SplitInput(x);
    InterpQ31Is(table, x);
    hide *;
    ErrorQ31(table[x / 0x10_0000], table[x / 0x10_0000 + 1], x % 0x10_0000);
  }

  lemma InterpQ31Is(table: seq<i32>, x: i32)
    requires 0 < |table| <= 0x8000_0000 && 0 <= x / 0x10_0000 < |table| - 1
    ensures var y0: int, y1: int, w := table[x / 0x10_0000], table[x / 0x10_0000 + 1], x % 0x10_0000 * 0x800;
            InterpQ31(table, x) == 2 * (y0 * (0x7FFF_FFFF - w) / 0x1_0000_0000 + y1 * w / 0x1_0000_0000)
  {
    SplitInput(x);
    hide Index, Fraction, ToI32, ToI64;
    CodedQ31(table[x / 0x10_0000], table[x / 0x10_0000 + 1], x % 0x10_0000);
  }

  /** Outside the table the Q31 result is the nearer end entry. */
  lemma InterpQ31Ends(table: seq<i32>, x: i32)
    requires 0 < |table| <= 0x8000_0000
    ensures x / 0x10_0000 >= |table| - 1 ==> InterpQ31(table, x) == table[|table| - 1]
    ensures x < 0 && x / 0x10_0000 < |table| - 1 ==> InterpQ31(table, x) == table[0]
  {
    SplitInput(x);
    hide Index, Fraction;
  }

  lemma CodedQ31(y0: int, y1: int, f: int)
    requires FitsI32(y0) && FitsI32(y1) && 0 <= f < 0x10_0000
    ensures ToI32(f * 0x800) == f * 0x800
    ensures ToI32(ToI32(ToI32(ToI64(y0 * (0x7FFF_FFFF - f * 0x800)) / 0x1_0000_0000)
                        + ToI32(ToI64(y1 * (f * 0x800)) / 0x1_0000_0000)) * 2)
         == 2 * (y0 * (0x7FFF_FFFF - f * 0x800) / 0x1_0000_0000 + y1 * (f * 0x800) / 0x1_0000_0000)
  {
    hide ToI32, ToI64;
    SameI32(f * 0x800);
    HighWordsFit(y0, y1, f);
    SumOfHighWords(y0 * (0x7FFF_FFFF - f * 0x800), y1 * (f * 0x800));
  }

  lemma SumOfHighWords(p: int, q: int)
    requires FitsI64(p) && FitsI64(q) && FitsI32(p / 0x1_0000_0000) && FitsI32(q / 0x1_0000_0000)
    requires -0x4000_0000 <= p / 0x1_0000_0000 + q / 0x1_0000_0000 < 0x4000_0000
    ensures ToI32(ToI32(ToI32(ToI64(p) / 0x1_0000_0000) + ToI32(ToI64(q) / 0x1_0000_0000)) * 2)
         == 2 * (p / 0x1_0000_0000 + q / 0x1_0000_0000)
  {
    SameI64(p);
    SameI64(q);
    var h, l := p / 0x1_0000_0000, q / 0x1_0000_0000;
    hide *;
    SameI32(h);
    SameI32(l);
    SameI32(h + l);
    SameI32((h + l) * 2);
  }

  lemma ErrorQ31(y0: int, y1: int, f: int)
    requires FitsI32(y0)
    ensures var r := 2 * (y0 * (0x7FFF_FFFF - f * 0x800) / 0x1_0000_0000 + y1 * (f * 0x800) / 0x1_0000_0000);
            var exact := y0 * (0x10_0000 - f) + y1 * f;
            && -0x40_0000 * 0x800 - y0 < (0x10_0000 * r - exact) * 0x800 <= -y0
            && -5 * 0x10_0000 < 0x10_0000 * r - exact <= 0x10_0000
  {
    var a, b := y0 * f, y1 * f;
    assert y0 * (0x7FFF_FFFF - f * 0x800) == 0x7FFF_FFFF * y0 - 0x800 * a;
    assert y1 * (f * 0x800) == 0x800 * b;
    assert y0 * (0x10_0000 - f) == 0x10_0000 * y0 - a;
  }
}
