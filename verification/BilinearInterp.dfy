/** Bilinear table interpolation of arm_math.h in Q15 and Q7. */
module BilinearInterp {
  import opened Words
  import opened Saturation
  import LinearInterp

  datatype Instance<+T> = Instance(numRows: u16, numCols: u16, pData: seq<T>)

  /** The guard that makes the routine return zero. */
  predicate Outside<T>(s: Instance<T>, x: i32, y: i32) {
    var rI, cI := LinearInterp.Index(x), LinearInterp.Index(y);
    rI < 0 || rI > s.numRows - 1 || cI < 0 || cI > s.numCols - 1
  }

  /** The cell (rI, cI) starts at pData[rI + numCols * cI]; the farthest read is one row and one entry on. */
  predicate ReadsInRange<T>(s: Instance<T>, x: i32, y: i32) {
    LinearInterp.Index(x) + s.numCols * (LinearInterp.Index(y) + 1) + 1 < |s.pData|
  }

  datatype Cell = Cell(x1: int, x2: int, y1: int, y2: int, xfract: int, yfract: int)

  function CellOf(s: Instance<int>, x: i32, y: i32): Cell
    requires !Outside(s, x, y) && ReadsInRange(s, x, y)
  {
    var rI, cI := LinearInterp.Index(x), LinearInterp.Index(y);
    CellReads(rI, cI, s.numCols);
    Cell(s.pData[rI + s.numCols * cI], s.pData[rI + s.numCols * cI + 1],
         s.pData[rI + s.numCols * (cI + 1)], s.pData[rI + s.numCols * (cI + 1) + 1],
         LinearInterp.Fraction(x), LinearInterp.Fraction(y))
  }

  lemma CellReads(rI: int, cI: int, numCols: int)
    requires 0 <= rI && 0 <= cI && 0 <= numCols
    ensures 0 <= rI + numCols * cI <= rI + numCols * (cI + 1)
  {
    MulNonNegative(numCols, cI);
    assert numCols * (cI + 1) == numCols * cI + numCols;
  }

  const ONE: int := 0xF_FFFF

  // out = (q31_t) (((q63_t) v * u) >> 4u); (q63_t) out * w
  function TermQ15(v: int, u: int, w: int): int { ToI32(ToI64(v * u) / 16) * w }

  // out = v * u; (q63_t) out * w
  function TermQ7(v: int, u: int, w: int): int { ToI32(v * u) * w }

  // acc = a; acc += b; acc += c; acc += d
  function Total(a: int, b: int, c: int, d: int): i64 {
    ToI64(ToI64(ToI64(ToI64(a) + ToI64(b)) + ToI64(c)) + ToI64(d))
  }

  function BlendQ15(c: Cell): i16 {
    var acc := Total(TermQ15(c.x1, ONE - c.xfract, ONE - c.yfract), TermQ15(c.x2, ONE - c.yfract, c.xfract),
                     TermQ15(c.y1, ONE - c.xfract, c.yfract), TermQ15(c.y2, c.xfract, c.yfract));
    ToI16(acc / 0x10_0000_0000)
  }

  function BlendQ7(c: Cell): i8 {
    var acc := Total(TermQ7(c.x1, ONE - c.xfract, ONE - c.yfract), TermQ7(c.x2, ONE - c.yfract, c.xfract),
                     TermQ7(c.y1, ONE - c.xfract, c.yfract), TermQ7(c.y2, c.yfract, c.xfract));
    ToI8(acc / 0x100_0000_0000)
  }

  function InterpQ15(s: Instance<i16>, x: i32, y: i32): i16
    requires Outside(s, x, y) || ReadsInRange(s, x, y)
  {
    if Outside(s, x, y) then 0 else BlendQ15(CellOf(s, x, y))
  }

  function InterpQ7(s: Instance<i8>, x: i32, y: i32): i8
    requires Outside(s, x, y) || ReadsInRange(s, x, y)
  {
    if Outside(s, x, y) then 0 else BlendQ7(CellOf(s, x, y))
  }

  function Lowest(c: Cell): int { Min(Min(c.x1, c.x2), Min(c.y1, c.y2)) }

  function Highest(c: Cell): int { Max(Max(c.x1, c.x2), Max(c.y1, c.y2)) }

  predicate Fractions(c: Cell) { 0 <= c.xfract <= ONE && 0 <= c.yfract <= ONE }

  // ---- The weighted sum in exact integers ----

  function TermExact(v: int, u: int, w: int): int { v * u * w }

  /** One corner with its two weights, bounded by the lowest and highest corner. */
  lemma Corner(v: int, u: int, w: int, lo: int, hi: int)
    requires lo <= v <= hi && 0 <= u && 0 <= w
    ensures lo * (u * w) <= TermExact(v, u, w) <= hi * (u * w)
  {
    MulNonNegative(u, w);
    MulMono(lo, v, u * w);
    MulMono(v, hi, u * w);
    MulAssoc(v, u, w);
  }

  /** The four weights add up to the square of one. */
  lemma WeightsAddUp(x: int, y: int, one: int, m: int)
    ensures m * ((one - x) * (one - y)) + m * ((one - y) * x) + m * ((one - x) * y) + m * (x * y) == m * (one * one)
  {
    var a, b, c, d := (one - x) * (one - y), (one - y) * x, (one - x) * y, x * y;
    assert a == one * one - one * x - one * y + d && b == one * x - d && c == one * y - d by {
      assert y * x == x * y;
    }
    assert m * a + m * b + m * c + m * d == m * (a + b + c + d);
  }

  function WeightedSum(c: Cell): int {
    TermExact(c.x1, ONE - c.xfract, ONE - c.yfract) + TermExact(c.x2, ONE - c.yfract, c.xfract)
      + TermExact(c.y1, ONE - c.xfract, c.yfract) + TermExact(c.y2, c.xfract, c.yfract)
  }

  lemma WeightedSumBounds(c: Cell)
    requires Fractions(c)
    ensures Lowest(c) * (ONE * ONE) <= WeightedSum(c) <= Highest(c) * (ONE * ONE)
  {
    var lo, hi, x, y := Lowest(c), Highest(c), c.xfract, c.yfract;
    Corner(c.x1, ONE - x, ONE - y, lo, hi);
    Corner(c.x2, ONE - y, x, lo, hi);
    Corner(c.y1, ONE - x, y, lo, hi);
    Corner(c.y2, x, y, lo, hi);
    WeightsAddUp(x, y, ONE, lo);
    WeightsAddUp(x, y, ONE, hi);
    hide TermExact;
  }

  /** On a plane the weighted sum follows the x fraction along a row and the y fraction across rows. */
  lemma WeightedSumPlane(c: Cell)
    requires c.x2 - c.x1 == c.y2 - c.y1
    ensures WeightedSum(c) == ONE * (ONE * c.x1 + (c.x2 - c.x1) * c.xfract + (c.y1 - c.x1) * c.yfract)
  {
    var v, p, q, x, y := c.x1, c.x2 - c.x1, c.y1 - c.x1, c.xfract, c.yfract;
    PlaneTerms(v, p, q, x, y, ONE);
    hide TermExact;
  }

  lemma PlaneTerms(v: int, p: int, q: int, x: int, y: int, one: int)
    ensures TermExact(v, one - x, one - y) + TermExact(v + p, one - y, x) + TermExact(v + q, one - x, y) + TermExact(v + p + q, x, y)
         == one * (one * v + p * x + q * y)
  {
    var a, b, c, d := (one - x) * (one - y), (one - y) * x, (one - x) * y, x * y;
    TermProduct(v, one - x, one - y);
    TermProduct(v + p, one - y, x);
    TermProduct(v + q, one - x, y);
    TermProduct(v + p + q, x, y);
    hide TermExact;
    WeightPairs(x, y, one);
    SharedTerms(v, p, q, a, b, c, d);
    SlopedSum(v, p, q, x, y, one);
  }

  lemma TermProduct(v: int, u: int, w: int)
    ensures TermExact(v, u, w) == v * (u * w)
  {
    MulAssoc(v, u, w);
  }

  /** The weights by column, by row and in all. */
  lemma WeightPairs(x: int, y: int, one: int)
    ensures (one - y) * x + x * y == one * x && (one - x) * y + x * y == one * y
    ensures (one - x) * (one - y) + (one - y) * x + (one - x) * y + x * y == one * one
  {
    assert (one - y) * x == one * x - y * x && (one - x) * y == one * y - x * y && y * x == x * y;
    assert (one - x) * (one - y) == one * (one - y) - x * (one - y);
    assert one * (one - y) == one * one - one * y && x * (one - y) == (one - y) * x;
  }

  lemma SharedTerms(v: int, p: int, q: int, a: int, b: int, c: int, d: int)
    ensures v * a + (v + p) * b + (v + q) * c + (v + p + q) * d == v * (a + b + c + d) + p * (b + d) + q * (c + d)
  {}

  lemma SlopedSum(v: int, p: int, q: int, x: int, y: int, one: int)
    ensures v * (one * one) + p * (one * x) + q * (one * y) == one * (one * v + p * x + q * y)
  {
    assert v * (one * one) == one * (one * v);
    assert p * (one * x) == one * (p * x) && q * (one * y) == one * (q * y);
  }

  predicate TermRange(t: int) { -0x800_0000_0000_0000 <= t <= 0x800_0000_0000_0000 }

  lemma TotalFits(a: int, b: int, c: int, d: int)
    requires TermRange(a) && TermRange(b) && TermRange(c) && TermRange(d)
    ensures Total(a, b, c, d) == a + b + c + d
  {
    hide ToI64;
    SameI64(a);
    SameI64(b);
    SameI64(c);
    SameI64(d);
    SameI64(a + b);
    SameI64(a + b + c);
    SameI64(a + b + c + d);
  }

  // ---- Q7 ----

  lemma TermQ7Exact(v: int, u: int, w: int)
    requires -0x80 <= v < 0x80 && 0 <= u <= ONE && 0 <= w <= ONE
    ensures TermQ7(v, u, w) == TermExact(v, u, w) && TermRange(TermQ7(v, u, w))
  {
    ProductBound(v, u, 0x80, ONE);
    ProductBound(v * u, w, 0x80 * ONE, ONE);
    SameI32(v * u);
    hide ToI32;
  }

  /** No width is left on the way: the result is the weighted sum, shifted. */
  lemma BlendQ7Exact(c: Cell)
    requires Fractions(c) && -0x80 <= Lowest(c) && Highest(c) < 0x80
    ensures BlendQ7(c) == ToI8(WeightedSum(c) / 0x100_0000_0000)
  {
    hide TermQ7, TermExact, ToI8, ToI64, Total, TermRange;
    var x, y := c.xfract, c.yfract;
    TermQ7Exact(c.x1, ONE - x, ONE - y);
    TermQ7Exact(c.x2, ONE - y, x);
    TermQ7Exact(c.y1, ONE - x, y);
    TermQ7Exact(c.y2, y, x);
    SwapWeights(c.y2, x, y);
    TotalFits(TermQ7(c.x1, ONE - x, ONE - y), TermQ7(c.x2, ONE - y, x), TermQ7(c.y1, ONE - x, y), TermQ7(c.y2, y, x));
  }

  lemma SwapWeights(v: int, x: int, y: int)
    ensures TermExact(v, y, x) == TermExact(v, x, y)
  {
    MulAssoc(v, x, y);
    MulAssoc(v, y, x);
  }

  lemma BlendQ7Between(c: Cell)
    requires Fractions(c) && -0x80 <= Lowest(c) && Highest(c) < 0x80
    ensures Lowest(c) - 1 <= BlendQ7(c) <= Highest(c) && BlendQ7(c) == WeightedSum(c) / 0x100_0000_0000
  {
    WeightedSumBounds(c);
    BlendQ7Exact(c);
    var s, lo, hi := WeightedSum(c), Lowest(c), Highest(c);
    hide *;
    ShiftedQ7(s, lo, hi);
    LinearInterp.SameByte(s / 0x100_0000_0000);
  }

  lemma ShiftedQ7(s: int, lo: int, hi: int)
    requires -0x80 <= lo && hi < 0x80 && lo * (ONE * ONE) <= s <= hi * (ONE * ONE)
    ensures Max(-0x80, lo - 1) <= s / 0x100_0000_0000 <= hi
  {}

  // ---- Q15: each first product loses its low four bits ----

  lemma TermQ15Cut(v: int, u: int, w: int)
    requires -0x8000 <= v < 0x8000 && 0 <= u <= ONE && 0 <= w <= ONE
    ensures TermExact(v, u, w) - 15 * w <= 16 * TermQ15(v, u, w) <= TermExact(v, u, w)
    ensures TermRange(TermQ15(v, u, w)) && TermQ15(v, u, w) == v * u / 16 * w
  {
    var p := v * u;
    var q := p / 16;
    ProductBound(v, u, 0x8000, ONE);
    SameI64(p);
    SameI32(q);
    hide ToI32, ToI64;
    MulMono(p - 15, 16 * q, w);
    MulMono(16 * q, p, w);
    assert 16 * q * w == 16 * (q * w) && (p - 15) * w == p * w - 15 * w;
    ProductBound(q, w, 0x8000_0000, ONE);
  }

  lemma BlendQ15Sum(c: Cell) returns (acc: int)
    requires Fractions(c) && -0x8000 <= Lowest(c) && Highest(c) < 0x8000
    ensures WeightedSum(c) - 60 * ONE <= 16 * acc <= WeightedSum(c)
    ensures BlendQ15(c) == ToI16(acc / 0x10_0000_0000)
    ensures acc == c.x1 * (0xF_FFFF - c.xfract) / 16 * (0xF_FFFF - c.yfract) + c.x2 * (0xF_FFFF - c.yfract) / 16 * c.xfract
                   + c.y1 * (0xF_FFFF - c.xfract) / 16 * c.yfract + c.y2 * c.xfract / 16 * c.yfract
  {
    hide TermQ15, TermExact, ToI16, ToI64, Total, TermRange;
    var x, y := c.xfract, c.yfract;
    var a, b, d, e := TermQ15(c.x1, ONE - x, ONE - y), TermQ15(c.x2, ONE - y, x), TermQ15(c.y1, ONE - x, y),
      TermQ15(c.y2, x, y);
    TermQ15Cut(c.x1, ONE - x, ONE - y);
    TermQ15Cut(c.x2, ONE - y, x);
    TermQ15Cut(c.y1, ONE - x, y);
    TermQ15Cut(c.y2, x, y);
    TotalFits(a, b, d, e);
    acc := a + b + d + e;
  }

  /** No cast changes a value: four products, each less its low four bits before the second factor. */
  lemma BlendQ15Exact(c: Cell)
    requires Fractions(c) && -0x8000 <= Lowest(c) && Highest(c) < 0x8000
    ensures var fx, fy := c.xfract, c.yfract;
            BlendQ15(c) == (c.x1 * (0xF_FFFF - fx) / 16 * (0xF_FFFF - fy) + c.x2 * (0xF_FFFF - fy) / 16 * fx
                            + c.y1 * (0xF_FFFF - fx) / 16 * fy + c.y2 * fx / 16 * fy) / 0x10_0000_0000
  {
    var acc := BlendQ15Sum(c);
    var s, lo, hi := WeightedSum(c), Lowest(c), Highest(c);
    WeightedSumBounds(c);
    hide *;
    ShiftedQ15(s, acc, lo, hi);
    SameI16(acc / 0x10_0000_0000);
  }

  lemma BlendQ15Between(c: Cell)
    requires Fractions(c) && -0x8000 <= Lowest(c) && Highest(c) < 0x8000
    ensures Lowest(c) - 1 <= BlendQ15(c) <= Highest(c)
    ensures (WeightedSum(c) - 60 * ONE) / 0x100_0000_0000 <= BlendQ15(c) <= WeightedSum(c) / 0x100_0000_0000
  {
    WeightedSumBounds(c);
    var acc := BlendQ15Sum(c);
    var s, lo, hi := WeightedSum(c), Lowest(c), Highest(c);
    hide *;
    ShiftedQ15(s, acc, lo, hi);
    SameI16(acc / 0x10_0000_0000);
  }

  /** Above the lowest corner by rounding only; at the bottom of the range the weights, which add up
      to less than 2^40, leave enough room. */
  lemma ShiftedQ15(s: int, acc: int, lo: int, hi: int)
    requires -0x8000 <= lo && hi < 0x8000 && lo * (ONE * ONE) <= s <= hi * (ONE * ONE)
    requires s - 60 * ONE <= 16 * acc <= s
    ensures Max(-0x8000, lo - 1) <= acc / 0x10_0000_0000 <= hi
    ensures (s - 60 * ONE) / 0x100_0000_0000 <= acc / 0x10_0000_0000 <= s / 0x100_0000_0000
  {}

  // ---- The routines ----

  lemma CellFractions(s: Instance<int>, x: i32, y: i32)
    requires !Outside(s, x, y) && ReadsInRange(s, x, y)
    ensures Fractions(CellOf(s, x, y))
  {
    LinearInterp.SplitInput(x);
    LinearInterp.SplitInput(y);
    hide LinearInterp.Index, LinearInterp.Fraction;
  }

  lemma CornersWithin(s: Instance<int>, x: i32, y: i32, lo: int, hi: int)
    requires !Outside(s, x, y) && ReadsInRange(s, x, y)
    requires forall i :: 0 <= i < |s.pData| ==> lo <= s.pData[i] <= hi
    ensures lo <= Lowest(CellOf(s, x, y)) && Highest(CellOf(s, x, y)) <= hi
  {
    hide LinearInterp.Index, LinearInterp.Fraction, Lowest, Highest;
    CellReads(LinearInterp.Index(x), LinearInterp.Index(y), s.numCols);
    CellWithin(CellOf(s, x, y), lo, hi);
  }

  lemma CellWithin(c: Cell, lo: int, hi: int)
    requires lo <= c.x1 <= hi && lo <= c.x2 <= hi && lo <= c.y1 <= hi && lo <= c.y2 <= hi
    ensures lo <= Lowest(c) && Highest(c) <= hi
  {}

  /** Inside the table the Q15 routine stays between the lowest corner, less one, and the highest. */
  lemma InterpQ15Between(s: Instance<i16>, x: i32, y: i32)
    requires !Outside(s, x, y) && ReadsInRange(s, x, y)
    ensures Lowest(CellOf(s, x, y)) - 1 <= InterpQ15(s, x, y) <= Highest(CellOf(s, x, y))
  {
    var c := CellOf(s, x, y);
    assert InterpQ15(s, x, y) == BlendQ15(c);
    CellFractions(s, x, y);
    CornersWithin(s, x, y, -0x8000, 0x7FFF);
    hide *;
    BlendQ15Between(c);
  }

  /** So does the Q7 routine. */
  lemma InterpQ7Between(s: Instance<i8>, x: i32, y: i32)
    requires !Outside(s, x, y) && ReadsInRange(s, x, y)
    ensures Lowest(CellOf(s, x, y)) - 1 <= InterpQ7(s, x, y) <= Highest(CellOf(s, x, y))
  {
    var c := CellOf(s, x, y);
    assert InterpQ7(s, x, y) == BlendQ7(c);
    CellFractions(s, x, y);
    CornersWithin(s, x, y, -0x80, 0x7F);
    hide *;
    BlendQ7Between(c);
  }

  /** A point is admitted when both integer coordinates name a row and a column. */
  lemma OutsideIs<T>(s: Instance<T>, x: i32, y: i32)
    ensures Outside(s, x, y) <==> x < 0 || x / 0x10_0000 >= s.numRows || y < 0 || y / 0x10_0000 >= s.numCols
    ensures ReadsInRange(s, x, y) <==> x / 0x10_0000 + s.numCols * (y / 0x10_0000 + 1) + 1 < |s.pData|
  {
    LinearInterp.SplitInput(x);
    LinearInterp.SplitInput(y);
    hide LinearInterp.Index, LinearInterp.Fraction;
  }

  lemma OutsideIsZero(s: Instance<i16>, t: Instance<i8>, x: i32, y: i32)
    ensures x < 0 || x / 0x10_0000 >= s.numRows || y < 0 || y / 0x10_0000 >= s.numCols ==>
              Outside(s, x, y) && InterpQ15(s, x, y) == 0
    ensures x < 0 || x / 0x10_0000 >= t.numRows || y < 0 || y / 0x10_0000 >= t.numCols ==>
              Outside(t, x, y) && InterpQ7(t, x, y) == 0
  {
    OutsideIs(s, x, y);
    OutsideIs(t, x, y);
    hide Outside, ReadsInRange;
  }

  /** The four entries around an admitted point, two in its row and two in the next, and its fractions. */
  lemma CellIs(s: Instance<int>, x: i32, y: i32)
    requires !Outside(s, x, y) && ReadsInRange(s, x, y)
    ensures var i, j, n := x / 0x10_0000, y / 0x10_0000, s.numCols;
            && 0 <= i + n * j && i + n * j + 1 < |s.pData| && 0 <= i + n * (j + 1) && i + n * (j + 1) + 1 < |s.pData|
            && CellOf(s, x, y) == Cell(s.pData[i + n * j], s.pData[i + n * j + 1],
                                       s.pData[i + n * (j + 1)], s.pData[i + n * (j + 1) + 1],
                                       x % 0x10_0000, y % 0x10_0000)
  {
    LinearInterp.SplitInput(x);
    LinearInterp.SplitInput(y);
    hide LinearInterp.Index, LinearInterp.Fraction;
    CellReads(x / 0x10_0000, y / 0x10_0000, s.numCols);
  }

  /** The Q15 routine on an admitted point, from the table itself. */
  lemma InterpQ15Is(s: Instance<i16>, x: i32, y: i32)
    requires 0 <= x && x / 0x10_0000 < s.numRows && 0 <= y && y / 0x10_0000 < s.numCols
    requires x / 0x10_0000 + s.numCols * (y / 0x10_0000 + 1) + 1 < |s.pData|
    ensures !Outside(s, x, y) && ReadsInRange(s, x, y)
    ensures var i, j, n := x / 0x10_0000, y / 0x10_0000, s.numCols;
            && 0 <= i + n * j && i + n * j + 1 < |s.pData| && 0 <= i + n * (j + 1) && i + n * (j + 1) + 1 < |s.pData|
            && var a: int, b: int := s.pData[i + n * j], s.pData[i + n * j + 1];
            var c: int, d: int := s.pData[i + n * (j + 1)], s.pData[i + n * (j + 1) + 1];
            var fx, fy := x % 0x10_0000, y % 0x10_0000;
            InterpQ15(s, x, y) == (a * (0xF_FFFF - fx) / 16 * (0xF_FFFF - fy) + b * (0xF_FFFF - fy) / 16 * fx
                                   + c * (0xF_FFFF - fx) / 16 * fy + d * fx / 16 * fy) / 0x10_0000_0000
  {
    OutsideIs(s, x, y);
    CellIs(s, x, y);
    CellFractions(s, x, y);
    CornersWithin(s, x, y, -0x8000, 0x7FFF);
    hide CellOf, BlendQ15, Lowest, Highest, Fractions;
    BlendQ15Exact(CellOf(s, x, y));
  }

  /** The Q7 routine on an admitted point, from the table itself. */
  lemma InterpQ7Is(s: Instance<i8>, x: i32, y: i32)
    requires 0 <= x && x / 0x10_0000 < s.numRows && 0 <= y && y / 0x10_0000 < s.numCols
    requires x / 0x10_0000 + s.numCols * (y / 0x10_0000 + 1) + 1 < |s.pData|
    ensures !Outside(s, x, y) && ReadsInRange(s, x, y)
    ensures var i, j, n := x / 0x10_0000, y / 0x10_0000, s.numCols;
            && 0 <= i + n * j && i + n * j + 1 < |s.pData| && 0 <= i + n * (j + 1) && i + n * (j + 1) + 1 < |s.pData|
            && var a: int, b: int := s.pData[i + n * j], s.pData[i + n * j + 1];
            var c: int, d: int := s.pData[i + n * (j + 1)], s.pData[i + n * (j + 1) + 1];
            var fx, fy := x % 0x10_0000, y % 0x10_0000;
            InterpQ7(s, x, y) == (a * (0xF_FFFF - fx) * (0xF_FFFF - fy) + b * (0xF_FFFF - fy) * fx
                                  + c * (0xF_FFFF - fx) * fy + d * fx * fy) / 0x100_0000_0000
  {
    OutsideIs(s, x, y);
    CellIs(s, x, y);
    CellFractions(s, x, y);
    CornersWithin(s, x, y, -0x80, 0x7F);
    WeightedSumIs(CellOf(s, x, y));
    hide CellOf, BlendQ7, Lowest, Highest, Fractions, WeightedSum;
    BlendQ7Between(CellOf(s, x, y));
  }

  lemma WeightedSumIs(c: Cell)
    ensures WeightedSum(c) == c.x1 * (0xF_FFFF - c.xfract) * (0xF_FFFF - c.yfract) + c.x2 * (0xF_FFFF - c.yfract) * c.xfract
                              + c.y1 * (0xF_FFFF - c.xfract) * c.yfract + c.y2 * c.xfract * c.yfract
  {}

  /** A cell on the plane v + p * i + q * j. */
  predicate OnPlane(c: Cell, v: int, p: int, q: int) {
    c.x1 == v && c.x2 == v + p && c.y1 == v + q && c.y2 == v + p + q
  }

  /** The four entries around (x, y) lie on the plane. */
  predicate PlaneAround(s: Instance<int>, x: i32, y: i32, v: int, p: int, q: int) {
    var i, j, n := x / 0x10_0000, y / 0x10_0000, s.numCols;
    && 0 <= i + n * j && i + n * j + 1 < |s.pData| && 0 <= i + n * (j + 1) && i + n * (j + 1) + 1 < |s.pData|
    && s.pData[i + n * j] == v && s.pData[i + n * j + 1] == v + p
    && s.pData[i + n * (j + 1)] == v + q && s.pData[i + n * (j + 1) + 1] == v + p + q
  }

  lemma PlaneCell(s: Instance<int>, x: i32, y: i32, v: int, p: int, q: int)
    requires !Outside(s, x, y) && ReadsInRange(s, x, y) && PlaneAround(s, x, y, v, p, q)
    ensures OnPlane(CellOf(s, x, y), v, p, q)
  {
    hide CellOf, Outside, ReadsInRange;
    CellIs(s, x, y);
  }

  /** The exact value on the plane lies between the corners, both scaled by 2^20. */
  lemma PlaneBetween(c: Cell, v: int, p: int, q: int)
    requires Fractions(c) && OnPlane(c, v, p, q)
    ensures 0x10_0000 * Lowest(c) <= 0x10_0000 * v + p * c.xfract + q * c.yfract <= 0x10_0000 * Highest(c)
  {
    SlopeBetween(p, c.xfract);
    SlopeBetween(q, c.yfract);
  }

  lemma SlopeBetween(p: int, f: int)
    requires 0 <= f < 0x10_0000
    ensures 0x10_0000 * Min(p, 0) <= p * f <= 0x10_0000 * Max(p, 0)
  {
    if p >= 0 {
      MulNonNegative(p, f);
      MulMono(f, 0x10_0000, p);
      assert f * p == p * f;
    } else {
      MulNonNegative(-p, f);
      MulMono(f, 0x10_0000, -p);
      assert f * -p == -(p * f);
    }
  }

  /** The weighted sum of a plane cell against its exact value. */
  lemma PlaneSum(c: Cell, v: int, p: int, q: int)
    requires Fractions(c) && OnPlane(c, v, p, q)
    ensures var e := 0x10_0000 * v + p * c.xfract + q * c.yfract; WeightedSum(c) == ONE * (e - v)
  {
    hide WeightedSum;
    WeightedSumPlane(c);
  }

  /** On a table that is a plane around the point, v at its lower corner and slopes p and q, the result is the
      exact value less rounding: less than one unit and a 2^-4 of one below, at most 2^-4 of one above. */
  lemma InterpQ15OnPlane(s: Instance<i16>, x: i32, y: i32, v: int, p: int, q: int)
    requires !Outside(s, x, y) && ReadsInRange(s, x, y)
    requires PlaneAround(s, x, y, v, p, q)
    ensures var exact := 0x10_0000 * v + p * (x % 0x10_0000) + q * (y % 0x10_0000);
            -0x11_0040 < 0x10_0000 * (InterpQ15(s, x, y) as int) - exact <= 0x1_0000
  {
    var c := CellOf(s, x, y);
    CellIs(s, x, y);
    PlaneCell(s, x, y, v, p, q);
    CellFractions(s, x, y);
    CornersWithin(s, x, y, -0x8000, 0x7FFF);
    hide CellOf, BlendQ15, WeightedSum, OnPlane;
    BlendQ15Between(c);
    PlaneSum(c, v, p, q);
    PlaneBetween(c, v, p, q);
    VIsCorner(c, v, p, q);
    hide *;
    RoundedPlane(0x10_0000 * v + p * (x % 0x10_0000) + q * (y % 0x10_0000), v, 0x8000, 60 * ONE, InterpQ15(s, x, y));
  }

  lemma VIsCorner(c: Cell, v: int, p: int, q: int)
    requires OnPlane(c, v, p, q)
    ensures Lowest(c) <= v <= Highest(c)
  {}

  lemma RoundedPlane(e: int, v: int, m: int, cut: int, r: int)
    requires (m == 0x8000 && cut == 60 * ONE) || (m == 0x80 && cut == 0)
    requires -(0x10_0000 * m) <= e <= 0x10_0000 * m && -m <= v <= m
    requires (ONE * (e - v) - cut) / 0x100_0000_0000 <= r <= ONE * (e - v) / 0x100_0000_0000
    ensures -0x10_0000 - 2 * m - 64 < 0x10_0000 * r - e <= 2 * m
  {}

  /** So does the Q7 routine, more closely. */
  lemma InterpQ7OnPlane(s: Instance<i8>, x: i32, y: i32, v: int, p: int, q: int)
    requires !Outside(s, x, y) && ReadsInRange(s, x, y)
    requires PlaneAround(s, x, y, v, p, q)
    ensures var exact := 0x10_0000 * v + p * (x % 0x10_0000) + q * (y % 0x10_0000);
            -0x10_0140 < 0x10_0000 * (InterpQ7(s, x, y) as int) - exact <= 0x100
  {
    var c := CellOf(s, x, y);
    CellIs(s, x, y);
    PlaneCell(s, x, y, v, p, q);
    CellFractions(s, x, y);
    CornersWithin(s, x, y, -0x80, 0x7F);
    hide CellOf, BlendQ7, WeightedSum, OnPlane;
    BlendQ7Between(c);
    PlaneSum(c, v, p, q);
    PlaneBetween(c, v, p, q);
    VIsCorner(c, v, p, q);
    hide *;
    RoundedPlane(0x10_0000 * v + p * (x % 0x10_0000) + q * (y % 0x10_0000), v, 0x80, 0, InterpQ7(s, x, y));
  }

  /** What one table entry comes back as: the weights fall short of one. */
  function AtGrid(v: int): int { if v > 0 then v - 1 else v }

  function GridPoint(i: nat): i32
    requires i < 0x800
  {
    i * 0x10_0000
  }

  lemma GridSplit(i: nat)
    requires i < 0x800
    ensures LinearInterp.Index(GridPoint(i)) == i && LinearInterp.Fraction(GridPoint(i)) == 0
  {
    LinearInterp.SplitInput(GridPoint(i));
    DivModUnique(GridPoint(i), 0x10_0000, i, 0);
  }

  /** The cell at integer coordinates starts at entry i + j * numCols. */
  lemma GridCell(s: Instance<int>, i: nat, j: nat)
    requires i < s.numRows && j < s.numCols && i < 0x800 && j < 0x800
    requires ReadsInRange(s, GridPoint(i), GridPoint(j))
    ensures !Outside(s, GridPoint(i), GridPoint(j)) && 0 <= i + j * s.numCols < |s.pData|
    ensures var c := CellOf(s, GridPoint(i), GridPoint(j));
            c.x1 == s.pData[i + j * s.numCols] && c.xfract == 0 && c.yfract == 0
  {
    hide LinearInterp.Index, LinearInterp.Fraction, GridPoint;
    GridSplit(i);
    GridSplit(j);
    CellReads(i, j, s.numCols);
    assert j * s.numCols == s.numCols * j;
  }

  /** Entry (i, j) is found at i + j * numCols and returned up to that shortfall. */
  lemma InterpQ15AtGrid(s: Instance<i16>, i: nat, j: nat)
    requires i < s.numRows && j < s.numCols && i < 0x800 && j < 0x800
    requires ReadsInRange(s, GridPoint(i), GridPoint(j))
    ensures 0 <= i + j * s.numCols < |s.pData|
    ensures InterpQ15(s, GridPoint(i), GridPoint(j)) == AtGrid(s.pData[i + j * s.numCols])
  {
    hide LinearInterp.Index, LinearInterp.Fraction, BlendQ15, CellOf;
    GridCell(s, i, j);
    BlendQ15AtCorner(CellOf(s, GridPoint(i), GridPoint(j)));
  }

  lemma BlendQ15AtCorner(c: Cell)
    requires c.xfract == 0 && c.yfract == 0 && -0x8000 <= c.x1 < 0x8000
    ensures BlendQ15(c) == AtGrid(c.x1)
  {
    hide ToI32, ToI64, ToI16;
    var v := c.x1;
    SameI64(v * ONE);
    SameI64(0);
    SameI32(v * ONE / 16);
    SameI32(0);
    SameI64(v * ONE / 16 * ONE);
    assert v * ONE / 16 * ONE / 0x10_0000_0000 == AtGrid(v);
    SameI16(AtGrid(v));
  }

  lemma InterpQ7AtGrid(s: Instance<i8>, i: nat, j: nat)
    requires i < s.numRows && j < s.numCols && i < 0x800 && j < 0x800
    requires ReadsInRange(s, GridPoint(i), GridPoint(j))
    ensures 0 <= i + j * s.numCols < |s.pData|
    ensures InterpQ7(s, GridPoint(i), GridPoint(j)) == AtGrid(s.pData[i + j * s.numCols])
  {
    hide LinearInterp.Index, LinearInterp.Fraction, BlendQ7, CellOf;
    GridCell(s, i, j);
    BlendQ7AtCorner(CellOf(s, GridPoint(i), GridPoint(j)));
  }

  lemma BlendQ7AtCorner(c: Cell)
    requires c.xfract == 0 && c.yfract == 0 && -0x80 <= c.x1 < 0x80
    ensures BlendQ7(c) == AtGrid(c.x1)
  {
    hide ToI32, ToI64, ToI8;
    var v := c.x1;
    SameI64(0);
    SameI32(v * ONE);
    SameI32(0);
    SameI64(v * ONE * ONE);
    assert v * ONE * ONE / 0x100_0000_0000 == AtGrid(v);
    assert ToI8(AtGrid(v)) == AtGrid(v) by { LinearInterp.SameByte(AtGrid(v)); }
  }

  /** Rows and columns an index can name: it is at most 0x7FF. */
  function Reach(n: u16): int { Min(n, 0x800) }

  predicate LongEnough<T>(s: Instance<T>) { Reach(s.numRows) + s.numCols * Reach(s.numCols) < |s.pData| }

  /** The guard admits the last row and column, whose neighbours are read too. Every admitted point reads
      inside the table exactly when the table is long enough for the last one. */
  lemma GuardSufficesExactly<T>(s: Instance<T>)
    ensures (forall x: i32, y: i32 :: !Outside(s, x, y) ==> ReadsInRange(s, x, y))
       <==> s.numRows == 0 || s.numCols == 0 || LongEnough(s)
  {
    hide Outside, ReadsInRange, LongEnough;
    if s.numRows == 0 || s.numCols == 0 {
      forall x: i32, y: i32
        ensures Outside(s, x, y)
      {
        EmptyAdmitsNone(s, x, y);
      }
    } else {
      var x, y := LastAdmitted(s);
      if LongEnough(s) {
        forall x: i32, y: i32 | !Outside(s, x, y)
          ensures ReadsInRange(s, x, y)
        {
          AdmittedReads(s, x, y);
        }
      }
    }
  }

  lemma LongEnoughIs<T>(s: Instance<T>)
    ensures LongEnough(s) <==>
              (if s.numRows < 0x800 then s.numRows else 0x800)
              + s.numCols * (if s.numCols < 0x800 then s.numCols else 0x800) < |s.pData|
  {}

  lemma EmptyAdmitsNone<T>(s: Instance<T>, x: i32, y: i32)
    requires s.numRows == 0 || s.numCols == 0
    ensures Outside(s, x, y)
  {
    hide LinearInterp.Index;
  }

  lemma LastAdmitted<T>(s: Instance<T>) returns (x: i32, y: i32)
    requires s.numRows != 0 && s.numCols != 0
    ensures !Outside(s, x, y) && (ReadsInRange(s, x, y) <==> LongEnough(s))
  {
    var rows: int, cols: int := Reach(s.numRows), Reach(s.numCols);
    x, y := (rows - 1) * 0x10_0000, (cols - 1) * 0x10_0000;
    LinearInterp.SplitInput(x);
    LinearInterp.SplitInput(y);
    DivModUnique(x, 0x10_0000, rows - 1, 0);
    DivModUnique(y, 0x10_0000, cols - 1, 0);
    hide LinearInterp.Index, LinearInterp.Fraction;
  }

  lemma AdmittedReads<T>(s: Instance<T>, x: i32, y: i32)
    requires !Outside(s, x, y) && LongEnough(s)
    ensures ReadsInRange(s, x, y)
  {
    hide LinearInterp.Index;
    IndexBound(x);
    IndexBound(y);
    FarthestRead(LinearInterp.Index(x), LinearInterp.Index(y), Reach(s.numRows), Reach(s.numCols), s.numCols);
  }

  lemma IndexBound(x: i32)
    ensures LinearInterp.Index(x) < 0x800
  {
    LinearInterp.SplitInput(x);
  }

  lemma FarthestRead(rI: int, cI: int, rows: int, cols: int, numCols: int)
    requires 0 <= rI < rows && 0 <= cI < cols && 0 <= numCols
    ensures rI + numCols * (cI + 1) + 1 <= rows + numCols * cols
  {
    MulMono(cI + 1, cols, numCols);
    assert numCols * (cI + 1) == (cI + 1) * numCols && numCols * cols == cols * numCols;
  }
}
