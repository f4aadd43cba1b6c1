/** Bilinear table interpolation of arm_math.h in Q31: four products, each cut twice to its high word, and
    a final shift by two that can turn over at the bottom of the range. */
module BilinearQ31 {
  import opened Words
  import opened Saturation
  import opened BilinearInterp
  import LinearInterp

  const D: int := 0x1_0000_0000
  const TOP: int := 0x7FFF_FFFF

  // (q31_t) (((q63_t) v * w) >> 32)
  function High(v: int, w: int): i32 { ToI32(ToI64(v * w) / D) }

  function BlendQ31(c: Cell): i32 {
    var x, y := c.xfract * 0x800, c.yfract * 0x800;
    var acc1 := High(High(c.x1, TOP - x), TOP - y);
    var acc2 := ToI32(acc1 + High(High(c.x2, TOP - y), x));
    var acc3 := ToI32(acc2 + High(High(c.y1, TOP - x), y));
    var acc4 := ToI32(acc3 + High(High(c.y2, x), y));
    ToI32(acc4 * 4)
  }

  function InterpQ31(s: Instance<i32>, x: i32, y: i32): i32
    requires Outside(s, x, y) || ReadsInRange(s, x, y)
  {
    if Outside(s, x, y) then 0 else BlendQ31(CellOf(s, x, y))
  }

  predicate Fits(c: Cell) { FitsI32(Lowest(c)) && FitsI32(Highest(c)) && Fractions(c) }

  // ---- The accumulator without widths ----

  function Cut(v: int, w: int): int { v * w / D }

  function HighSum(c: Cell): int {
    var x, y := c.xfract * 0x800, c.yfract * 0x800;
    Cut(Cut(c.x1, TOP - x), TOP - y) + Cut(Cut(c.x2, TOP - y), x) + Cut(Cut(c.y1, TOP - x), y) + Cut(Cut(c.y2, x), y)
  }

  /** A high word halves the range it came from. */
  lemma HighIsCut(v: int, w: int, m: int)
    requires -m <= v < m && 0 < m <= 0x8000_0000 && m % 2 == 0 && 0 <= w <= TOP
    ensures High(v, w) == Cut(v, w) && -m <= 2 * Cut(v, w) < m
  {
    hide ToI32, ToI64;
    var p, q := v * w, v * w / D;
    MulMono(-m, v, w);
    MulMono(v, m, w);
    assert -(m * w) <= p <= m * w;
    MulMono(w, TOP, m);
    assert m * w == w * m && m * D == D * m;
    HalfRange(p, q, m);
    SameI64(p);
    SameI32(q);
  }

  lemma HalfRange(p: int, q: int, m: int)
    requires 0 < m && m % 2 == 0 && -(0x7FFF_FFFF * m) <= p <= 0x7FFF_FFFF * m && q == p / 0x1_0000_0000
    ensures -m <= 2 * q < m
  {}

  lemma TwiceHigh(v: int, u: int, w: int)
    requires FitsI32(v) && 0 <= u <= TOP && 0 <= w <= TOP
    ensures High(High(v, u), w) == Cut(Cut(v, u), w)
    ensures -0x2000_0000 <= Cut(Cut(v, u), w) < 0x2000_0000
  {
    hide High, Cut;
    HighIsCut(v, u, 0x8000_0000);
    HighIsCut(Cut(v, u), w, 0x4000_0000);
  }

  /** Only the final shift can leave 32 bits. */
  lemma BlendIsShifted(c: Cell)
    requires Fits(c)
    ensures BlendQ31(c) == ToI32(4 * HighSum(c))
  {
    hide High, Cut, ToI32;
    var x, y := c.xfract * 0x800, c.yfract * 0x800;
    TwiceHigh(c.x1, TOP - x, TOP - y);
    TwiceHigh(c.x2, TOP - y, x);
    TwiceHigh(c.y1, TOP - x, y);
    TwiceHigh(c.y2, x, y);
    SumsFit(Cut(Cut(c.x1, TOP - x), TOP - y), Cut(Cut(c.x2, TOP - y), x), Cut(Cut(c.y1, TOP - x), y), Cut(Cut(c.y2, x), y));
  }

  lemma SumsFit(a: int, b: int, c: int, d: int)
    requires -0x2000_0000 <= a < 0x2000_0000 && -0x2000_0000 <= b < 0x2000_0000
    requires -0x2000_0000 <= c < 0x2000_0000 && -0x2000_0000 <= d < 0x2000_0000
    ensures ToI32(ToI32(ToI32(a + b) + c) + d) == a + b + c + d
  {
    hide ToI32;
    SameI32(a + b);
    SameI32(a + b + c);
    SameI32(a + b + c + d);
  }

  // ---- Against the exact weighted sum ----

  function Weighted(c: Cell): int {
    var x, y := c.xfract * 0x800, c.yfract * 0x800;
    TermExact(c.x1, TOP - x, TOP - y) + TermExact(c.x2, TOP - y, x) + TermExact(c.y1, TOP - x, y) + TermExact(c.y2, x, y)
  }

  /** Two cuts lose less than one unit and a half, and never gain. */
  lemma CutLoss(v: int, u: int, w: int)
    requires 0 <= w
    ensures TermExact(v, u, w) - D * w - D * D <= D * D * Cut(Cut(v, u), w) <= TermExact(v, u, w)
  {
    var o := Cut(v, u);
    var t := Cut(o, w);
    assert D * o <= v * u < D * o + D;
    assert D * t <= o * w < D * t + D;
    MulMono(D * o, v * u, w);
    MulMono(v * u, D * o + D, w);
    assert D * o * w == D * (o * w) && (D * o + D) * w == D * (o * w) + D * w;
    assert D * D * t == D * (D * t);
  }

  lemma WeightedBounds(c: Cell)
    requires Fractions(c)
    ensures Lowest(c) * (TOP * TOP) <= Weighted(c) <= Highest(c) * (TOP * TOP)
  {
    var lo, hi, x, y := Lowest(c), Highest(c), c.xfract * 0x800, c.yfract * 0x800;
    Corner(c.x1, TOP - x, TOP - y, lo, hi);
    Corner(c.x2, TOP - y, x, lo, hi);
    Corner(c.y1, TOP - x, y, lo, hi);
    Corner(c.y2, x, y, lo, hi);
    WeightsAddUp(x, y, TOP, lo);
    WeightsAddUp(x, y, TOP, hi);
    hide TermExact;
  }

  lemma HighSumLoss(c: Cell)
    requires Fractions(c)
    ensures 2 * Weighted(c) - 11 * (D * D) <= 2 * (D * D) * HighSum(c) <= 2 * Weighted(c)
  {
    hide Cut, TermExact;
    var x, y := c.xfract * 0x800, c.yfract * 0x800;
    CutLoss(c.x1, TOP - x, TOP - y);
    CutLoss(c.x2, TOP - y, x);
    CutLoss(c.y1, TOP - x, y);
    CutLoss(c.y2, x, y);
  }

  /** What the result is measured by: at most 23 units below the lowest corner, one above the highest. */
  predicate Near(c: Cell) { Lowest(c) - 23 <= BlendQ31(c) <= Highest(c) + 1 }

  lemma SumNear(c: Cell)
    requires Fits(c)
    ensures Lowest(c) - 23 <= 4 * HighSum(c) <= Highest(c) + 1 && 4 * HighSum(c) < 0x8000_0000
  {
    hide HighSum, Weighted, Lowest, Highest;
    HighSumLoss(c);
    WeightedBounds(c);
    ScaledNear(HighSum(c), Weighted(c), Lowest(c), Highest(c));
  }

  lemma ScaledNear(a: int, s: int, lo: int, hi: int)
    requires FitsI32(lo) && FitsI32(hi)
    requires 2 * s - 11 * (D * D) <= 2 * (D * D) * a <= 2 * s
    requires lo * (TOP * TOP) <= s <= hi * (TOP * TOP)
    ensures lo - 23 <= 4 * a <= hi + 1 && 4 * a < 0x8000_0000
  {
  }

  /** The result is the shifted sum exactly when that does not turn over, and then it is near its corners. */
  lemma ShiftedExactly(c: Cell)
    requires Fits(c)
    ensures BlendQ31(c) == 4 * HighSum(c) <==> -0x2000_0000 <= HighSum(c)
    ensures -0x2000_0000 <= HighSum(c) ==> Near(c)
  {
    hide HighSum, BlendQ31, Lowest, Highest, ToI32;
    BlendIsShifted(c);
    SumNear(c);
    if -0x2000_0000 <= HighSum(c) {
      SameI32(4 * HighSum(c));
    }
  }

  // ---- The threshold ----

  /** The lowest table entry that rules out a turn-over whatever the fractions. */
  const SAFE: int := -0x7FFF_FFF3

  lemma CutMono(v: int, v': int, w: int)
    requires v <= v' && 0 <= w
    ensures Cut(v, w) <= Cut(v', w)
  {
    MulMono(v, v', w);
    DivMono(v * w, v' * w, D);
  }

  lemma TwiceMono(v: int, v': int, u: int, w: int)
    requires v <= v' && 0 <= u && 0 <= w
    ensures Cut(Cut(v, u), w) <= Cut(Cut(v', u), w)
  {
    hide Cut;
    CutMono(v, v', u);
    CutMono(Cut(v, u), Cut(v', u), w);
  }

  function Flat(v: int, c: Cell): Cell { Cell(v, v, v, v, c.xfract, c.yfract) }

  /** Lowering every corner to the same value lowers the sum. */
  lemma FlatIsLower(c: Cell, v: int)
    requires Fractions(c) && v <= Lowest(c)
    ensures HighSum(Flat(v, c)) <= HighSum(c)
  {
    hide Cut;
    var x, y := c.xfract * 0x800, c.yfract * 0x800;
    TwiceMono(v, c.x1, TOP - x, TOP - y);
    TwiceMono(v, c.x2, TOP - y, x);
    TwiceMono(v, c.y1, TOP - x, y);
    TwiceMono(v, c.y2, x, y);
  }

  /** Complementary weights share their remainder: SAFE * TOP is 13 short of a multiple of 2^32. */
  lemma Complementary(f: nat, o1: int, o4: int)
    requires f <= ONE
    requires o1 == Cut(SAFE, TOP - f * 0x800) && o4 == Cut(SAFE, f * 0x800)
    ensures o1 + o4 == -0x4000_0000 + 6
  {
    var x := f * 0x800;
    var r1, r4 := SAFE * (TOP - x) - o1 * D, SAFE * x - o4 * D;
    CutDef(SAFE, TOP - x);
    CutDef(SAFE, x);
    hide Cut;
    assert (o1 + o4) * D + r1 + r4 == SAFE * TOP;
    CoarseRemainder(r4, SAFE * f - o4 * 0x20_0000);
    OneQuotient(o1 + o4, r1 + r4);
  }

  lemma CoarseRemainder(r: int, q: int)
    requires r == q * 0x800 && r < 0x1_0000_0000
    ensures r <= 0x1_0000_0000 - 0x800
  {}

  lemma OneQuotient(q: int, r: int)
    requires q * 0x1_0000_0000 + r == -0x7FFF_FFF3 * 0x7FFF_FFFF && 0 <= r <= 0x2_0000_0000 - 0x800
    ensures q == -0x4000_0000 + 6
  {}

  /** The two cuts of one value by complementary weights. */
  lemma CutPair(o: int, y: int)
    requires o <= 0
    ensures 2 * (Cut(o, TOP - y) + Cut(o, y)) >= o - 3
  {
    var s, t := Cut(o, TOP - y), Cut(o, y);
    assert s * D + D - 1 >= o * (TOP - y) && t * D + D - 1 >= o * y;
    assert o * (TOP - y) + o * y == o * TOP;
  }

  /** At the threshold the sum stays at or above -2^29, for every pair of fractions. */
  lemma FlatAtSafe(f: nat, g: nat)
    requires f <= ONE && g <= ONE
    ensures HighSum(Cell(SAFE, SAFE, SAFE, SAFE, f, g)) >= -0x2000_0000
  {
    hide Cut;
    var x, y := f * 0x800, g * 0x800;
    var o1, o2, o4 := Cut(SAFE, TOP - x), Cut(SAFE, TOP - y), Cut(SAFE, x);
    CutSign(TOP - x);
    Complementary(f, o1, o4);
    CutPair(o1, y);
    CutDef(SAFE, x);
    CutDef(SAFE, TOP - y);
    CutDef(o2, x);
    CutDef(o4, y);
    Balance(x, y, Cut(o1, TOP - y) + Cut(o1, y), o2, -o4, Cut(o2, x), Cut(o4, y));
  }

  lemma CutSign(w: int)
    requires 0 <= w
    ensures Cut(SAFE, w) <= 0
  {}

  lemma CutDef(v: int, w: int)
    ensures D * Cut(v, w) <= v * w <= D * Cut(v, w) + D - 1
  {}

  lemma Balance(x: int, y: int, pair: int, o2: int, a: int, t2: int, t4: int)
    requires 0 <= x <= TOP && 0 <= y <= TOP
    requires 2 * pair >= -0x4000_0000 + 6 + a - 3
    requires D * a >= -SAFE * x
    requires D * o2 >= SAFE * (TOP - y) - (D - 1)
    requires D * t2 >= o2 * x - (D - 1) && D * t4 >= -a * y - (D - 1)
    ensures pair + t2 + t4 >= -0x2000_0000
  {
    var n := -SAFE;
    MulMono(n * x, D * a, D - 2 * y);
    MulMono(-n * (TOP - y) - (D - 1), D * o2, x);
    assert 2 * (D * o2 * x) >= -2 * (n * (TOP - y) * x) - 2 * ((D - 1) * x);
    assert D * a * (D - 2 * y) >= n * x * (D - 2 * y);
    Weigh(n, x, y);
    WeighedPairs(a, x, y, o2, pair, t2, t4);
  }

  lemma Weigh(n: int, x: int, y: int)
    requires 0 <= n && 0 <= x
    ensures n * x * (D - 2 * y) - 2 * (n * (TOP - y) * x) == 2 * (n * x) >= 0
  {
    MulNonNegative(n, x);
    assert n * (TOP - y) * x == n * x * (TOP - y);
    assert n * x * (D - 2 * y) == n * x * D - 2 * (n * x * y);
    assert n * x * (TOP - y) == n * x * TOP - n * x * y;
  }

  lemma WeighedPairs(a: int, x: int, y: int, o2: int, pair: int, t2: int, t4: int)
    requires 0 <= x <= TOP
    requires 2 * pair >= -0x4000_0000 + 3 + a
    requires D * t2 >= o2 * x - (D - 1) && D * t4 >= -a * y - (D - 1)
    requires D * a * (D - 2 * y) + 2 * (D * o2 * x) >= -2 * ((D - 1) * x)
    ensures pair + t2 + t4 >= -0x2000_0000
  {
    var p, q := o2 * x, a * y;
    assert D * a * (D - 2 * y) == D * (D * a) - 2 * (D * q);
    assert D * o2 * x == D * p;
    hide *;
    Sum(a, x, p, q, pair, t2, t4);
  }

  lemma Sum(a: int, x: int, p: int, q: int, pair: int, t2: int, t4: int)
    requires 0 <= x <= TOP
    requires 2 * pair >= -0x4000_0000 + 3 + a
    requires D * t2 >= p - (D - 1) && D * t4 >= -q - (D - 1)
    requires D * (D * a) - 2 * (D * q) + 2 * (D * p) >= -2 * ((D - 1) * x)
    ensures pair + t2 + t4 >= -0x2000_0000
  {}

  /** Main result. Every cell with corners at or above the bound gives a result near them exactly when the
      bound is SAFE or more: a flat table of twelve above -1.0 already turns over to almost +1.0. */
  lemma NearExactlyAboveSafe(bound: i32)
    ensures (forall c: Cell :: Fits(c) && bound <= Lowest(c) ==> Near(c)) <==> SAFE <= bound
  {
    hide HighSum, Near, Lowest, Highest, BlendQ31;
    if SAFE <= bound {
      forall c: Cell | Fits(c) && bound <= Lowest(c)
        ensures Near(c)
      {
        FlatIsLower(c, SAFE);
        FlatAtSafe(c.xfract, c.yfract);
        ShiftedExactly(c);
      }
    } else {
      TurnsOverBelow();
      var c := Cell(SAFE - 1, SAFE - 1, SAFE - 1, SAFE - 1, 800513, 796386);
      assert Fits(c) && bound <= Lowest(c) && !Near(c);
    }
  }

  lemma TurnsOverBelow()
    ensures var c := Cell(SAFE - 1, SAFE - 1, SAFE - 1, SAFE - 1, 800513, 796386);
            Fits(c) && Lowest(c) == SAFE - 1 && BlendQ31(c) == 0x7FFF_FFFC && !Near(c)
  {
    hide Cut, ToI32, BlendQ31;
    var v, x, y := SAFE - 1, 800513 * 0x800, 796386 * 0x800;
    var c := Cell(v, v, v, v, 800513, 796386);
    CutIs(v, TOP - x, -254016511);
    CutIs(v, TOP - y, -258242559);
    CutIs(v, x, -819725308);
    CutIs(-254016511, TOP - y, -30546391);
    CutIs(-258242559, x, -98574890);
    CutIs(-254016511, y, -96461866);
    CutIs(-819725308, y, -311287766);
    assert HighSum(c) == -0x2000_0001;
    BlendIsShifted(c);
    assert ToI32(-0x8000_0004) == 0x7FFF_FFFC by { CastIgnoresTurns(-0x8000_0004, 0x7FFF_FFFC, -1); SameI32(0x7FFF_FFFC); }
  }

  lemma CutIs(v: int, w: int, q: int)
    requires q * D <= v * w < q * D + D
    ensures Cut(v, w) == q
  {
    DivModUnique(v * w, D, q, v * w - q * D);
  }

  /** So the routine stays near the four table entries whenever the table keeps above SAFE. */
  lemma InterpQ31Near(s: Instance<i32>, x: i32, y: i32)
    requires !Outside(s, x, y) && ReadsInRange(s, x, y)
    requires forall i :: 0 <= i < |s.pData| ==> SAFE <= s.pData[i]
    ensures var c := CellOf(s, x, y); Lowest(c) - 23 <= InterpQ31(s, x, y) <= Highest(c) + 1
  {
    hide BlendQ31, HighSum, CellOf, Lowest, Highest;
    CellFractions(s, x, y);
    CornersWithin(s, x, y, SAFE, 0x7FFF_FFFF);
    var c := CellOf(s, x, y);
    LowestFirst(c);
    FlatIsLower(c, SAFE);
    FlatAtSafe(c.xfract, c.yfract);
    ShiftedExactly(c);
  }

  lemma LowestFirst(c: Cell)
    ensures Lowest(c) <= Highest(c)
  {}

  lemma HighSumIs(c: Cell)
    ensures var x, y := c.xfract * 0x800, c.yfract * 0x800;
            HighSum(c) == c.x1 * (0x7FFF_FFFF - x) / 0x1_0000_0000 * (0x7FFF_FFFF - y) / 0x1_0000_0000
                          + c.x2 * (0x7FFF_FFFF - y) / 0x1_0000_0000 * x / 0x1_0000_0000
                          + c.y1 * (0x7FFF_FFFF - x) / 0x1_0000_0000 * y / 0x1_0000_0000
                          + c.y2 * x / 0x1_0000_0000 * y / 0x1_0000_0000
  {}

  lemma BlendIsShiftedOrTurned(c: Cell)
    requires Fits(c)
    ensures BlendQ31(c) == 4 * HighSum(c) + if HighSum(c) >= -0x2000_0000 then 0 else 0x1_0000_0000
  {
    hide HighSum, BlendQ31, Lowest, Highest;
    BlendIsShifted(c);
    SumNear(c);
    if HighSum(c) < -0x2000_0000 {
      TurnedOnce(4 * HighSum(c));
    } else {
      SameI32(4 * HighSum(c));
    }
  }

  lemma TurnedOnce(shifted: int)
    requires -0x1_0000_0000 <= shifted < -0x8000_0000
    ensures ToI32(shifted) == shifted + 0x1_0000_0000
  {}

  /** The routine on an admitted point, from the table itself, and zero elsewhere. */
  lemma InterpQ31Is(s: Instance<i32>, x: i32, y: i32)
    requires 0 <= x && x / 0x10_0000 < s.numRows && 0 <= y && y / 0x10_0000 < s.numCols
    requires x / 0x10_0000 + s.numCols * (y / 0x10_0000 + 1) + 1 < |s.pData|
    ensures !Outside(s, x, y) && ReadsInRange(s, x, y)
    ensures var i, j, n := x / 0x10_0000, y / 0x10_0000, s.numCols;
            && 0 <= i + n * j && i + n * j + 1 < |s.pData| && 0 <= i + n * (j + 1) && i + n * (j + 1) + 1 < |s.pData|
            && var a: int, b: int := s.pData[i + n * j], s.pData[i + n * j + 1];
            var c: int, d: int := s.pData[i + n * (j + 1)], s.pData[i + n * (j + 1) + 1];
            var fx, fy := x % 0x10_0000 * 0x800, y % 0x10_0000 * 0x800;
            var sum := a * (0x7FFF_FFFF - fx) / 0x1_0000_0000 * (0x7FFF_FFFF - fy) / 0x1_0000_0000
                       + b * (0x7FFF_FFFF - fy) / 0x1_0000_0000 * fx / 0x1_0000_0000
                       + c * (0x7FFF_FFFF - fx) / 0x1_0000_0000 * fy / 0x1_0000_0000
                       + d * fx / 0x1_0000_0000 * fy / 0x1_0000_0000;
            InterpQ31(s, x, y) == 4 * sum + if sum >= -0x2000_0000 then 0 else 0x1_0000_0000
  {
    OutsideIs(s, x, y);
    CellIs(s, x, y);
    CellFractions(s, x, y);
    CornersWithin(s, x, y, -0x8000_0000, 0x7FFF_FFFF);
    var c := CellOf(s, x, y);
    LowestFirst(c);
    HighSumIs(c);
    hide CellOf, BlendQ31, HighSum, Lowest, Highest, Fractions;
    BlendIsShiftedOrTurned(c);
  }

  lemma OutsideQ31IsZero(s: Instance<i32>, x: i32, y: i32)
    requires x < 0 || x / 0x10_0000 >= s.numRows || y < 0 || y / 0x10_0000 >= s.numCols
    ensures Outside(s, x, y) && InterpQ31(s, x, y) == 0
  {
    OutsideIs(s, x, y);
    hide Outside, ReadsInRange;
  }

  lemma WeightedPlane(c: Cell, v: int, p: int, q: int)
    requires OnPlane(c, v, p, q)
    ensures Weighted(c) == TOP * (0x800 * (0x10_0000 * v + p * c.xfract + q * c.yfract) - v)
  {
    var x, y := c.xfract * 0x800, c.yfract * 0x800;
    PlaneTerms(v, p, q, x, y, TOP);
    assert p * x == 0x800 * (p * c.xfract) && q * y == 0x800 * (q * c.yfract);
    hide TermExact;
  }

  /** On a plane around the point, above the threshold, the result is the exact value within 24 units below
      and two above. */
  lemma InterpQ31OnPlane(s: Instance<i32>, x: i32, y: i32, v: int, p: int, q: int)
    requires !Outside(s, x, y) && ReadsInRange(s, x, y) && PlaneAround(s, x, y, v, p, q)
    requires forall i :: 0 <= i < |s.pData| ==> SAFE <= s.pData[i]
    ensures var exact := 0x10_0000 * v + p * (x % 0x10_0000) + q * (y % 0x10_0000);
            -24 * 0x10_0000 <= 0x10_0000 * (InterpQ31(s, x, y) as int) - exact <= 2 * 0x10_0000
  {
    var c := CellOf(s, x, y);
    CellIs(s, x, y);
    PlaneCell(s, x, y, v, p, q);
    CellFractions(s, x, y);
    CornersWithin(s, x, y, SAFE, 0x7FFF_FFFF);
    LowestFirst(c);
    hide CellOf, BlendQ31, HighSum, Weighted, OnPlane, PlaneAround;
    FlatIsLower(c, SAFE);
    FlatAtSafe(c.xfract, c.yfract);
    ShiftedExactly(c);
    HighSumLoss(c);
    WeightedPlane(c, v, p, q);
    PlaneBetween(c, v, p, q);
    VIsCorner(c, v, p, q);
    hide *;
    RoundedPlaneQ31(0x10_0000 * v + p * (x % 0x10_0000) + q * (y % 0x10_0000), v, HighSum(c));
  }

  lemma RoundedPlaneQ31(e: int, v: int, a: int)
    requires -(0x10_0000 * 0x8000_0000) <= e <= 0x10_0000 * 0x8000_0000 && FitsI32(v)
    requires 2 * (TOP * (0x800 * e - v)) - 11 * (D * D) <= 2 * (D * D) * a <= 2 * (TOP * (0x800 * e - v))
    ensures -24 * 0x10_0000 <= 0x10_0000 * (4 * a) - e <= 2 * 0x10_0000
  {}

  /** A single table entry always comes back, within seven units below and one above. */
  lemma InterpQ31AtGrid(s: Instance<i32>, i: nat, j: nat)
    requires i < s.numRows && j < s.numCols && i < 0x800 && j < 0x800
    requires ReadsInRange(s, GridPoint(i), GridPoint(j))
    ensures 0 <= i + j * s.numCols < |s.pData|
    ensures -7 <= InterpQ31(s, GridPoint(i), GridPoint(j)) - s.pData[i + j * s.numCols] as int <= 1
  {
    hide LinearInterp.Index, LinearInterp.Fraction, BlendQ31, CellOf;
    GridCell(s, i, j);
    var c := CellOf(s, GridPoint(i), GridPoint(j));
    CornersWithin(s, GridPoint(i), GridPoint(j), -0x8000_0000, 0x7FFF_FFFF);
    LowestFirst(c);
    BlendQ31AtCorner(c);
  }

  lemma BlendQ31AtCorner(c: Cell)
    requires Fits(c) && c.xfract == 0 && c.yfract == 0 && FitsI32(c.x1)
    ensures -7 <= BlendQ31(c) - c.x1 <= 1
  {
    hide BlendQ31, ToI32;
    var v := c.x1;
    var t := v * TOP / D * TOP / D;
    assert HighSum(c) == t;
    CornerCut(v, v * TOP / D, t);
    BlendIsShifted(c);
    SameI32(4 * t);
  }

  lemma CornerCut(v: int, o: int, t: int)
    requires FitsI32(v) && o == v * 0x7FFF_FFFF / 0x1_0000_0000 && t == o * 0x7FFF_FFFF / 0x1_0000_0000
    ensures -7 <= 4 * t - v <= 1 && FitsI32(4 * t)
  {}
}
