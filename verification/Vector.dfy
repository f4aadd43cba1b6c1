/** The Q31 Clarke and Park transforms of arm_math.h and their inverses. */
module Vector {
  import opened Words
  import opened Saturation

  // ---- Clarke ----

  const INV_SQRT3: int := 0x24F3_4E8B
  const TWO_INV_SQRT3: int := 0x49E6_9D16
  const SQRT3_HALF: int := 0x6ED9_EBA1

  /** The largest |ib| whose scaled product still fits the 32-bit temporary. */
  const IB_LIMIT: int := 1859775393

  function Clarke(ia: i32, ib: i32): (i32, i32) {
    var product1 := ToI32(ToI64(ia * INV_SQRT3) / 0x4000_0000);
    var product2 := ToI32(ToI64(ib * TWO_INV_SQRT3) / 0x4000_0000);
    (ia, Qadd(product1, product2))
  }

  function InvClarke(ialpha: i32, ibeta: i32): (i32, i32) {
    var product1 := ToI32(ToI64(ialpha * 0x4000_0000) / 0x8000_0000);
    var product2 := ToI32(ToI64(ibeta * SQRT3_HALF) / 0x8000_0000);
    (ialpha, Qsub(product2, product1))
  }

  /** The exact value of ibeta before any width applies. */
  function BetaSum(ia: int, ib: int): int { ia * INV_SQRT3 / 0x4000_0000 + ib * TWO_INV_SQRT3 / 0x4000_0000 }

  /** The comment above the routine excludes overflow. The addition does saturate, but the second product is
      cut to 32 bits first: the promise holds exactly for |ib| up to the limit. */
  lemma ClarkeSaturatesExactly(ia: i32, ib: i32)
    ensures Clarke(ia, ib).0 == ia
    ensures Clarke(ia, ib).1 == Clamp32(BetaSum(ia, ib)) <==> -IB_LIMIT <= ib <= IB_LIMIT
  {
    var p: int, q: int := ia * INV_SQRT3 / 0x4000_0000, ib * TWO_INV_SQRT3 / 0x4000_0000;
    CodedClarke(ia, ib);
    Scaled(ia, ib, p, q);
    ClipQ63ToQ31Saturates(p + ToI32(q));
    hide ClipQ63ToQ31, Clarke;
    CastOfScaled(p, q);
  }

  lemma Scaled(ia: i32, ib: i32, p: int, q: int)
    requires p == ia * INV_SQRT3 / 0x4000_0000 && q == ib * TWO_INV_SQRT3 / 0x4000_0000
    ensures -0x4A00_0000 <= p <= 0x4A00_0000 && -0x9400_0000 <= q <= 0x9400_0000
    ensures -IB_LIMIT <= ib <= IB_LIMIT <==> FitsI32(q)
  {}

  /** A wrapped second product lands on the other side of zero, whatever the first one is. */
  lemma CastOfScaled(p: int, q: int)
    requires -0x4A00_0000 <= p <= 0x4A00_0000 && -0x9400_0000 <= q <= 0x9400_0000
    ensures Clamp32(p + ToI32(q)) == Clamp32(p + q) <==> FitsI32(q)
  {
    assert ToI32(q) == if FitsI32(q) then q else if q > 0 then q - 0x1_0000_0000 else q + 0x1_0000_0000;
    hide ToI32;
  }

  lemma CodedClarke(ia: i32, ib: i32)
    ensures FitsI32(ia * INV_SQRT3 / 0x4000_0000)
    ensures Clarke(ia, ib).1 == Qadd(ia * INV_SQRT3 / 0x4000_0000, ToI32(ib * TWO_INV_SQRT3 / 0x4000_0000))
  {
    hide ToI64, ToI32, Qadd;
    SameI64(ia * INV_SQRT3);
    SameI64(ib * TWO_INV_SQRT3);
    SameI32(ia * INV_SQRT3 / 0x4000_0000);
  }

  /** The routine for every input: beyond the limit the second product is one turn off. */
  lemma ClarkeIs(ia: i32, ib: i32)
    ensures var turn := if ib > 1859775393 then 0x1_0000_0000 else if ib < -1859775393 then -0x1_0000_0000 else 0;
            Clarke(ia, ib) == (ia, Clamp32(ia * 0x24F3_4E8B / 0x4000_0000 + ib * 0x49E6_9D16 / 0x4000_0000 - turn))
  {
    var p: int, q: int := ia * INV_SQRT3 / 0x4000_0000, ib * TWO_INV_SQRT3 / 0x4000_0000;
    assert Clarke(ia, ib).0 == ia;
    CodedClarke(ia, ib);
    Scaled(ia, ib, p, q);
    hide Clarke, Qadd;
    QaddQsubSaturate(p, ToI32(q));
    TurnOf(q);
    hide ToI32;
    assert q > 0x7FFF_FFFF <==> ib > IB_LIMIT;
  }

  lemma TurnOf(q: int)
    requires -0x9400_0000 <= q <= 0x9400_0000
    ensures ToI32(q) == if FitsI32(q) then q else if q > 0 then q - 0x1_0000_0000 else q + 0x1_0000_0000
  {}

  /** The inverse never wraps: its one subtraction saturates. */
  lemma InvClarkeSaturates(ialpha: i32, ibeta: i32)
    ensures InvClarke(ialpha, ibeta) ==
            (ialpha, Clamp32(ibeta * 0x6ED9_EBA1 / 0x8000_0000 - ialpha * 0x4000_0000 / 0x8000_0000))
  {
    hide InvClarke, Qsub;
    CodedInverse(ialpha, ibeta);
    QaddQsubSaturate(ibeta * SQRT3_HALF / 0x8000_0000, ialpha * 0x4000_0000 / 0x8000_0000);
  }

  lemma RootOfThree(r: real)
    requires r > 0.0 && r * r == 3.0
    ensures 1.7320508075688 < r < 1.7320508075689
  {
    SquareGrows(r, 1.7320508075688);
    SquareGrows(1.7320508075689, r);
  }

  lemma SquareGrows(a: real, b: real)
    requires 0.0 < a && 0.0 < b
    ensures a <= b ==> a * a <= b * b
  {
    if a <= b {
      ScaleReal(a, b, a);
      ScaleReal(a, b, b);
    }
  }

  lemma ScaleReal(a: real, b: real, c: real)
    requires a <= b && c >= 0.0
    ensures a * c <= b * c
  {}

  predicate InBand(n: real, y: real) {
    && (n >= 0.0 ==> 1.7320508075688 * n <= y <= 1.7320508075689 * n)
    && (n <= 0.0 ==> 1.7320508075689 * n <= y <= 1.7320508075688 * n)
  }

  /** A product with the root lies between the products with its bounds. */
  lemma RootBand(n: real, root: real)
    requires 1.7320508075688 < root < 1.7320508075689
    ensures InBand(n, n * root)
  {
    if n >= 0.0 {
      ScaleReal(root, 1.7320508075689, n);
      ScaleReal(1.7320508075688, root, n);
    } else {
      ScaleReal(root, 1.7320508075689, -n);
      ScaleReal(1.7320508075688, root, -n);
      assert root * -n == -(n * root);
    }
  }

  /** Where nothing wraps or saturates, beta is (ia + 2 ib) / sqrt 3 to within three units. */
  lemma ClarkeIsTransform(ia: i32, ib: i32, root: real)
    requires root > 0.0 && root * root == 3.0
    requires -IB_LIMIT <= ib <= IB_LIMIT && FitsI32(BetaSum(ia, ib))
    ensures var n := ia as int + 2 * ib as int;
            -5.0 < Clarke(ia, ib).1 as real * root - n as real < 2.0
  {
    hide Clarke;
    ClarkeSaturatesExactly(ia, ib);
    RootOfThree(root);
    var beta: int, n: int := BetaSum(ia, ib), ia as int + 2 * ib as int;
    assert 0x4000_0000 * beta <= 0x24F3_4E8B * n < 0x4000_0000 * beta + 2 * 0x4000_0000;
    hide *;
    TransformError(beta as real, n as real, root);
  }

  lemma TransformError(beta: real, n: real, root: real)
    requires 1.7320508075688 < root < 1.7320508075689
    requires -6000000000.0 < n < 6000000000.0
    requires 1073741824.0 * beta <= 619925131.0 * n < 1073741824.0 * beta + 2147483648.0
    ensures -5.0 < beta * root - n < 2.0
  {
    var most := 619925131.0 / 1073741824.0 * n;
    assert most - 2.0 <= beta <= most;
    var x, y := beta * root, n * root;
    ScaleReal(beta, most, root);
    ScaleReal(most - 2.0, beta, root);
    assert most * root == 619925131.0 / 1073741824.0 * (n * root);
    assert (most - 2.0) * root == most * root - 2.0 * root;
    RootBand(n, root);
    TransformBand(x, y, n);
  }

  lemma TransformBand(x: real, y: real, n: real)
    requires -6000000000.0 < n < 6000000000.0
    requires InBand(n, y)
    requires 619925131.0 / 1073741824.0 * y - 3.4641016151378 <= x <= 619925131.0 / 1073741824.0 * y
    ensures -5.0 < x - n < 2.0
  {}

  /** Where it does not saturate, the inverse's second output is (sqrt 3 * ibeta - ialpha) / 2 to within two units. */
  lemma InvClarkeIsTransform(ialpha: i32, ibeta: i32, root: real)
    requires root > 0.0 && root * root == 3.0
    requires FitsI32(ibeta * 0x6ED9_EBA1 / 0x8000_0000 - ialpha * 0x4000_0000 / 0x8000_0000)
    ensures -4.0 < 2.0 * (InvClarke(ialpha, ibeta).1 as real) - (ibeta as real * root - ialpha as real) < 4.0
  {
    hide InvClarke;
    InvClarkeSaturates(ialpha, ibeta);
    RootOfThree(root);
    var g: int, e: int := ibeta * 0x6ED9_EBA1 / 0x8000_0000, ialpha * 0x4000_0000 / 0x8000_0000;
    assert 0x8000_0000 * g <= ibeta * 0x6ED9_EBA1 < 0x8000_0000 * g + 0x8000_0000 && 0 <= ialpha - 2 * e < 2;
    hide *;
    InverseTransformError(g as real, e as real, ialpha as real, ibeta as real, root);
  }

  lemma InverseTransformError(g: real, e: real, alpha: real, beta: real, root: real)
    requires 1.7320508075688 < root < 1.7320508075689 && -2147483648.0 <= beta <= 2147483648.0
    requires 2147483648.0 * g <= 1859775393.0 * beta < 2147483648.0 * g + 2147483648.0
    requires 0.0 <= alpha - 2.0 * e < 2.0
    ensures -4.0 < 2.0 * (g - e) - (beta * root - alpha) < 4.0
  {
    hide InBand;
    RootBand(beta, root);
    InverseBand(g, e, alpha, beta, beta * root);
  }

  lemma InverseBand(g: real, e: real, alpha: real, beta: real, y: real)
    requires -2147483648.0 <= beta <= 2147483648.0
    requires InBand(beta, y)
    requires 2147483648.0 * g <= 1859775393.0 * beta < 2147483648.0 * g + 2147483648.0
    requires 0.0 <= alpha - 2.0 * e < 2.0
    ensures -4.0 < 2.0 * (g - e) - (y - alpha) < 4.0
  {}

  /** Clarke, then inverse Clarke, without a wrap or a saturation in the first: ia comes back
      exactly and ib at most three units below and one above; the inverse never saturates. */
  lemma ClarkeRoundTrip(ia: i32, ib: i32)
    requires -IB_LIMIT <= ib <= IB_LIMIT && FitsI32(BetaSum(ia, ib))
    ensures var (alpha, beta) := Clarke(ia, ib);
            var (a, b) := InvClarke(alpha, beta);
            a == ia && -3 <= b as int - ib as int <= 1
  {
    hide Clarke, BetaSum, InvClarke, ClipQ63ToQ31;
    ClarkeSaturatesExactly(ia, ib);
    var beta: int := BetaSum(ia, ib);
    assert Clarke(ia, ib) == (ia, beta);
    InverseError(ia, ib);
    CodedInverse(ia, beta);
    ClipQ63ToQ31Saturates(beta * SQRT3_HALF / 0x8000_0000 - ia * 0x4000_0000 / 0x8000_0000);
  }

  lemma InverseError(ia: int, ib: int)
    requires FitsI32(ia) && -IB_LIMIT <= ib <= IB_LIMIT
    ensures -3 <= BetaSum(ia, ib) * SQRT3_HALF / 0x8000_0000 - ia * 0x4000_0000 / 0x8000_0000 - ib <= 1
  {
    var h1, h2 := ia * INV_SQRT3 / 0x4000_0000, ib * TWO_INV_SQRT3 / 0x4000_0000;
    LinearError(ia, ib, h1, h2, (h1 + h2) * SQRT3_HALF / 0x8000_0000, ia * 0x4000_0000 / 0x8000_0000);
  }

  /** The three constants multiply to 1/2 and 1 closely enough: four floors and two constant errors. */
  lemma LinearError(ia: int, ib: int, h1: int, h2: int, g: int, e: int)
    requires FitsI32(ia) && -IB_LIMIT <= ib <= IB_LIMIT
    requires 0 <= ia * INV_SQRT3 - h1 * 0x4000_0000 < 0x4000_0000
    requires 0 <= ib * TWO_INV_SQRT3 - h2 * 0x4000_0000 < 0x4000_0000
    requires 0 <= (h1 + h2) * SQRT3_HALF - g * 0x8000_0000 < 0x8000_0000
    requires 0 <= ia - 2 * e < 2
    ensures -3 <= g - e - ib <= 1
  {}

  lemma CodedInverse(ialpha: i32, ibeta: i32)
    ensures FitsI32(ibeta * SQRT3_HALF / 0x8000_0000) && FitsI32(ialpha * 0x4000_0000 / 0x8000_0000)
    ensures InvClarke(ialpha, ibeta) ==
            (ialpha, Qsub(ibeta * SQRT3_HALF / 0x8000_0000, ialpha * 0x4000_0000 / 0x8000_0000))
  {
    hide ToI64, ToI32, Qsub;
    SameI64(ialpha * 0x4000_0000);
    SameI64(ibeta * SQRT3_HALF);
    SameI32(ialpha * 0x4000_0000 / 0x8000_0000);
    SameI32(ibeta * SQRT3_HALF / 0x8000_0000);
  }

  // ---- Park ----

  // (q31_t) (((q63_t) a * b) >> 31)
  function Mul31(a: i32, b: i32): i32 { ToI32(ToI64(a * b) / 0x8000_0000) }

  /** Both factors at -1.0: the one product whose result leaves the format. */
  predicate Turns(a: i32, b: i32) { a == -0x8000_0000 && b == -0x8000_0000 }

  lemma Mul31Exactly(a: i32, b: i32)
    ensures Mul31(a, b) == (a * b) / 0x8000_0000 <==> !Turns(a, b)
  {
    ProductBound(a, b, 0x8000_0000, 0x8000_0000);
    SameI64(a * b);
    hide ToI64;
    if !Turns(a, b) {
      if a > -0x8000_0000 {
        ProductBound(a, b, 0x7FFF_FFFF, 0x8000_0000);
      } else {
        ProductBound(a, b, 0x8000_0000, 0x7FFF_FFFF);
      }
    }
  }

  /** That product wraps to -1.0. */
  lemma Mul31Turned(a: i32, b: i32)
    requires Turns(a, b)
    ensures Mul31(a, b) == -0x8000_0000
  {}

  function Park(ialpha: i32, ibeta: i32, sinVal: i32, cosVal: i32): (i32, i32) {
    (Qadd(Mul31(ialpha, cosVal), Mul31(ibeta, sinVal)),
     Qsub(Mul31(ibeta, cosVal), Mul31(ialpha, sinVal)))
  }

  function InvPark(id: i32, iq: i32, sinVal: i32, cosVal: i32): (i32, i32) {
    (Qsub(Mul31(id, cosVal), Mul31(iq, sinVal)),
     Qadd(Mul31(iq, cosVal), Mul31(id, sinVal)))
  }

  /** For every input the sums and differences of the four products saturate. */
  lemma RotationsSaturate(a: i32, b: i32, s: i32, c: i32)
    ensures Park(a, b, s, c) == (Clamp32(Mul31(a, c) + Mul31(b, s)), Clamp32(Mul31(b, c) - Mul31(a, s)))
    ensures InvPark(a, b, s, c) == (Clamp32(Mul31(a, c) - Mul31(b, s)), Clamp32(Mul31(b, c) + Mul31(a, s)))
  {
    hide Mul31, Qadd, Qsub;
    QaddQsubSaturate(Mul31(a, c), Mul31(b, s));
    QaddQsubSaturate(Mul31(b, c), Mul31(a, s));
  }

  /** Where no product turns over, they are those of the exact floors. */
  lemma RotationsAre(a: i32, b: i32, s: i32, c: i32)
    requires !Turns(a, c) && !Turns(b, s) && !Turns(a, s) && !Turns(b, c)
    ensures Park(a, b, s, c) == (Clamp32(a * c / 0x8000_0000 + b * s / 0x8000_0000),
                                 Clamp32(b * c / 0x8000_0000 - a * s / 0x8000_0000))
    ensures InvPark(a, b, s, c) == (Clamp32(a * c / 0x8000_0000 - b * s / 0x8000_0000),
                                    Clamp32(b * c / 0x8000_0000 + a * s / 0x8000_0000))
  {
    hide *;
    Products(a, b, s, c);
    RotationsSaturate(a, b, s, c);
  }

  /** No product turns over and no sum saturates, in either pair of outputs. */
  predicate Plain(a: i32, b: i32, s: i32, c: i32, sign: int) {
    && !Turns(a, c) && !Turns(b, s) && !Turns(a, s) && !Turns(b, c)
    && FitsI32(a * c / 0x8000_0000 + sign * (b * s / 0x8000_0000))
    && FitsI32(b * c / 0x8000_0000 - sign * (a * s / 0x8000_0000))
  }

  lemma PlainPark(a: i32, b: i32, s: i32, c: i32)
    requires Plain(a, b, s, c, 1)
    ensures Park(a, b, s, c) == (a * c / 0x8000_0000 + b * s / 0x8000_0000, b * c / 0x8000_0000 - a * s / 0x8000_0000)
  {
    Products(a, b, s, c);
    hide Mul31, ClipQ63ToQ31;
    ClipQ63ToQ31Saturates(Mul31(a, c) + Mul31(b, s));
    ClipQ63ToQ31Saturates(Mul31(b, c) - Mul31(a, s));
  }

  lemma PlainInvPark(d: i32, q: i32, s: i32, c: i32)
    requires Plain(d, q, s, c, -1)
    ensures InvPark(d, q, s, c) == (d * c / 0x8000_0000 - q * s / 0x8000_0000, q * c / 0x8000_0000 + d * s / 0x8000_0000)
  {
    Products(d, q, s, c);
    hide Mul31, ClipQ63ToQ31;
    ClipQ63ToQ31Saturates(Mul31(d, c) - Mul31(q, s));
    ClipQ63ToQ31Saturates(Mul31(q, c) + Mul31(d, s));
  }

  lemma Products(a: i32, b: i32, s: i32, c: i32)
    requires !Turns(a, c) && !Turns(b, s) && !Turns(a, s) && !Turns(b, c)
    ensures Mul31(a, c) == a * c / 0x8000_0000 && Mul31(b, s) == b * s / 0x8000_0000
    ensures Mul31(a, s) == a * s / 0x8000_0000 && Mul31(b, c) == b * c / 0x8000_0000
  {
    hide Mul31;
    Mul31Exactly(a, c);
    Mul31Exactly(b, s);
    Mul31Exactly(a, s);
    Mul31Exactly(b, c);
  }

  /** Park, then inverse Park, with the same angle: both components come back scaled by
      sin^2 + cos^2. The rounding errors depend on the angle values as stated (everything scaled by 2^62). */
  lemma ParkRoundTrip(alpha: i32, beta: i32, s: i32, c: i32)
    requires Plain(alpha, beta, s, c, 1)
    requires var (d, q) := Park(alpha, beta, s, c); Plain(d, q, s, c, -1)
    ensures var (d, q) := Park(alpha, beta, s, c);
            var (a, b) := InvPark(d, q, s, c);
            && RoundingAlpha(0x4000_0000_0000_0000 * a - alpha * (s * s + c * c), s, c)
            && RoundingBeta(0x4000_0000_0000_0000 * b - beta * (s * s + c * c), s, c)
  {
    var d: int, q: int := alpha * c / 0x8000_0000 + beta * s / 0x8000_0000, beta * c / 0x8000_0000 - alpha * s / 0x8000_0000;
    PlainPark(alpha, beta, s, c);
    PlainInvPark(d, q, s, c);
    hide *;
    TwoRotations(alpha, beta, s, c, d, q);
  }

  function Abs(x: int): int { if x < 0 then -x else x }

  predicate RoundingAlpha(error: int, s: int, c: int) {
    Abs(error) < 0x8000_0000 * (2 * Abs(c) + Abs(s)) + 0x4000_0000_0000_0000
  }

  predicate RoundingBeta(error: int, s: int, c: int) {
    -0x8000_0000 * (Abs(c) + 2 * Max(s, 0)) - 2 * 0x4000_0000_0000_0000 < error
    <= 0x8000_0000 * (Abs(c) + 2 * Max(-s, 0))
  }

  lemma TwoRotations(alpha: int, beta: int, s: int, c: int, d: int, q: int)
    requires d == alpha * c / 0x8000_0000 + beta * s / 0x8000_0000
    requires q == beta * c / 0x8000_0000 - alpha * s / 0x8000_0000
    ensures RoundingAlpha(0x4000_0000_0000_0000 * (d * c / 0x8000_0000 - q * s / 0x8000_0000)
                          - alpha * (s * s + c * c), s, c)
    ensures RoundingBeta(0x4000_0000_0000_0000 * (q * c / 0x8000_0000 + d * s / 0x8000_0000)
                         - beta * (s * s + c * c), s, c)
  {
    // r and t: what the first rotation loses in each component
    var r := alpha * c % 0x8000_0000 + beta * s % 0x8000_0000;
    var t := beta * c % 0x8000_0000 - alpha * s % 0x8000_0000;
    assert 0x8000_0000 * d == alpha * c + beta * s - r;
    assert 0x8000_0000 * q == beta * c - alpha * s - t;
    Rotated(alpha, beta, s, c, d, q, r, t);
    WeightedLoss(r, c, 0x1_0000_0000);
    WeightedLoss(r, s, 0x1_0000_0000);
    SignedLoss(t, c);
    SignedLoss(t, s);
    assert 0x8000_0000 * (d * c / 0x8000_0000) == d * c - d * c % 0x8000_0000;
    assert 0x8000_0000 * (q * s / 0x8000_0000) == q * s - q * s % 0x8000_0000;
    assert 0x8000_0000 * (q * c / 0x8000_0000) == q * c - q * c % 0x8000_0000;
    assert 0x8000_0000 * (d * s / 0x8000_0000) == d * s - d * s % 0x8000_0000;
  }

  lemma Rotated(alpha: int, beta: int, s: int, c: int, d: int, q: int, r: int, t: int)
    requires 0x8000_0000 * d == alpha * c + beta * s - r
    requires 0x8000_0000 * q == beta * c - alpha * s - t
    ensures 0x8000_0000 * (d * c - q * s) == alpha * (s * s + c * c) - r * c + t * s
    ensures 0x8000_0000 * (q * c + d * s) == beta * (s * s + c * c) - t * c - r * s
  {
    Scaled3(d, c, alpha * c, beta * s, r);
    Scaled3(q, s, beta * c, -(alpha * s), t);
    Scaled3(q, c, beta * c, -(alpha * s), t);
    Scaled3(d, s, alpha * c, beta * s, r);
    Distribute(alpha, s, c);
    Distribute(beta, s, c);
    assert (-(alpha * s)) * s == -(alpha * s * s) && (-(alpha * s)) * c == -(alpha * s * c);
  }

  lemma Scaled3(d: int, c: int, x: int, y: int, r: int)
    requires 0x8000_0000 * d == x + y - r
    ensures 0x8000_0000 * (d * c) == x * c + y * c - r * c
  {
    assert 0x8000_0000 * (d * c) == (x + y - r) * c;
  }

  lemma Distribute(a: int, s: int, c: int)
    ensures a * (s * s + c * c) == a * s * s + a * c * c && a * s * c == a * c * s
  {}

  /** A non-negative loss below the bound, weighted by w, has the sign of w. */
  lemma WeightedLoss(r: int, w: int, bound: int)
    requires 0 <= r < bound
    ensures -(bound * Max(-w, 0)) <= r * w <= bound * Max(w, 0)
  {
    if w >= 0 {
      MulMono(0, r, w);
      MulMono(r, bound, w);
    } else {
      MulMono(0, r, -w);
      MulMono(r, bound, -w);
      assert r * -w == -(r * w);
    }
  }

  lemma SignedLoss(t: int, w: int)
    requires -0x8000_0000 < t < 0x8000_0000
    ensures -(0x8000_0000 * Abs(w)) <= t * w <= 0x8000_0000 * Abs(w)
  {
    ProductBound(t, w, 0x8000_0000, Abs(w));
  }

  /** Hence alpha comes back within four units for every angle value, and beta between five below and
      three above; within four as well when |cos| + 2*sin is at most 2^32. */
  lemma ParkErrorUnits(error: int, s: i32, c: i32)
    ensures RoundingAlpha(error, s, c) ==> Abs(error) < 4 * 0x4000_0000_0000_0000
    ensures RoundingBeta(error, s, c) ==> -5 * 0x4000_0000_0000_0000 < error <= 3 * 0x4000_0000_0000_0000
    ensures RoundingBeta(error, s, c) && Abs(c) + 2 * s <= 0x1_0000_0000 ==> Abs(error) < 4 * 0x4000_0000_0000_0000
  {}

  /** Wherever nothing wraps or saturates, beta comes back within four units. */
  predicate WithinFour(alpha: i32, beta: i32, s: i32, c: i32) {
    Plain(alpha, beta, s, c, 1) ==>
      var (d, q) := Park(alpha, beta, s, c);
      Plain(d, q, s, c, -1) ==>
        Abs(0x4000_0000_0000_0000 * InvPark(d, q, s, c).1 - beta * (s * s + c * c)) < 4 * 0x4000_0000_0000_0000
  }

  /** The angle values up to a bound on |cos| + 2 sin. */
  predicate AngleUpTo(s: i32, c: i32, bound: int) { Abs(c) + 2 * s <= bound }

  /** Four units hold for every vector up to 2^32, and for no bound a thousandth above. */
  lemma FourUnitsThreshold(bound: int)
    ensures bound <= 0x1_0000_0000 ==>
              forall alpha: i32, beta: i32, s: i32, c: i32 :: AngleUpTo(s, c, bound) ==> WithinFour(alpha, beta, s, c)
    ensures (forall alpha: i32, beta: i32, s: i32, c: i32 :: AngleUpTo(s, c, bound) ==> WithinFour(alpha, beta, s, c)) ==>
              1000 * bound < 1001 * 0x1_0000_0000
  {
    hide WithinFour;
    if bound <= 0x1_0000_0000 {
      forall alpha: i32, beta: i32, s: i32, c: i32 | AngleUpTo(s, c, bound)
        ensures WithinFour(alpha, beta, s, c)
      {
        FourUnitsBelow(alpha, beta, s, c);
      }
    }
    ParkBetaBeyondFour();
    assert 1000 * bound >= 1001 * 0x1_0000_0000 ==> AngleUpTo(1291063815, 1716053684, bound);
  }

  lemma FourUnitsBelow(alpha: i32, beta: i32, s: i32, c: i32)
    requires Abs(c) + 2 * s <= 0x1_0000_0000
    ensures WithinFour(alpha, beta, s, c)
  {
    hide Park, InvPark, Plain, RoundingAlpha, RoundingBeta;
    if Plain(alpha, beta, s, c, 1) {
      var (d, q) := Park(alpha, beta, s, c);
      if Plain(d, q, s, c, -1) {
        ParkRoundTrip(alpha, beta, s, c);
        ParkErrorUnits(0x4000_0000_0000_0000 * InvPark(d, q, s, c).1 - beta * (s * s + c * c), s, c);
      }
    }
  }

  /** An angle near 37 degrees where beta loses more than four units. */
  lemma ParkBetaBeyondFour()
    ensures !WithinFour(120204958, 534529, 1291063815, 1716053684)
  {
    hide Park, InvPark;
    PlainPark(120204958, 534529, 1291063815, 1716053684);
    assert Park(120204958, 534529, 1291063815, 1716053684) == (96377110, -71839892);
    PlainInvPark(96377110, -71839892, 1291063815, 1716053684);
    assert InvPark(96377110, -71839892, 1291063815, 1716053684).1 == 534525;
  }
}
