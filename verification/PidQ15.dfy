/** The Q15 PID controller in its two builds, scalar and packed-lane, and how far apart they drift. */
module PidQ15 {
  import opened Words
  import opened Saturation
  import opened Halfwords

  datatype Gains = Gains(a0: i16, a1: i16, a2: i16)

  datatype State = State(x1: i16, x2: i16, y: i16)

  /** The build selects the multiply-accumulate. The packed one exists only on cores with the SIMD
      instructions, so its `__SMLALD` is the instruction. */
  datatype Build = Scalar | Packed

  const ZERO := State(0, 0, 0)

  function Smuad(x: u32, y: u32): u32 {
    ToU32(ToI32(Lo(x) * Lo(y) + Hi(x) * Hi(y)))
  }

  /** The instruction sums both products in 64 bits. */
  function Smlald(x: u32, y: u32, sum: i64): i64 { ToI64(Lo(x) * Lo(y) + Hi(x) * Hi(y) + sum) }

  function Accumulate(build: Build, g: Gains, s: State, x: i16): i64 {
    match build
    case Scalar =>
      ToI64(ToI64(ToI32(g.a0 * x) + ToI32(g.a1 * s.x1)) + ToI32(g.a2 * s.x2))
    case Packed =>
      Smlald(Pack(g.a1, g.a2), Pack(s.x1, s.x2), ToI32(Smuad(ToU32(g.a0), ToU32(x))))
  }

  function Step(build: Build, g: Gains, s: State, x: i16): State {
    var acc := ToI64(Accumulate(build, g, s, x) + ToI32(s.y * 0x8000));
    State(x, s.x1, ToI16(SsatLimit(ToI32(acc / 0x8000), 16)))
  }

  function Run(build: Build, g: Gains, xs: seq<i16>): State {
    if xs == [] then ZERO else Step(build, g, Run(build, g, xs[..|xs| - 1]), xs[|xs| - 1])
  }

  class Controller {
    const build: Build
    var A0: i16
    var A1: i16
    var A2: i16
    const state: array<i16>
    ghost var inputs: seq<i16>

    ghost predicate Valid()
      reads this, state
    {
      state.Length == 3 &&
      View() == Run(build, Gains(A0, A1, A2), inputs)
    }

    ghost function View(): State
      requires state.Length == 3
      reads this, state
    {
      State(state[0], state[1], state[2])
    }

    constructor (build: Build, a0: i16, a1: i16, a2: i16)
      ensures Valid() && fresh(state)
      ensures this.build == build && A0 == a0 && A1 == a1 && A2 == a2 && inputs == []
    {
      this.build := build;
      A0, A1, A2 := a0, a1, a2;
      state := new i16[3](_ => 0);
      inputs := [];
    }

    method Process(input: i16) returns (out: i16)
      requires Valid()
      modifies state, `inputs
      ensures Valid()
      ensures inputs == old(inputs) + [input]
      ensures out == state[2] == Run(build, Gains(A0, A1, A2), inputs).y
      ensures state[1] == old(state[0]) && state[0] == input
    {
      hide ToI64, ToI32, ToI16, ToU32, Lo, Hi, Pack, SsatLimit;
      ghost var before := View();
      var acc: i64;
      match build {
        case Packed =>
          acc := ToI32(Smuad(ToU32(A0), ToU32(input)));
          acc := Smlald(Pack(A1, A2), Pack(state[0], state[1]), acc);
        case Scalar =>
          acc := ToI32(A0 * input);
          acc := ToI64(acc + ToI32(A1 * state[0]));
          acc := ToI64(acc + ToI32(A2 * state[1]));
      }
      var last: int := state[2];
      acc := ToI64(acc + ToI32(last * 0x8000));
      var saturated := Ssat(ToI32(acc / 0x8000), 16);
      out := ToI16(saturated);
      state[1] := state[0];
      state[0] := input;
      state[2] := out;
      inputs := inputs + [input];
      assert inputs[..|inputs| - 1] == old(inputs);
      assert View() == Step(build, Gains(A0, A1, A2), before, input);
    }
  }

  // ---- One step in exact integers ----

  /** The product of the two sign lanes, which `__SMUAD` adds to A0*x. */
  function SignProduct(g: Gains, x: i16): int { if g.a0 < 0 && x < 0 then 1 else 0 }

  function Exact(g: Gains, s: State, x: i16): int { g.a0 * x + g.a1 * s.x1 + g.a2 * s.x2 }

  lemma ProductsFit(g: Gains, s: State, x: i16)
    ensures -0x4000_0000 <= g.a0 * x <= 0x4000_0000
    ensures -0x4000_0000 <= g.a1 * s.x1 <= 0x4000_0000
    ensures -0x4000_0000 <= g.a2 * s.x2 <= 0x4000_0000
  {
    ProductBound(g.a0, x, 0x8000, 0x8000);
    ProductBound(g.a1, s.x1, 0x8000, 0x8000);
    ProductBound(g.a2, s.x2, 0x8000, 0x8000);
  }

  /** The scalar build accumulates the exact sum, the packed one the sign product on top. */
  lemma AccumulateExact(build: Build, g: Gains, s: State, x: i16)
    ensures Accumulate(build, g, s, x) == Exact(g, s, x) + (if build.Scalar? then 0 else SignProduct(g, x))
    ensures Exact(g, s, x) == g.a0 * x + g.a1 * s.x1 + g.a2 * s.x2
    ensures SignProduct(g, x) == if g.a0 < 0 && x < 0 then 1 else 0
  {
    hide Lo, Hi, Pack, ToI32, ToI64, ToU32, Smuad;
    ProductsFit(g, s, x);
    var p0: int, p1: int, p2: int := g.a0 * x, g.a1 * s.x1, g.a2 * s.x2;
    if build.Scalar? {
      ScalarSum(p0, p1, p2);
    } else {
      SignLanes(g, x);
      LanesOfPack(g.a1, g.a2);
      LanesOfPack(s.x1, s.x2);
      PackedSum(p0 + SignProduct(g, x), p1 + p2);
    }
  }

  lemma SignLanes(g: Gains, x: i16)
    ensures Smuad(ToU32(g.a0), ToU32(x)) == ToU32(ToI32(g.a0 * x + SignProduct(g, x)))
    ensures 0 <= SignProduct(g, x) <= 1
  {
    hide Lo, Hi, ToI32, ToU32;
    LanesOfSignExtended(g.a0);
    LanesOfSignExtended(x);
  }

  lemma PackedSum(first: int, pair: int)
    requires -0x4000_0000 <= first <= 0x4000_0001 && -0x8000_0000 <= pair <= 0x8000_0000
    ensures ToI64(pair + ToI32(ToU32(ToI32(first)))) == first + pair
  {
    SameI32(first);
    assert ToI32(ToU32(first)) == first;
    SameI64(first + pair);
  }

  lemma ScalarSum(p0: int, p1: int, p2: int)
    requires -0x4000_0000 <= p0 <= 0x4000_0000 && -0x4000_0000 <= p1 <= 0x4000_0000 && -0x4000_0000 <= p2 <= 0x4000_0000
    ensures ToI64(ToI64(ToI32(p0) + ToI32(p1)) + ToI32(p2)) == p0 + p1 + p2
  {
    hide ToI32, ToI64;
    SameI32(p0);
    SameI32(p1);
    SameI32(p2);
    SameI64(p0 + p1);
    SameI64(p0 + p1 + p2);
  }

  /** No other intermediate overflows: the output is the exact sum of products, shifted, added to the last
      output and saturated. */
  lemma StepExact(build: Build, g: Gains, s: State, x: i16)
    ensures var extra := if build.Packed? && g.a0 < 0 && x < 0 then 1 else 0;
            Step(build, g, s, x).y == Clamp16((g.a0 * x + g.a1 * s.x1 + g.a2 * s.x2 + extra) / 0x8000 + s.y)
    ensures Step(build, g, s, x).x1 == x && Step(build, g, s, x).x2 == s.x1
    ensures Step(build, g, s, x).y == Clamp16(Accumulate(build, g, s, x) / 0x8000 + s.y)
  {
    hide Accumulate, ToI64, ToI32, ToI16, SsatLimit, Clamp16, SignProduct;
    AccumulateExact(build, g, s, x);
    ProductsFit(g, s, x);
    assert 0 <= SignProduct(g, x) <= 1 by { SignLanes(g, x); }
    ScaledOutput(Accumulate(build, g, s, x), s.y);
  }

  lemma ScaledOutput(a: int, y: i16)
    requires -0x2_0000_0000 <= a <= 0x1_0000_0000
    ensures ToI16(SsatLimit(ToI32(ToI64(a + ToI32(y * 0x8000)) / 0x8000), 16)) == Clamp16(a / 0x8000 + y)
  {
    hide ToI64, ToI32, ToI16, Pow2;
    Pow2Values();
    var last: int := y;
    SameI32(last * 0x8000);
    SameI64(a + last * 0x8000);
    ModShift(a, last, 0x8000);
    SameI32(a / 0x8000 + last);
    SameI16(Clamp16(a / 0x8000 + last));
  }

  // ---- Whole runs ----

  function At(xs: seq<i16>, n: int): int { if 0 <= n < |xs| then xs[n] else 0 }

  /** The number of samples so far with a negative input meeting a negative gain A0. */
  function NegativePairs(g: Gains, xs: seq<i16>): nat {
    if xs == [] then 0 else NegativePairs(g, xs[..|xs| - 1]) + SignProduct(g, xs[|xs| - 1])
  }

  function Drift(g: Gains, xs: seq<i16>): int {
    Run(Packed, g, xs).y as int - Run(Scalar, g, xs).y as int
  }

  lemma {:induction false} RunRemembers(build: Build, g: Gains, xs: seq<i16>)
    ensures Run(build, g, xs).x1 == At(xs, |xs| - 1) && Run(build, g, xs).x2 == At(xs, |xs| - 2)
    ensures Run(build, g, xs).x1 == if |xs| > 0 then xs[|xs| - 1] else 0
    ensures Run(build, g, xs).x2 == if |xs| > 1 then xs[|xs| - 2] else 0
    ensures xs == [] ==> Run(build, g, xs).y == 0
  {
    if xs != [] {
      RunRemembers(build, g, xs[..|xs| - 1]);
    }
  }

  /** The count is that of the negative samples, where A0 is negative. */
  lemma {:induction false} NegativePairsAre(g: Gains, xs: seq<i16>)
    ensures NegativePairs(g, xs) == if g.a0 < 0 then |set i | 0 <= i < |xs| && xs[i] < 0| else 0
  {
    if xs != [] {
      var n := |xs| - 1;
      NegativePairsAre(g, xs[..n]);
      var before := set i | 0 <= i < n && xs[i] < 0;
      assert before == set i | 0 <= i < |xs[..n]| && xs[..n][i] < 0;
      assert (set i | 0 <= i < |xs| && xs[i] < 0) == if xs[n] < 0 then before + {n} else before;
    }
  }

  /** Saturation is monotone and never widens a gap. */
  lemma ClampGap(a: int, d: int, s: i16, t: i16)
    requires 0 <= d <= 1 && s <= t
    ensures 0 <= Clamp16((a + d) / 0x8000 + t) - Clamp16(a / 0x8000 + s) <= t as int - s as int + d
  {
    assert a / 0x8000 <= (a + d) / 0x8000 <= a / 0x8000 + d;
  }

  lemma StepDrift(g: Gains, xs: seq<i16>)
    requires xs != [] && Drift(g, xs[..|xs| - 1]) >= 0
    ensures 0 <= Drift(g, xs) <= Drift(g, xs[..|xs| - 1]) + SignProduct(g, xs[|xs| - 1])
  {
    var before, x := xs[..|xs| - 1], xs[|xs| - 1];
    var s, t := Run(Scalar, g, before), Run(Packed, g, before);
    RunRemembers(Scalar, g, before);
    RunRemembers(Packed, g, before);
    StepExact(Scalar, g, s, x);
    StepExact(Packed, g, t, x);
    AccumulateExact(Scalar, g, s, x);
    AccumulateExact(Packed, g, t, x);
    hide Step, Accumulate, Clamp16;
    ClampGap(Exact(g, s, x), SignProduct(g, x), s.y, t.y);
  }

  /** Main result. After every run the packed build stays at or above the scalar one, by at most the
      number of negative pairs seen. */
  lemma {:induction false} DriftBounded(g: Gains, xs: seq<i16>)
    ensures 0 <= Drift(g, xs) <= NegativePairs(g, xs)
  {
    hide Run, SignProduct;
    if xs == [] {
      assert Drift(g, xs) == 0 by { NoDriftYet(g); }
    } else {
      DriftBounded(g, xs[..|xs| - 1]);
      StepDrift(g, xs);
    }
  }

  lemma NoDriftYet(g: Gains)
    ensures Run(Scalar, g, []) == Run(Packed, g, []) == ZERO
  {}

  /** Every sample of this run makes the sign product carry into the output. */
  function Carrying(n: nat): seq<i16> { if n == 0 then [] else Carrying(n - 1) + [-0x7FFF] }

  lemma RunNext(build: Build, g: Gains, xs: seq<i16>, x: i16)
    ensures Run(build, g, xs + [x]) == Step(build, g, Run(build, g, xs), x)
  {
    hide Step;
    assert (xs + [x])[..|xs|] == xs;
  }

  const CARRY := Gains(-1, 0, 0)

  lemma CarryStep(build: Build, s: State)
    requires s.y < 0x7FFF
    ensures Step(build, CARRY, s, -0x7FFF).y == s.y as int + (if build.Scalar? then 0 else 1)
    ensures SignProduct(CARRY, -0x7FFF) == 1
  {
    hide Step, Accumulate;
    StepExact(build, CARRY, s, -0x7FFF);
    AccumulateExact(build, CARRY, s, -0x7FFF);
    CarriedQuotient();
    assert Exact(CARRY, s, -0x7FFF) == 0x7FFF;
    hide Exact;
  }

  lemma CarriedQuotient()
    ensures 0x7FFF / 0x8000 == 0 && 0x8000 / 0x8000 == 1
  {}

  /** The bound cannot be improved: a run of any length up to the output range reaches it. */
  lemma {:induction false} BoundIsReached(n: nat)
    requires n <= 0x7FFF
    ensures Run(Scalar, CARRY, Carrying(n)).y == 0
    ensures Run(Packed, CARRY, Carrying(n)).y == n == NegativePairs(CARRY, Carrying(n))
  {
    hide Step, SignProduct, Run;
    if n == 0 {
      NoDriftYet(CARRY);
    } else {
      var before := Carrying(n - 1);
      BoundIsReached(n - 1);
      RunNext(Scalar, CARRY, before, -0x7FFF);
      RunNext(Packed, CARRY, before, -0x7FFF);
      CarryStep(Scalar, Run(Scalar, CARRY, before));
      CarryStep(Packed, Run(Packed, CARRY, before));
      assert Carrying(n)[..|before|] == before;
    }
  }

  // ---- The C fallback of __SMLALD, on cores without the instruction ----

  function SmlaldFallback(x: u32, y: u32, sum: i64): i64 { ToI64(ToI32(Lo(x) * Lo(y) + Hi(x) * Hi(y)) + sum) }

  /** It sums the products in 32 bits, which differs from the instruction for one pair of operands only. */
  lemma SmlaldFallbackExactly(x: u32, y: u32, sum: i64)
    ensures SmlaldFallback(x, y, sum) == Smlald(x, y, sum) <==> !(x == 0x8000_8000 && y == 0x8000_8000)
    ensures x == 0x8000_8000 && y == 0x8000_8000 ==> SmlaldFallback(x, y, sum) == ToI64(sum - 0x8000_0000)
    ensures Smlald(x, y, sum) == ToI64(Lo(x) * Lo(y) + Hi(x) * Hi(y) + sum)
  {
    hide Lo, Hi, ToI32, ToI64;
    LowestLanes(x);
    LowestLanes(y);
    LowestProduct(Lo(x), Lo(y));
    LowestProduct(Hi(x), Hi(y));
    var products := Lo(x) * Lo(y) + Hi(x) * Hi(y);
    if products == 0x8000_0000 {
      TurnedSum(sum);
    } else {
      SameI32(products);
    }
  }

  lemma TurnedSum(sum: i64)
    ensures ToI64(ToI32(0x8000_0000) + sum) != ToI64(0x8000_0000 + sum) && ToI32(0x8000_0000) == -0x8000_0000
  {}

  lemma LowestLanes(x: u32)
    ensures FitsI16(Lo(x)) && FitsI16(Hi(x))
    ensures Lo(x) == -0x8000 && Hi(x) == -0x8000 <==> x == 0x8000_8000
  {
    hide Lo, Hi, ToI16;
    LanesByHalves(x, x % 0x1_0000, x / 0x1_0000);
  }

  lemma LowestProduct(a: i16, b: i16)
    ensures -0x4000_0000 <= a * b <= 0x4000_0000
    ensures a * b == 0x4000_0000 <==> a == -0x8000 && b == -0x8000
  {
    ProductBound(a, b, 0x8000, 0x8000);
    if a > -0x8000 {
      ProductBound(a, b, 0x7FFF, 0x8000);
    } else if b > -0x8000 {
      ProductBound(a, b, 0x8000, 0x7FFF);
    }
  }
}
