/** The incremental Q31 PID controller: one step, whole runs, and the positional law it tracks. */
module PidQ31 {
  import opened Words
  import opened Saturation

  datatype Gains = Gains(a0: i32, a1: i32, a2: i32)

  datatype State = State(x1: i32, x2: i32, y: i32)

  const ZERO := State(0, 0, 0)

  function Accumulate(g: Gains, x: i32, s: State): i64 {
    var acc := ToI64(g.a0 * x);
    var acc' := ToI64(acc + ToI64(g.a1 * s.x1));
    ToI64(acc' + ToI64(g.a2 * s.x2))
  }

  function Step(g: Gains, s: State, x: i32): State {
    State(x, s.x1, ToI32(ToI32(Accumulate(g, x, s) / 0x8000_0000) + s.y))
  }

  function Run(g: Gains, xs: seq<i32>): State {
    if xs == [] then ZERO else Step(g, Run(g, xs[..|xs| - 1]), xs[|xs| - 1])
  }

  class Controller {
    var A0: i32
    var A1: i32
    var A2: i32
    const state: array<i32>
    ghost var inputs: seq<i32>

    ghost predicate Valid()
      reads this, state
    {
      state.Length == 3 &&
      View() == Run(Gains(A0, A1, A2), inputs)
    }

    ghost function View(): State
      requires state.Length == 3
      reads this, state
    {
      State(state[0], state[1], state[2])
    }

    constructor (a0: i32, a1: i32, a2: i32)
      ensures Valid() && fresh(state)
      ensures A0 == a0 && A1 == a1 && A2 == a2 && inputs == []
    {
      A0, A1, A2 := a0, a1, a2;
      state := new i32[3](_ => 0);
      inputs := [];
    }

    method Process(input: i32) returns (out: i32)
      requires Valid()
      modifies state, `inputs
      ensures Valid()
      ensures inputs == old(inputs) + [input]
      ensures out == state[2] == Run(Gains(A0, A1, A2), inputs).y
      ensures state[1] == old(state[0]) && state[0] == input
    {
      hide ToI64, ToI32;
      ghost var g := Gains(A0, A1, A2);
      ghost var before := View();
      var acc: i64 := ToI64(A0 * input);
      acc := ToI64(acc + ToI64(A1 * state[0]));
      acc := ToI64(acc + ToI64(A2 * state[1]));
      out := ToI32(acc / 0x8000_0000);
      out := ToI32(out + state[2]);
      state[1] := state[0];
      state[0] := input;
      state[2] := out;
      inputs := inputs + [input];
      assert inputs[..|inputs| - 1] == old(inputs);
      assert View() == Step(g, before, input);
    }
  }

  // ---- The law the controller is built from, in unbounded integers ----

  function At(xs: seq<i32>, n: int): int { if 0 <= n < |xs| then xs[n] else 0 }

  function Sum(xs: seq<i32>): int {
    if xs == [] then 0 else Sum(xs[..|xs| - 1]) + xs[|xs| - 1]
  }

  /** The positional PID law, scaled by 2^31: Kp*x[n] + Ki*sum(x) + Kd*(x[n] - x[n-1]). */
  function Positional(kp: int, ki: int, kd: int, xs: seq<i32>): int {
    kp * At(xs, |xs| - 1) + ki * Sum(xs) + kd * (At(xs, |xs| - 1) - At(xs, |xs| - 2))
  }

  lemma {:induction false} SumOfAll(a: seq<i32>, b: seq<i32>)
    ensures Sum(a + b) == Sum(a) + Sum(b) && (|b| == 1 ==> Sum(b) == b[0])
    decreases |b|
  {
    if b == [] {
      assert a + b == a;
    } else {
      var front := b[..|b| - 1];
      SumOfAll(a, front);
      assert (a + b)[..|a + b| - 1] == a + front;
    }
  }

  lemma SumOfNone()
    ensures Sum([]) == 0
  {}

  /** Spelled out for a run whose last two samples are x1 and x. */
  lemma PositionalIs(kp: int, ki: int, kd: int, before: seq<i32>, x1: i32, x: i32)
    ensures Positional(kp, ki, kd, before + [x1, x]) == kp * x + ki * (Sum(before) + x1 + x) + kd * (x as int - x1 as int)
    ensures Positional(kp, ki, kd, [x]) == kp * x + ki * x + kd * x && Positional(kp, ki, kd, []) == 0
  {
    hide Sum;
    SumOfAll(before, [x1, x]);
    SumOfAll([x1], [x]);
    SumOfAll([], [x1]);
    assert [x1] + [x] == [x1, x] && [] + [x1] == [x1];
    assert Sum([]) == 0 by { SumOfNone(); }
  }

  /** What the output would be if no register had a width. */
  function IdealOutput(g: Gains, xs: seq<i32>): int {
    if xs == [] then 0 else
      IdealOutput(g, xs[..|xs| - 1]) + Exact(g, xs) / 0x8000_0000
  }

  function Exact(g: Gains, xs: seq<i32>): int {
    g.a0 * At(xs, |xs| - 1) + g.a1 * At(xs, |xs| - 2) + g.a2 * At(xs, |xs| - 3)
  }

  predicate Derived(g: Gains, kp: int, ki: int, kd: int) {
    g.a0 == kp + ki + kd && g.a1 == -kp - 2 * kd && g.a2 == kd
  }

  lemma {:induction false} RunRemembers(g: Gains, xs: seq<i32>)
    ensures Run(g, xs).x1 == At(xs, |xs| - 1) && Run(g, xs).x2 == At(xs, |xs| - 2)
    ensures Run(g, xs).x1 == (if |xs| > 0 then xs[|xs| - 1] else 0) && Run(g, xs).x2 == (if |xs| > 1 then xs[|xs| - 2] else 0)
    ensures xs == [] ==> Run(g, xs).y == 0
  {
    if xs != [] {
      RunRemembers(g, xs[..|xs| - 1]);
    }
  }

  /** One step of the law is the increment A0*x[n] + A1*x[n-1] + A2*x[n-2]. */
  lemma IncrementOfLaw(g: Gains, kp: int, ki: int, kd: int, xs: seq<i32>)
    requires xs != [] && Derived(g, kp, ki, kd)
    ensures Positional(kp, ki, kd, xs) == Positional(kp, ki, kd, xs[..|xs| - 1]) + Exact(g, xs)
  {
    var x, x1, x2 := At(xs, |xs| - 1), At(xs, |xs| - 2), At(xs, |xs| - 3);
    var s := Sum(xs[..|xs| - 1]);
    assert ki * (s + x) == ki * s + ki * x;
    assert kd * (x - x1) == kd * x - kd * x1 && kd * (x1 - x2) == kd * x1 - kd * x2;
    assert (kp + ki + kd) * x == kp * x + ki * x + kd * x;
    assert (-kp - 2 * kd) * x1 == -(kp * x1) - 2 * (kd * x1);
  }

  /** Dropping multiples of 2^64 from the accumulator is invisible after the shift and the 32-bit cast. */
  lemma WrapsAreInvisible(g: Gains, s: State, x: i32, total: int, y: int)
    requires total == g.a0 * x + g.a1 * s.x1 + g.a2 * s.x2
    requires s.y == ToI32(y)
    ensures Step(g, s, x).y == ToI32(y + total / 0x8000_0000) && Step(g, s, x).x1 == x && Step(g, s, x).x2 == s.x1
  {
    hide ToI64, ToI32;
    ProductBound(g.a0, x, 0x8000_0000, 0x8000_0000);
    ProductBound(g.a1, s.x1, 0x8000_0000, 0x8000_0000);
    ProductBound(g.a2, s.x2, 0x8000_0000, 0x8000_0000);
    SumOfWrapped(g.a0 * x, g.a1 * s.x1, g.a2 * s.x2, y);
  }

  lemma SumOfWrapped(p0: int, p1: int, p2: int, y: int)
    requires FitsI64(p0) && FitsI64(p1) && FitsI64(p2)
    ensures ToI32(ToI32(ToI64(ToI64(ToI64(p0) + ToI64(p1)) + ToI64(p2)) / 0x8000_0000) + ToI32(y))
         == ToI32(y + (p0 + p1 + p2) / 0x8000_0000)
  {
    hide ToI64, ToI32;
    SameI64(p0);
    SameI64(p1);
    SameI64(p2);
    var inner: int := ToI64(p0 + p1);
    var _, k1 := CastTurns(p0 + p1);
    var _, k2 := CastTurns(inner + p2);
    ShiftedSum(ToI64(inner + p2), p0 + p1 + p2, k1 + k2, y);
  }

  lemma ShiftedSum(acc: int, total: int, k: int, y: int)
    requires acc == total + k * 0x1_0000_0000_0000_0000
    ensures ToI32(ToI32(acc / 0x8000_0000) + ToI32(y)) == ToI32(y + total / 0x8000_0000)
  {
    var shifted := acc / 0x8000_0000;
    assert shifted == total / 0x8000_0000 + 2 * k * 0x1_0000_0000;
    var k3, _ := CastTurns(shifted);
    var k4, _ := CastTurns(y);
    CastIgnoresTurns(ToI32(shifted) + ToI32(y), y + total / 0x8000_0000, 2 * k + k3 + k4);
  }

  /** Every output is the ideal output reduced to 32 bits, whatever wrapped on the way. */
  lemma {:induction false} OutputIsIdealModulo(g: Gains, xs: seq<i32>)
    ensures Run(g, xs).y == ToI32(IdealOutput(g, xs))
  {
    if xs != [] {
      var before := xs[..|xs| - 1];
      OutputIsIdealModulo(g, before);
      RunRemembers(g, before);
      WrapsAreInvisible(g, Run(g, before), xs[|xs| - 1], Exact(g, xs), IdealOutput(g, before));
    }
  }

  /** The ideal output follows the law from below, losing less than one unit per step. */
  lemma {:induction false} IdealTracksLaw(g: Gains, kp: int, ki: int, kd: int, xs: seq<i32>)
    requires Derived(g, kp, ki, kd)
    ensures 0 <= Positional(kp, ki, kd, xs) - 0x8000_0000 * IdealOutput(g, xs) <= |xs| * 0x7FFF_FFFF
  {
    if xs != [] {
      IdealTracksLaw(g, kp, ki, kd, xs[..|xs| - 1]);
      IncrementOfLaw(g, kp, ki, kd, xs);
    }
  }

  predicate Tracks(kp: int, ki: int, kd: int, xs: seq<i32>, y: int) {
    0 <= Positional(kp, ki, kd, xs) - 0x8000_0000 * y <= |xs| * 0x7FFF_FFFF
  }

  lemma OnlyOneTurnTracks(law: int, ideal: int, n: nat)
    requires 0 <= law - 0x8000_0000 * ideal <= n * 0x7FFF_FFFF
    ensures FitsI32(ideal) ==> 0 <= law - 0x8000_0000 * ToI32(ideal) <= n * 0x7FFF_FFFF
    ensures n <= 0x1_0000_0000 && 0 <= law - 0x8000_0000 * ToI32(ideal) <= n * 0x7FFF_FFFF ==> FitsI32(ideal)
  {
    var k, _ := CastTurns(ideal);
  }

  /** Main result. For every run the controller's output tracks the positional law whenever the ideal
      output fits 32 bits now; wraps of earlier outputs or of the 64-bit accumulator leave no trace.
      It tracks only then, for runs of up to 2^32 samples, over which truncation cannot add up to a turn. */
  lemma TracksExactlyWhenInRange(g: Gains, kp: int, ki: int, kd: int, xs: seq<i32>)
    requires Derived(g, kp, ki, kd)
    ensures Tracks(kp, ki, kd, xs, Run(g, xs).y) <==>
              0 <= Positional(kp, ki, kd, xs) - 0x8000_0000 * Run(g, xs).y <= |xs| * 0x7FFF_FFFF
    ensures FitsI32(IdealOutput(g, xs)) ==> Tracks(kp, ki, kd, xs, Run(g, xs).y)
    ensures |xs| <= 0x1_0000_0000 ==> (Tracks(kp, ki, kd, xs, Run(g, xs).y) <==> FitsI32(IdealOutput(g, xs)))
  {
    OutputIsIdealModulo(g, xs);
    IdealTracksLaw(g, kp, ki, kd, xs);
    var y: int, ideal: int := Run(g, xs).y, IdealOutput(g, xs);
    OnlyOneTurnTracks(Positional(kp, ki, kd, xs), ideal, |xs|);
  }

  // ---- Saturation ----

  lemma WrapIsClamp(v: int)
    requires -0x2_0000_0000 <= v < 0x2_0000_0000
    ensures ToI32(v) == Clamp32(v) <==> FitsI32(v) || v == 3 * 0x8000_0000 - 1 || v == -3 * 0x8000_0000
  {}

  /** The comment above the routine promises a saturated result; the sum of two 32-bit values is stored
      without saturation. In any state the stored output is the saturated exact one only when that fits,
      or at the two values that wrap to the limit itself. */
  lemma SaturatesExactly(g: Gains, s: State, x: i32, total: int)
    requires total == g.a0 * x + g.a1 * s.x1 + g.a2 * s.x2
    ensures var v := total / 0x8000_0000 + s.y;
            && (Step(g, s, x).y == Clamp32(v) <==> FitsI32(v) || v == 3 * 0x8000_0000 - 1 || v == -3 * 0x8000_0000)
            && Step(g, s, x).y == (v + 0x8000_0000) % 0x1_0000_0000 - 0x8000_0000
  {
    hide *;
    ProductBound(g.a0, x, 0x8000_0000, 0x8000_0000);
    ProductBound(g.a1, s.x1, 0x8000_0000, 0x8000_0000);
    ProductBound(g.a2, s.x2, 0x8000_0000, 0x8000_0000);
    StoredIsWrapped(g, s, x, total);
    QuotientBound(total);
    WrapIsClamp(total / 0x8000_0000 + s.y);
  }

  lemma StoredIsWrapped(g: Gains, s: State, x: i32, total: int)
    requires total == g.a0 * x + g.a1 * s.x1 + g.a2 * s.x2
    ensures Step(g, s, x).y == ToI32(total / 0x8000_0000 + s.y)
    ensures var v := total / 0x8000_0000 + s.y; ToI32(v) == (v + 0x8000_0000) % 0x1_0000_0000 - 0x8000_0000
  {
    hide Step;
    SameI32(s.y);
    WrapsAreInvisible(g, s, x, total, s.y);
  }

  lemma QuotientBound(total: int)
    requires -3 * 0x4000_0000_0000_0000 <= total <= 3 * 0x4000_0000_0000_0000
    ensures -3 * 0x8000_0000 <= total / 0x8000_0000 <= 3 * 0x8000_0000
  {}

  function ExactStep(g: Gains, s: State, x: i32): int { g.a0 * x + g.a1 * s.x1 + g.a2 * s.x2 }

  /** The controller the comment describes: exact products, one shift, one saturated addition. */
  function SaturatedRun(g: Gains, xs: seq<i32>): State {
    if xs == [] then ZERO
    else
      var s := SaturatedRun(g, xs[..|xs| - 1]);
      var x := xs[|xs| - 1];
      State(x, s.x1, Clamp32(ExactStep(g, s, x) / 0x8000_0000 + s.y))
  }

  /** The stored sum is the saturated one. */
  predicate Harmless(g: Gains, s: State, x: i32) {
    var v := ExactStep(g, s, x) / 0x8000_0000 + s.y;
    FitsI32(v) || v == 3 * 0x8000_0000 - 1 || v == -3 * 0x8000_0000
  }

  predicate SameAt(g: Gains, xs: seq<i32>, n: nat)
    requires n <= |xs|
  {
    Run(g, xs[..n]) == SaturatedRun(g, xs[..n])
  }

  predicate HarmlessAt(g: Gains, xs: seq<i32>, n: nat)
    requires n < |xs|
  {
    Harmless(g, Run(g, xs[..n]), xs[n])
  }

  lemma SameNext(g: Gains, xs: seq<i32>, n: nat)
    requires n < |xs| && SameAt(g, xs, n)
    ensures SameAt(g, xs, n + 1) <==> HarmlessAt(g, xs, n)
  {
    hide Step, Harmless, ExactStep;
    assert xs[..n + 1][..n] == xs[..n];
    SaturatesNow(g, Run(g, xs[..n]), xs[n]);
  }

  lemma {:induction false} SameThroughout(g: Gains, xs: seq<i32>, n: nat)
    requires n <= |xs| && forall m :: 0 <= m < |xs| ==> HarmlessAt(g, xs, m)
    ensures SameAt(g, xs, n)
  {
    if n == 0 {
      assert xs[..0] == [];
    } else {
      hide SameAt, HarmlessAt;
      SameThroughout(g, xs, n - 1);
      SameNext(g, xs, n - 1);
    }
  }

  /** Over a whole run the code is the saturating controller at every sample exactly when every stored
      sum fits or wraps to the limit itself. */
  lemma RunSaturatesExactly(g: Gains, xs: seq<i32>)
    ensures (forall n :: 0 <= n <= |xs| ==> SameAt(g, xs, n)) <==> (forall n :: 0 <= n < |xs| ==> HarmlessAt(g, xs, n))
  {
    hide SameAt, HarmlessAt;
    if forall n :: 0 <= n < |xs| ==> HarmlessAt(g, xs, n) {
      forall n | 0 <= n <= |xs|
        ensures SameAt(g, xs, n)
      {
        SameThroughout(g, xs, n);
      }
    } else {
      var n :| 0 <= n < |xs| && !HarmlessAt(g, xs, n);
      if SameAt(g, xs, n) {
        SameNext(g, xs, n);
      }
    }
  }

  lemma SaturatesNow(g: Gains, s: State, x: i32)
    ensures Step(g, s, x) == State(x, s.x1, Clamp32(ExactStep(g, s, x) / 0x8000_0000 + s.y)) <==> Harmless(g, s, x)
  {
    hide Clamp32, Accumulate, ToI32, ToI64;
    SaturatesExactly(g, s, x, ExactStep(g, s, x));
  }

  /** A run that reaches the difference. */
  lemma OutputIsNotSaturated()
    ensures var g := Gains(0x7FFF_FFFF, 0, 0);
            var xs: seq<i32> := [0x7FFF_FFFF, 0x7FFF_FFFF];
            IdealOutput(g, xs) == 0xFFFF_FFFC && Run(g, xs).y == -4
  {
    var g := Gains(0x7FFF_FFFF, 0, 0);
    var first: seq<i32> := [0x7FFF_FFFF];
    var xs: seq<i32> := [0x7FFF_FFFF, 0x7FFF_FFFF];
    OutputIsIdealModulo(g, xs);
    hide Run, ToI64;
    assert IdealOutput(g, first) == 0x7FFF_FFFE by {
      assert first[..0] == [];
      assert Exact(g, first) == 0x3FFF_FFFF_0000_0001;
    }
    assert IdealOutput(g, xs) == 0xFFFF_FFFC by {
      assert xs[..1] == first;
      assert Exact(g, xs) == 0x3FFF_FFFF_0000_0001;
    }
  }
}
