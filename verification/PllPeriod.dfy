/** The three shift registers have maximal period. Seen as a stream of output bits, stepping 2^j times
    is a fixed sum of short delays, found by squaring; after Width squarings it is a single step. */
module PllPeriod {
  import opened Words
  import opened Bits
  import opened Divisors
  import opened Orbit
  import opened PllDecode

  /** The bit shifted out at step n. */
  function Out(d: Field, n: nat): bool { State(d, n) % 2 == 1 }

  lemma BitAfterStep(d: Field, x: nat, k: nat)
    requires x < Pow2(Width(d)) && 0 < k < Width(d)
    ensures Bit(Step(d, x), k - 1) == Bit(x, k)
  {
    hide Pow2, Step, Feedback;
    StepIsShift(d, x);
    HalfBound(x, Width(d) - 1);
    BitOfLow(Step(d, x), Feedback(d, x), x / 2, Width(d) - 1, k - 1);
    BitShift(x, k - 1);
  }

  lemma HalfBound(x: nat, m: nat)
    requires x < Pow2(m + 1)
    ensures x / 2 < Pow2(m)
  {}

  /** The register holds the next Width output bits. */
  lemma {:induction false} StateHoldsStream(d: Field, n: nat, k: nat)
    requires k < Width(d)
    ensures Bit(State(d, n), k) == 1 <==> Out(d, n + k)
    decreases k
  {
    hide Step, State;
    if k == 0 {
      BitShift(State(d, n), 0);
    } else {
      StateBound(d, n);
      NextState(d, n);
      BitAfterStep(d, State(d, n), k);
      StateHoldsStream(d, n + 1, k - 1);
    }
  }

  // ---- Sums of delays ----

  /** The sum modulo 2 of the output bits at the given delays. */
  function Parity(d: Field, n: nat, delays: seq<nat>): bool
    decreases delays
  {
    if delays == [] then false else Out(d, n + delays[0]) != Parity(d, n, delays[1..])
  }

  function TapDelays(d: Field): seq<nat> {
    match d case N => [0, 2, 3, 4] case P => [0, 2] case M => [0, 1]
  }

  /** Looking m steps ahead is the given sum of delays, everywhere in the stream. */
  predicate JumpAt(d: Field, n: nat, m: nat, delays: seq<nat>) { Out(d, n + m) == Parity(d, n, delays) }

  ghost predicate Jump(d: Field, m: nat, delays: seq<nat>) { forall n :: JumpAt(d, n, m, delays) }

  lemma ParityCons(d: Field, n: nat, a: nat, rest: seq<nat>)
    ensures Parity(d, n, [a] + rest) == (Out(d, n + a) != Parity(d, n, rest))
  {
    hide Out;
    assert ([a] + rest)[1..] == rest;
  }

  lemma Parity1(d: Field, n: nat, a: nat)
    ensures Parity(d, n, [a]) == Out(d, n + a)
  {
    ParityCons(d, n, a, []);
    assert !Parity(d, n, []);
    hide Out, Parity;
    assert [a] == [a] + [];
  }

  lemma Parity2(d: Field, n: nat, a: nat, b: nat)
    ensures Parity(d, n, [a, b]) == (Out(d, n + a) != Out(d, n + b))
  {
    hide Out, Parity;
    assert [a, b] == [a] + [b];
    ParityCons(d, n, a, [b]);
    Parity1(d, n, b);
  }

  lemma Parity4(d: Field, n: nat, a: nat, b: nat, c: nat, e: nat)
    ensures Parity(d, n, [a, b, c, e]) == (Out(d, n + a) != (Out(d, n + b) != (Out(d, n + c) != Out(d, n + e))))
  {
    hide Out, Parity;
    assert [a, b, c, e] == [a] + [b, c, e] && [b, c, e] == [b] + [c, e];
    ParityCons(d, n, a, [b, c, e]);
    ParityCons(d, n, b, [c, e]);
    Parity2(d, n, c, e);
  }

  lemma Parity5(d: Field, n: nat, a: nat, b: nat, c: nat, e: nat, f: nat)
    ensures Parity(d, n, [a, b, c, e, f]) == (Out(d, n + a) != (Out(d, n + b) != (Out(d, n + c) != (Out(d, n + e) != Out(d, n + f)))))
  {
    hide Out, Parity;
    Parity4(d, n, b, c, e, f);
    ParityCons(d, n, a, [b, c, e, f]);
    assert [a] + [b, c, e, f] == [a, b, c, e, f];
  }

  lemma Parity6(d: Field, n: nat, a: nat, b: nat, c: nat, e: nat, f: nat, g: nat)
    ensures Parity(d, n, [a, b, c, e, f, g]) ==
            (Out(d, n + a) != (Out(d, n + b) != (Out(d, n + c) != (Out(d, n + e) != (Out(d, n + f) != Out(d, n + g))))))
  {
    hide Out, Parity;
    Parity5(d, n, b, c, e, f, g);
    ParityCons(d, n, a, [b, c, e, f, g]);
    assert [a] + [b, c, e, f, g] == [a, b, c, e, f, g];
  }

  /** The defining recurrence: Width steps ahead is the sum of the taps. */
  lemma Recurrence(d: Field)
    ensures Jump(d, Width(d), TapDelays(d))
  {
    forall n: nat
      ensures JumpAt(d, n, Width(d), TapDelays(d))
    {
      RecurrenceAt(d, n);
    }
  }

  lemma RecurrenceAt(d: Field, n: nat)
    ensures JumpAt(d, n, Width(d), TapDelays(d))
  {
    hide Out, Parity, Feedback, State;
    TopBit(d, n);
    TapBits(d, n);
  }

  lemma TopBit(d: Field, n: nat)
    ensures Out(d, n + Width(d)) <==> Feedback(d, State(d, n)) == 1
  {
    hide *;
    var x, w := State(d, n), Width(d);
    StateBound(d, n);
    NextState(d, n);
    WidthPositive(d);
    StepIsShift(d, x);
    HalfBound(x, w - 1);
    PllDecode.TapsParity(d, x);
    NewTopBit(State(d, n + 1), Feedback(d, x), x / 2, w - 1);
    StateHoldsStream(d, n + 1, w - 1);
  }

  lemma WidthPositive(d: Field)
    ensures Width(d) > 4
  {}

  lemma NewTopBit(v: nat, feed: nat, low: nat, m: nat)
    requires low < Pow2(m) && feed <= 1 && v == feed * Pow2(m) + low
    ensures Bit(v, m) == feed
  {
    BitOfHigh(v, feed, low, m);
  }

  lemma TapBits(d: Field, n: nat)
    ensures Feedback(d, State(d, n)) == 1 <==> Parity(d, n, TapDelays(d))
  {
    hide Bit, Out, Parity, State;
    StateHoldsStream(d, n, 0);
    StateHoldsStream(d, n, 1);
    StateHoldsStream(d, n, 2);
    StateHoldsStream(d, n, 3);
    StateHoldsStream(d, n, 4);
    Parity4(d, n, 0, 2, 3, 4);
    Parity2(d, n, 0, 2);
    Parity2(d, n, 0, 1);
  }

  function Doubled(delays: seq<nat>): seq<nat> {
    if delays == [] then [] else [2 * delays[0]] + Doubled(delays[1..])
  }

  /** The sum over outer delays of the sums over inner delays. */
  function DoubleParity(d: Field, n: nat, outer: seq<nat>, inner: seq<nat>): bool {
    if outer == [] then false
    else Parity(d, n + outer[0], inner) != DoubleParity(d, n, outer[1..], inner)
  }

  lemma {:induction false} DoubleParityPeel(d: Field, n: nat, outer: seq<nat>, inner: seq<nat>)
    requires inner != []
    ensures DoubleParity(d, n, outer, inner) ==
            (Parity(d, n + inner[0], outer) != DoubleParity(d, n, outer, inner[1..]))
  {
    hide Out;
    if outer != [] {
      DoubleParityPeel(d, n, outer[1..], inner);
      assert n + outer[0] + inner[0] == n + inner[0] + outer[0];
    }
  }

  /** Mixed terms cancel modulo 2. */
  lemma {:induction false} SquareCancels(d: Field, n: nat, delays: seq<nat>)
    ensures DoubleParity(d, n, delays, delays) == Parity(d, n, Doubled(delays))
  {
    hide Out;
    if delays != [] {
      var rest := delays[1..];
      SquareCancels(d, n, rest);
      DoubleParityPeel(d, n, rest, delays);
      assert n + delays[0] + delays[0] == n + 2 * delays[0];
      assert Doubled(delays)[1..] == Doubled(rest);
    }
  }

  lemma {:induction false} ParityOfJumps(d: Field, n: nat, m: nat, outer: seq<nat>, delays: seq<nat>)
    requires Jump(d, m, delays)
    ensures Parity(d, n + m, outer) == DoubleParity(d, n, outer, delays)
  {
    hide Out;
    if outer != [] {
      ParityOfJumps(d, n, m, outer[1..], delays);
      assert JumpAt(d, n + outer[0], m, delays);
      assert n + outer[0] + m == n + m + outer[0];
    }
  }

  /** Squaring: twice as far ahead is the same sum with doubled delays. */
  lemma Square(d: Field, m: nat, delays: seq<nat>)
    requires Jump(d, m, delays)
    ensures Jump(d, 2 * m, Doubled(delays))
  {
    forall n: nat
      ensures JumpAt(d, n, 2 * m, Doubled(delays))
    {
      assert JumpAt(d, n + m, m, delays);
      ParityOfJumps(d, n, m, delays, delays);
      SquareCancels(d, n, delays);
      assert n + m + m == n + 2 * m;
    }
  }

  // ---- The squaring chains ----

  lemma FirstJump(d: Field)
    ensures Jump(d, 1, [1])
  {
    forall n: nat
      ensures JumpAt(d, n, 1, [1])
    {
      Parity1(d, n, 1);
    }
  }

  /** Squaring, then rewriting the delays at or above Width by the recurrence. */
  lemma SquareTo(d: Field, m: nat, delays: seq<nat>, doubled: seq<nat>, reduced: seq<nat>)
    requires Jump(d, m, delays) && Doubled(delays) == doubled
    requires forall n: nat :: Parity(d, n, doubled) == Parity(d, n, reduced)
    ensures Jump(d, 2 * m, reduced)
  {
    Square(d, m, delays);
    forall n: nat
      ensures JumpAt(d, n, 2 * m, reduced)
    {
      assert JumpAt(d, n, 2 * m, doubled);
      assert Parity(d, n, doubled) == Parity(d, n, reduced);
    }
  }

  // The recurrence of each field, written out.

  lemma NextN(n: nat)
    ensures Out(N, n + 8) == (Out(N, n) != (Out(N, n + 2) != (Out(N, n + 3) != Out(N, n + 4))))
  {
    hide Out, Parity;
    RecurrenceAt(N, n);
    Parity4(N, n, 0, 2, 3, 4);
  }

  lemma NextP(n: nat)
    ensures Out(P, n + 5) == (Out(P, n) != Out(P, n + 2))
  {
    hide Out, Parity;
    RecurrenceAt(P, n);
    Parity2(P, n, 0, 2);
  }

  lemma NextM(n: nat)
    ensures Out(M, n + 15) == (Out(M, n) != Out(M, n + 1))
  {
    hide Out, Parity;
    RecurrenceAt(M, n);
    Parity2(M, n, 0, 1);
  }

  lemma ChainP()
    ensures Jump(P, 32, [1])
  {
    hide Out, Parity;
    FirstJump(P);
    SquareTo(P, 1, [1], [2], [2]);
    SquareTo(P, 2, [2], [4], [4]);
    forall n: nat ensures Parity(P, n, [8]) == Parity(P, n, [0, 2, 3]) { ReduceP8(n); }
    SquareTo(P, 4, [4], [8], [0, 2, 3]);
    forall n: nat ensures Parity(P, n, [0, 4, 6]) == Parity(P, n, [0, 1, 3, 4]) { ReduceP16(n); }
    SquareTo(P, 8, [0, 2, 3], [0, 4, 6], [0, 1, 3, 4]);
    forall n: nat ensures Parity(P, n, [0, 2, 6, 8]) == Parity(P, n, [1]) { ReduceP32(n); }
    SquareTo(P, 16, [0, 1, 3, 4], [0, 2, 6, 8], [1]);
  }

  lemma ReduceP8(n: nat)
    ensures Parity(P, n, [8]) == Parity(P, n, [0, 2, 3])
  {
    hide Out;
    NextP(n); NextP(n + 3);
  }

  lemma ReduceP16(n: nat)
    ensures Parity(P, n, [0, 4, 6]) == Parity(P, n, [0, 1, 3, 4])
  {
    hide Out;
    NextP(n + 1);
  }

  lemma ReduceP32(n: nat)
    ensures Parity(P, n, [0, 2, 6, 8]) == Parity(P, n, [1])
  {
    hide Out;
    NextP(n); NextP(n + 1); NextP(n + 3);
  }

  lemma ChainN()
    ensures Jump(N, 16, [2, 3, 6]) && Jump(N, 32, [0, 2, 3, 4, 7]) && Jump(N, 64, [0, 1, 2, 3, 4, 6])
    ensures Jump(N, 256, [1])
  {
    hide Out, Parity;
    Recurrence(N);
    forall n: nat ensures Parity(N, n, [0, 4, 6, 8]) == Parity(N, n, [2, 3, 6]) { ReduceN16(n); }
    SquareTo(N, 8, [0, 2, 3, 4], [0, 4, 6, 8], [2, 3, 6]);
    forall n: nat ensures Parity(N, n, [4, 6, 12]) == Parity(N, n, [0, 2, 3, 4, 7]) { ReduceN32(n); }
    SquareTo(N, 16, [2, 3, 6], [4, 6, 12], [0, 2, 3, 4, 7]);
    ChainNUpper();
  }

  lemma ReduceN16(n: nat)
    ensures Parity(N, n, [0, 4, 6, 8]) == Parity(N, n, [2, 3, 6])
  {
    hide Out;
    NextN(n);
  }

  lemma ReduceN32(n: nat)
    ensures Parity(N, n, [4, 6, 12]) == Parity(N, n, [0, 2, 3, 4, 7])
  {
    hide Out;
    NextN(n); NextN(n + 4);
  }

  lemma ReduceN64(n: nat)
    ensures Parity(N, n, [0, 4, 6, 8, 14]) == Parity(N, n, [0, 1, 2, 3, 4, 6])
  {
    hide Out, Parity;
    Parity5(N, n, 0, 4, 6, 8, 14);
    Parity6(N, n, 0, 1, 2, 3, 4, 6);
    NextN(n); NextN(n + 1); NextN(n + 2); NextN(n + 6);
  }

  lemma ReduceN128(n: nat)
    ensures Parity(N, n, [0, 2, 4, 6, 8, 12]) == Parity(N, n, [0, 2, 7])
  {
    hide Out;
    NextN(n); NextN(n + 4);
  }

  lemma ReduceN256(n: nat)
    ensures Parity(N, n, [0, 4, 14]) == Parity(N, n, [1])
  {
    hide Out;
    NextN(n); NextN(n + 1); NextN(n + 2); NextN(n + 6);
  }

  lemma ChainNUpper()
    requires Jump(N, 32, [0, 2, 3, 4, 7])
    ensures Jump(N, 64, [0, 1, 2, 3, 4, 6]) && Jump(N, 256, [1])
  {
    hide Out, Parity;
    forall n: nat ensures Parity(N, n, [0, 4, 6, 8, 14]) == Parity(N, n, [0, 1, 2, 3, 4, 6]) { ReduceN64(n); }
    SquareTo(N, 32, [0, 2, 3, 4, 7], [0, 4, 6, 8, 14], [0, 1, 2, 3, 4, 6]);
    forall n: nat ensures Parity(N, n, [0, 2, 4, 6, 8, 12]) == Parity(N, n, [0, 2, 7]) { ReduceN128(n); }
    SquareTo(N, 64, [0, 1, 2, 3, 4, 6], [0, 2, 4, 6, 8, 12], [0, 2, 7]);
    forall n: nat ensures Parity(N, n, [0, 4, 14]) == Parity(N, n, [1]) { ReduceN256(n); }
    SquareTo(N, 128, [0, 2, 7], [0, 4, 14], [1]);
  }

  lemma ChainM()
    ensures Jump(M, 128, [1, 2, 8]) && Jump(M, 512, [2, 8]) && Jump(M, 1024, [1, 2, 4])
    ensures Jump(M, 4096, [1, 2, 4, 8]) && Jump(M, 0x8000, [1])
  {
    hide Out, Parity;
    FirstJump(M);
    SquareTo(M, 1, [1], [2], [2]);
    SquareTo(M, 2, [2], [4], [4]);
    SquareTo(M, 4, [4], [8], [8]);
    forall n: nat ensures Parity(M, n, [16]) == Parity(M, n, [1, 2]) { ReduceM16(n); }
    SquareTo(M, 8, [8], [16], [1, 2]);
    SquareTo(M, 16, [1, 2], [2, 4], [2, 4]);
    SquareTo(M, 32, [2, 4], [4, 8], [4, 8]);
    forall n: nat ensures Parity(M, n, [8, 16]) == Parity(M, n, [1, 2, 8]) { ReduceM128(n); }
    SquareTo(M, 64, [4, 8], [8, 16], [1, 2, 8]);
    ChainMUpper();
  }

  lemma ReduceM16(n: nat)
    ensures Parity(M, n, [16]) == Parity(M, n, [1, 2])
  {
    hide Out;
    NextM(n + 1);
  }

  lemma ReduceM128(n: nat)
    ensures Parity(M, n, [8, 16]) == Parity(M, n, [1, 2, 8])
  {
    hide Out;
    NextM(n + 1);
  }

  lemma ChainMUpper()
    requires Jump(M, 128, [1, 2, 8])
    ensures Jump(M, 512, [2, 8]) && Jump(M, 1024, [1, 2, 4]) && Jump(M, 4096, [1, 2, 4, 8]) && Jump(M, 0x8000, [1])
  {
    hide Out, Parity;
    forall n: nat ensures Parity(M, n, [2, 4, 16]) == Parity(M, n, [1, 4]) { ReduceM256(n); }
    SquareTo(M, 128, [1, 2, 8], [2, 4, 16], [1, 4]);
    SquareTo(M, 256, [1, 4], [2, 8], [2, 8]);
    forall n: nat ensures Parity(M, n, [4, 16]) == Parity(M, n, [1, 2, 4]) { ReduceM1024(n); }
    SquareTo(M, 512, [2, 8], [4, 16], [1, 2, 4]);
    SquareTo(M, 1024, [1, 2, 4], [2, 4, 8], [2, 4, 8]);
    ChainMTop();
  }

  lemma ReduceM256(n: nat)
    ensures Parity(M, n, [2, 4, 16]) == Parity(M, n, [1, 4])
  {
    hide Out;
    NextM(n + 1);
  }

  lemma ReduceM1024(n: nat)
    ensures Parity(M, n, [4, 16]) == Parity(M, n, [1, 2, 4])
  {
    hide Out;
    NextM(n + 1);
  }

  lemma ChainMTop()
    requires Jump(M, 2048, [2, 4, 8])
    ensures Jump(M, 4096, [1, 2, 4, 8]) && Jump(M, 0x8000, [1])
  {
    hide Out, Parity;
    forall n: nat ensures Parity(M, n, [4, 8, 16]) == Parity(M, n, [1, 2, 4, 8]) { ReduceM4096(n); }
    SquareTo(M, 2048, [2, 4, 8], [4, 8, 16], [1, 2, 4, 8]);
    forall n: nat ensures Parity(M, n, [2, 4, 8, 16]) == Parity(M, n, [1, 4, 8]) { ReduceM8192(n); }
    SquareTo(M, 4096, [1, 2, 4, 8], [2, 4, 8, 16], [1, 4, 8]);
    forall n: nat ensures Parity(M, n, [2, 8, 16]) == Parity(M, n, [1, 8]) { ReduceM16384(n); }
    SquareTo(M, 8192, [1, 4, 8], [2, 8, 16], [1, 8]);
    forall n: nat ensures Parity(M, n, [2, 16]) == Parity(M, n, [1]) { ReduceM32768(n); }
    SquareTo(M, 16384, [1, 8], [2, 16], [1]);
  }

  lemma ReduceM4096(n: nat)
    ensures Parity(M, n, [4, 8, 16]) == Parity(M, n, [1, 2, 4, 8])
  {
    hide Out;
    NextM(n + 1);
  }

  lemma ReduceM8192(n: nat)
    ensures Parity(M, n, [2, 4, 8, 16]) == Parity(M, n, [1, 4, 8])
  {
    hide Out;
    NextM(n + 1);
  }

  lemma ReduceM16384(n: nat)
    ensures Parity(M, n, [2, 8, 16]) == Parity(M, n, [1, 8])
  {
    hide Out;
    NextM(n + 1);
  }

  lemma ReduceM32768(n: nat)
    ensures Parity(M, n, [2, 16]) == Parity(M, n, [1])
  {
    hide Out;
    NextM(n + 1);
  }

  // ---- Full period ----

  function Period(d: Field): nat { match d case N => 255 case P => 31 case M => 32767 }

  lemma StreamRepeats(d: Field, n: nat)
    ensures Out(d, n + Period(d)) == Out(d, n)
  {
    hide Out, Parity;
    match d
    case N =>
      ChainN();
      FullJump(N, n, 256); FullJump(N, n + 1, 256); FullJump(N, n + 2, 256); FullJump(N, n + 3, 256); FullJump(N, n + 7, 256);
      NextN(n);
      NextN(n + 255);
    case P =>
      ChainP();
      FullJump(P, n, 32); FullJump(P, n + 1, 32); FullJump(P, n + 4, 32);
      NextP(n);
      NextP(n + 31);
    case M =>
      ChainM();
      FullJump(M, n, 0x8000); FullJump(M, n + 14, 0x8000);
      NextM(n);
      NextM(n + 0x7FFF);
  }

  lemma FullJump(d: Field, n: nat, m: nat)
    requires Jump(d, m, [1])
    ensures Out(d, n + m) == Out(d, n + 1)
  {
    hide Out;
    assert JumpAt(d, n, m, [1]);
    Parity1(d, n, 1);
  }

  /** After Period steps the register is back at its seed. */
  lemma ReturnsAtPeriod(d: Field)
    ensures Returns(Stepper(d), Period(d), Seed(d))
  {
    hide Step, Out, Bit, Pow2;
    var m := Period(d);
    forall k | 0 <= k < Width(d)
      ensures Bit(State(d, m), k) == Bit(State(d, 0), k)
    {
      StateHoldsStream(d, m, k);
      StateHoldsStream(d, 0, k);
      StreamRepeats(d, k);
      assert m + k == k + m;
    }
    StateBound(d, m);
    StateBound(d, 0);
    BitsDetermine(State(d, m), State(d, 0), Width(d));
  }

  // ---- No shorter period ----

  /** An early return would repeat the stream early. */
  lemma ReturnRepeats(d: Field, m: nat, k: nat)
    requires Returns(Stepper(d), m, Seed(d)) && k < Width(d)
    ensures Out(d, m + k) == Out(d, k)
  {
    hide Step, Out, Bit;
    StateHoldsStream(d, m, k);
    StateHoldsStream(d, 0, k);
    assert 0 + k == k;
  }

  predicate OneN(j: nat) { j in {7, 11, 12, 13, 17, 20, 22, 23, 24, 31, 32, 35, 38, 41, 42, 44, 45, 46, 49, 55} }

  predicate OneM(j: nat) {
    j in {14, 28, 29, 42, 44, 56, 57, 58, 59, 70, 74, 84, 85, 88, 89, 98, 100, 102, 104}
  }

  lemma SeedBit(d: Field, j: nat)
    requires j < Width(d)
    ensures Out(d, j) <==> j == Width(d) - 1
  {
    StateHoldsStream(d, 0, j);
    hide Out;
    assert 0 + j == j;
    BitOfSeed(d, j);
  }

  lemma BitOfSeed(d: Field, j: nat)
    requires j < Width(d)
    ensures Bit(Seed(d), j) == 1 <==> j == Width(d) - 1
  {
    hide Bit, Pow2;
    TopIsSeed(d, 1);
    if j == Width(d) - 1 {
      assert Parts(Seed(d), 1, 0, j);
      BitOfHigh(Seed(d), 1, 0, j);
    } else {
      assert Parts(Seed(d), 1, 0, Width(d) - 1);
      BitOfLow(Seed(d), 1, 0, Width(d) - 1, j);
      BitOfZero(j);
    }
  }

  lemma {:induction false} BitOfZero(j: nat)
    ensures Bit(0, j) == 0
  {
    if j != 0 {
      BitOfZero(j - 1);
    }
  }

  /** The first bits of the stream, by the recurrence. */
  lemma {:induction false} StartN(j: nat)
    requires j < 56
    ensures Out(N, j) <==> OneN(j)
  {
    hide Out;
    if j < 8 {
      SeedBit(N, j);
    } else {
      var i := j - 8;
      StartN(i);
      StartN(i + 2);
      StartN(i + 3);
      StartN(i + 4);
      NextN(i);
    }
  }

  lemma {:induction false} StartM(j: nat)
    requires j < 106
    ensures Out(M, j) <==> OneM(j)
  {
    hide Out;
    if j < 15 {
      SeedBit(M, j);
    } else {
      StartM(j - 15);
      StartM(j - 14);
      NextM(j - 15);
    }
  }

  lemma NoEarlyReturnN()
    ensures !Returns(Stepper(N), 15, Seed(N)) && !Returns(Stepper(N), 51, Seed(N)) && !Returns(Stepper(N), 85, Seed(N))
  {
    hide Out, Returns;
    StartN(2); StartN(17); StartN(4); StartN(55); StartN(0);
    if Returns(Stepper(N), 15, Seed(N)) {
      ReturnRepeats(N, 15, 2);
    }
    if Returns(Stepper(N), 51, Seed(N)) {
      ReturnRepeats(N, 51, 4);
    }
    Bit85();
    if Returns(Stepper(N), 85, Seed(N)) {
      ReturnRepeats(N, 85, 0);
    }
  }

  lemma Bit85()
    ensures Out(N, 85)
  {
    hide Out;
    ChainN();
    assert JumpAt(N, 21, 64, [0, 1, 2, 3, 4, 6]);
    StartN(21); StartN(22); StartN(23); StartN(24); StartN(25); StartN(27);
  }

  lemma NoEarlyReturnM()
    ensures !Returns(Stepper(M), 217, Seed(M)) && !Returns(Stepper(M), 1057, Seed(M)) && !Returns(Stepper(M), 4681, Seed(M))
  {
    hide Out, Returns;
    StartM(8); StartM(5); StartM(2);
    LateBitsM();
    if Returns(Stepper(M), 217, Seed(M)) {
      ReturnRepeats(M, 217, 8);
    }
    if Returns(Stepper(M), 1057, Seed(M)) {
      ReturnRepeats(M, 1057, 5);
    }
    if Returns(Stepper(M), 4681, Seed(M)) {
      ReturnRepeats(M, 4681, 2);
    }
  }

  lemma LateBitsM()
    ensures Out(M, 225) && Out(M, 1062) && Out(M, 4683)
  {
    hide Out, Parity;
    ChainM();
    Jump3(97, 128, 1, 2, 8);
    StartM(98); StartM(99); StartM(105);
    Jump3(38, 1024, 1, 2, 4);
    StartM(39); StartM(40); StartM(42);
    assert JumpAt(M, 587, 4096, [1, 2, 4, 8]);
    Parity4(M, 587, 1, 2, 4, 8);
    BitBy512(76); BitBy512(77); BitBy512(79); BitBy512(83);
    StartM(78); StartM(84); StartM(79); StartM(85); StartM(81); StartM(87); StartM(91);
  }

  lemma Jump3(n: nat, m: nat, a: nat, b: nat, c: nat)
    requires Jump(M, m, [a, b, c])
    ensures Out(M, n + m) == (Out(M, n + a) != (Out(M, n + b) != Out(M, n + c)))
  {
    hide Out, Parity;
    assert JumpAt(M, n, m, [a, b, c]);
    assert [a, b, c] == [a] + [b, c];
    ParityCons(M, n, a, [b, c]);
    Parity2(M, n, b, c);
  }

  lemma BitBy512(n: nat)
    ensures Out(M, n + 512) == (Out(M, n + 2) != Out(M, n + 8))
  {
    hide Out, Parity;
    ChainM();
    assert JumpAt(M, n, 512, [2, 8]);
    Parity2(M, n, 2, 8);
  }

  lemma NoEarlyReturnP()
    ensures !Returns(Stepper(P), 1, Seed(P))
  {
    hide Out, Returns;
    SeedBit(P, 4);
    SeedBit(P, 3);
    if Returns(Stepper(P), 1, Seed(P)) {
      ReturnRepeats(P, 1, 3);
    }
  }

  /** Main result: each register runs through its full period before it repeats. */
  lemma MaximalPeriod(d: Field)
    ensures Returns(Stepper(d), Period(d), Seed(d))
    ensures forall e :: 0 < e < Period(d) ==> !Returns(Stepper(d), e, Seed(d))
  {
    hide Returns;
    ReturnsAtPeriod(d);
    SmallPrimes();
    match d
    case N =>
      NoEarlyReturnN();
      ThreePrimesCover(3, 5, 17);
      PeriodByDivisors(Stepper(N), 255, Seed(N), [85, 51, 15]);
    case M =>
      NoEarlyReturnM();
      ThreePrimesCover(7, 31, 151);
      PeriodByDivisors(Stepper(M), 32767, Seed(M), [4681, 1057, 217]);
    case P =>
      NoEarlyReturnP();
      assert Covers([1], 31) by { PrimeCover(31); }
      PeriodByDivisors(Stepper(P), 31, Seed(P), [1]);
  }

  lemma PrimeCover(p: nat)
    requires IsPrime(p)
    ensures Covers([1], p)
  {
    forall d | 0 < d < p && p % d == 0
      ensures exists i :: 0 <= i < 1 && [1][i] % d == 0
    {
      assert Divides(d, p);
      assert [1][0] % d == 0;
    }
  }
}
