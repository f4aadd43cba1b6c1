/** The divider codes of the system PLL: three linear feedback shift registers, the encoders that step
    them forward and the decoders that search them. */
module PllDecode {
  import opened Words
  import opened Bits
  import opened Orbit

  /** The pre-divider, post-divider and multiplier fields. */
  datatype Field = N | P | M

  function Width(d: Field): nat { match d case N => 8 case P => 5 case M => 15 }

  /** NVALMAX, PVALMAX, MVALMAX */
  function ValMax(d: Field): nat { match d case N => 0x100 case P => 0x20 case M => 0x8000 }

  /** The register field mask; it is wider than the shift register. */
  function Mask(d: Field): nat { match d case N => 0x3FF case P => 0x7F case M => 0x1_FFFF }

  function Seed(d: Field): nat { match d case N => 0x80 case P => 0x10 case M => 0x4000 }

  /** The codes of the values 0, 1 and 2, which are not register states. */
  function Special(d: Field, v: nat): nat
    requires v <= 2
  {
    match d
    case N => [0x3FF, 0x302, 0x202][v]
    case P => [0x7F, 0x62, 0x42][v]
    case M => [0x1_FFFF, 0x1_8003, 0x1_0003][v]
  }

  const NOT_FOUND: u32 := 0xFFFF_FFFF

  function Step(d: Field, x: nat): nat {
    match d
    case N => Or(And(Xor(Xor(Xor(x, x / 4), x / 8), x / 16), 1) * 0x80, And(x / 2, 0x7F))
    case P => Or(And(Xor(x, x / 4), 1) * 0x10, And(x / 2, 0xF))
    case M => Or(And(Xor(x, x / 2), 1) * 0x4000, And(x / 2, 0x3FFF))
  }

  function Stepper(d: Field): nat -> nat { (x: nat) => Step(d, x) }

  function State(d: Field, k: nat): nat { Iterate(Stepper(d), k, Seed(d)) }

  /** Steps until the search counter reaches i: it starts at ValMax and steps before it compares. */
  function StepsTo(d: Field, i: int): int { ValMax(d) + 1 - i }

  // ---- The routines ----

  /** What the encoder returns: a special code, a register state, or the untouched seed. */
  function Encoded(d: Field, v: nat): nat {
    if v <= 2 then Special(d, v)
    else if v <= ValMax(d) then State(d, StepsTo(d, v))
    else Seed(d)
  }

  /** What the decoder promises about its result. */
  ghost predicate DecodesTo(d: Field, code: nat, v: nat) {
    (forall s :: 0 <= s <= 2 && code == Special(d, s) ==> v == s) &&
    ((forall s :: 0 <= s <= 2 ==> code != Special(d, s)) ==> Found(d, code, v))
  }

  ghost predicate Found(d: Field, code: nat, v: nat) {
    if v == NOT_FOUND then forall i :: 3 <= i <= ValMax(d) ==> State(d, StepsTo(d, i)) != code
    else 3 <= v <= ValMax(d) && State(d, StepsTo(d, v)) == code
  }

  method Encode(d: Field, v: u32) returns (code: u32)
    ensures code == Encoded(d, v)
    ensures d == N ==> (v == 0 ==> code == 0x3FF) && (v == 1 ==> code == 0x302) && (v == 2 ==> code == 0x202)
    ensures d == P ==> (v == 0 ==> code == 0x7F) && (v == 1 ==> code == 0x62) && (v == 2 ==> code == 0x42)
    ensures d == M ==> (v == 0 ==> code == 0x1_FFFF) && (v == 1 ==> code == 0x1_8003) && (v == 2 ==> code == 0x1_0003)
    ensures (d == N && v > 0x100 ==> code == 0x80) && (d == P && v > 0x20 ==> code == 0x10) && (d == M && v > 0x8000 ==> code == 0x4000)
  {
    hide *;
    var x: nat;
    if v <= 2 {
      x := Special(d, v);
    } else {
      x := Seed(d);
      var i: int := v;
      StartState(d);
      while i <= ValMax(d)
        invariant i >= v && (v <= ValMax(d) ==> i <= ValMax(d) + 1)
        invariant x == if v <= ValMax(d) then State(d, i - v) else Seed(d)
      {
        NextState(d, i - v);
        x := Step(d, x);
        i := i + 1;
      }
    }
    EncodedIs(d, v);
    EncodedEnds(d, v);
    EncodedIsMasked(d, v);
    code := And(x, Mask(d));
  }

  lemma EncodedIs(d: Field, v: nat)
    ensures v <= 2 ==> Encoded(d, v) == Special(d, v)
    ensures v > 2 ==> Encoded(d, v) == if v <= ValMax(d) then State(d, ValMax(d) + 1 - v) else Seed(d)
  {
    hide Special, State, Seed;
  }

  /** The codes outside the registers, spelled out. */
  lemma EncodedEnds(d: Field, v: nat)
    ensures d == N ==> (v == 0 ==> Encoded(d, v) == 0x3FF) && (v == 1 ==> Encoded(d, v) == 0x302)
                       && (v == 2 ==> Encoded(d, v) == 0x202) && (v > 0x100 ==> Encoded(d, v) == 0x80)
    ensures d == P ==> (v == 0 ==> Encoded(d, v) == 0x7F) && (v == 1 ==> Encoded(d, v) == 0x62)
                       && (v == 2 ==> Encoded(d, v) == 0x42) && (v > 0x20 ==> Encoded(d, v) == 0x10)
    ensures d == M ==> (v == 0 ==> Encoded(d, v) == 0x1_FFFF) && (v == 1 ==> Encoded(d, v) == 0x1_8003)
                       && (v == 2 ==> Encoded(d, v) == 0x1_0003) && (v > 0x8000 ==> Encoded(d, v) == 0x4000)
  {
    hide State;
  }

  /** The codes in between follow one another by a step of the register, the largest value first. */
  lemma EncodedChain(d: Field, v: nat)
    requires 3 <= v < ValMax(d)
    ensures Encoded(d, v) == Step(d, Encoded(d, v + 1)) && Encoded(d, ValMax(d)) == Step(d, Seed(d))
    ensures Encoded(d, v + 1) < Pow2(Width(d))
  {
    hide State, Step, Seed, Special, Pow2;
    StartState(d);
    NextState(d, 0);
    NextState(d, ValMax(d) - v);
    StateBound(d, ValMax(d) - v);
    assert StepsTo(d, v) == StepsTo(d, v + 1) + 1 && StepsTo(d, ValMax(d)) == 1;
  }

  /** The shift registers in arithmetic. */
  lemma StepIs(x: nat)
    ensures x < 0x100 ==> Step(N, x) == (x + x / 4 + x / 8 + x / 16) % 2 * 0x80 + x / 2
    ensures x < 0x20 ==> Step(P, x) == (x + x / 4) % 2 * 0x10 + x / 2
    ensures x < 0x8000 ==> Step(M, x) == (x + x / 2) % 2 * 0x4000 + x / 2
  {
    hide Step, Bit, Pow2, Feedback;
    TopBits();
    FeedbackIs(x);
    if x < 0x8000 {
      StepIsShift(M, x);
    }
    if x < 0x100 {
      StepIsShift(N, x);
    }
    if x < 0x20 {
      StepIsShift(P, x);
    }
  }

  lemma TopBits()
    ensures Pow2(4) == 0x10 && Pow2(5) == 0x20 && Pow2(7) == 0x80 && Pow2(8) == 0x100
    ensures Pow2(14) == 0x4000 && Pow2(15) == 0x8000
  {
    Pow2Values();
  }

  lemma FeedbackIs(x: nat)
    ensures Feedback(N, x) == (x + x / 4 + x / 8 + x / 16) % 2
    ensures Feedback(P, x) == (x + x / 4) % 2 && Feedback(M, x) == (x + x / 2) % 2
  {
    hide Bit;
    LowBits(x);
    var x1, x2, x3, x4 := x / 2, x / 4, x / 8, x / 16;
    DigitsOf4(x, x2, x3, x4);
    DigitsOf2(x, x2);
    DigitsOf2(x, x1);
    assert Feedback(N, x) == (x % 2 + x2 % 2 + x3 % 2 + x4 % 2) % 2;
    assert Feedback(P, x) == (x % 2 + x2 % 2) % 2;
    assert Feedback(M, x) == (x % 2 + x1 % 2) % 2;
    hide *;
  }

  lemma DigitsOf4(a: nat, b: nat, c: nat, e: nat)
    ensures (a + b + c + e) % 2 == (a % 2 + b % 2 + c % 2 + e % 2) % 2
  {
    ModShift(a % 2 + b % 2 + c % 2 + e % 2, a / 2 + b / 2 + c / 2 + e / 2, 2);
  }

  lemma DigitsOf2(a: nat, b: nat)
    ensures (a + b) % 2 == (a % 2 + b % 2) % 2
  {
    ModShift(a % 2 + b % 2, a / 2 + b / 2, 2);
  }

  /** Every code fits the register field, so masking it changes nothing. */
  lemma EncodedIsMasked(d: Field, v: nat)
    ensures And(Encoded(d, v), Mask(d)) == Encoded(d, v) < 0x1_0000_0000
  {
    hide *;
    EncodedIs(d, v);
    if v <= 2 {
      SpecialIsMasked(d, v);
    } else if v <= ValMax(d) {
      StateBound(d, ValMax(d) + 1 - v);
      MaskedState(d, State(d, ValMax(d) + 1 - v));
    } else {
      StartState(d);
      MaskedState(d, Seed(d));
    }
  }

  method Decode(d: Field, code: u32) returns (v: u32)
    ensures DecodesTo(d, code, v)
    ensures d == N ==> (code == 0x3FF ==> v == 0) && (code == 0x302 ==> v == 1) && (code == 0x202 ==> v == 2)
    ensures d == P ==> (code == 0x7F ==> v == 0) && (code == 0x62 ==> v == 1) && (code == 0x42 ==> v == 2)
    ensures d == M ==> (code == 0x1_FFFF ==> v == 0) && (code == 0x1_8003 ==> v == 1) && (code == 0x1_0003 ==> v == 2)
  {
    if code == Special(d, 0) {
      v := 0;
    } else if code == Special(d, 1) {
      v := 1;
    } else if code == Special(d, 2) {
      v := 2;
    } else {
      v := Search(d, code);
    }
  }

  /** The search loop of the decoders. */
  method Search(d: Field, code: u32) returns (v: u32)
    ensures Found(d, code, v)
  {
    hide Step, State, Seed;
    var x: nat := Seed(d);
    v := NOT_FOUND;
    var i: int := ValMax(d);
    StartState(d);
    while i >= 3 && v == NOT_FOUND
      invariant 2 <= i <= ValMax(d) && x == State(d, ValMax(d) - i)
      invariant v == NOT_FOUND ==> forall j :: i < j <= ValMax(d) ==> State(d, StepsTo(d, j)) != code
      invariant v != NOT_FOUND ==> 3 <= v <= ValMax(d) && State(d, StepsTo(d, v)) == code
    {
      NextState(d, ValMax(d) - i);
      x := Step(d, x);
      StateBound(d, ValMax(d) - i + 1);
      MaskedState(d, x);
      if And(x, Mask(d)) == code {
        v := i;
      }
      i := i - 1;
    }
  }

  lemma StartState(d: Field)
    ensures State(d, 0) == Seed(d) < Pow2(Width(d))
  {
    Pow2Values();
  }

  lemma NextState(d: Field, k: nat)
    ensures State(d, k + 1) == Step(d, State(d, k))
  {}

  lemma SpecialIsMasked(d: Field, v: nat)
    requires v <= 2
    ensures And(Special(d, v), Mask(d)) == Special(d, v) < 0x1_0000_0000
  {
    hide And, Pow2;
    Pow2Values();
    assert Pow2(10) == 0x400 && Pow2(17) == 0x2_0000 by {
      Pow2Add(8, 2);
      Pow2Add(15, 2);
    }
    AndLowMask(Special(d, v), match d case N => 10 case P => 7 case M => 17);
  }

  lemma MaskedState(d: Field, x: nat)
    requires x < Pow2(Width(d))
    ensures And(x, Mask(d)) == x < 0x1_0000_0000
  {
    hide And, Pow2;
    Pow2Values();
    assert Pow2(10) == 0x400 && Pow2(17) == 0x2_0000 by {
      Pow2Add(8, 2);
      Pow2Add(15, 2);
    }
    AndLowMask(x, match d case N => 10 case P => 7 case M => 17);
  }

  // ---- One step as arithmetic ----

  /** The bit shifted in at the top. */
  function Feedback(d: Field, x: nat): nat {
    match d
    case N => (Bit(x, 0) + Bit(x, 2) + Bit(x, 3) + Bit(x, 4)) % 2
    case P => (Bit(x, 0) + Bit(x, 2)) % 2
    case M => (Bit(x, 0) + Bit(x, 1)) % 2
  }

  lemma XorLow(x: nat, y: nat)
    ensures Xor(x, y) % 2 == (x % 2 + y % 2) % 2
  {
    var rest := Xor(x / 2, y / 2);
    assert Xor(x, y) == (x + y) % 2 + 2 * rest;
    hide Xor;
    ParityOfSum(x, y, rest);
  }

  lemma ParityOfSum(x: nat, y: nat, rest: nat)
    ensures ((x + y) % 2 + 2 * rest) % 2 == (x % 2 + y % 2) % 2
  {}

  lemma BitShift(x: nat, k: nat)
    ensures Bit(x, 0) == x % 2 && Bit(x, k + 1) == Bit(x / 2, k)
  {}

  lemma LowBits(x: nat)
    ensures Bit(x, 0) == x % 2 && Bit(x, 1) == x / 2 % 2 && Bit(x, 2) == x / 4 % 2
    ensures Bit(x, 3) == x / 8 % 2 && Bit(x, 4) == x / 16 % 2
  {
    hide Bit;
    var x1, x2, x3, x4 := x / 2, x / 4, x / 8, x / 16;
    assert x2 == x1 / 2 && x3 == x2 / 2 && x4 == x3 / 2;
    BitShift(x, 0); BitShift(x1, 0);
    BitShift(x, 1); BitShift(x2, 0);
    BitShift(x, 2); BitShift(x1, 1); BitShift(x3, 0);
    BitShift(x, 3); BitShift(x1, 2); BitShift(x2, 1); BitShift(x4, 0);
  }

  lemma ShiftIn(feed: nat, x: nat, m: nat)
    requires x < 2 * Pow2(m) && feed <= 1
    ensures Or(feed * Pow2(m), And(x / 2, Pow2(m) - 1)) == feed * Pow2(m) + x / 2
  {
    AndOnes(x / 2, m);
    OrDisjoint(feed, x / 2, m);
  }

  /** The taps: what the xor chain leaves in its lowest bit. */
  function Taps(d: Field, x: nat): nat {
    match d
    case N => Xor(Xor(Xor(x, x / 4), x / 8), x / 16)
    case P => Xor(x, x / 4)
    case M => Xor(x, x / 2)
  }

  lemma TapsParity(d: Field, x: nat)
    ensures Taps(d, x) % 2 == Feedback(d, x) <= 1
  {
    hide Xor, Bit;
    LowBits(x);
    match d
    case N => FourTaps(x, x / 4, x / 8, x / 16);
    case P => XorLow(x, x / 4);
    case M => XorLow(x, x / 2);
  }

  lemma FourTaps(a: nat, b: nat, c: nat, e: nat)
    ensures Xor(Xor(Xor(a, b), c), e) % 2 == (a % 2 + b % 2 + c % 2 + e % 2) % 2
  {
    hide Xor;
    XorLow(a, b);
    XorLow(Xor(a, b), c);
    XorLow(Xor(Xor(a, b), c), e);
  }

  /** A step shifts right and puts the parity of the taps on top. */
  lemma StepIsShift(d: Field, x: nat)
    requires x < Pow2(Width(d))
    ensures Step(d, x) == Feedback(d, x) * Pow2(Width(d) - 1) + x / 2 < Pow2(Width(d))
  {
    var w := Width(d) - 1;
    assert Pow2(w + 1) == 2 * Pow2(w);
    hide Xor, Or, And, Pow2, Bit, Feedback;
    TapsParity(d, x);
    StepAsCoded(d, x);
    TopIsSeed(d, Feedback(d, x));
    hide Step, Taps, Top, Seed;
    Pow2One();
    AndLowMask(Taps(d, x), 1);
    ShiftIn(Feedback(d, x), x, w);
    MulMono(Feedback(d, x), 1, Pow2(w));
  }

  lemma StepAsCoded(d: Field, x: nat)
    ensures Step(d, x) == Or(Top(d, And(Taps(d, x), 1)), And(x / 2, Seed(d) - 1))
  {
    hide Xor, Or, And;
  }

  function Top(d: Field, feed: nat): nat { match d case N => feed * 0x80 case P => feed * 0x10 case M => feed * 0x4000 }

  lemma TopIsSeed(d: Field, feed: nat)
    ensures Seed(d) == Pow2(Width(d) - 1) && Top(d, feed) == feed * Seed(d)
  {
    Pow2Values();
  }

  lemma Pow2One()
    ensures Pow2(1) == 2
  {}

  lemma {:induction false} StateBound(d: Field, k: nat)
    ensures State(d, k) < Pow2(Width(d))
  {
    if k == 0 {
      StartState(d);
    } else {
      StateBound(d, k - 1);
      StepIsShift(d, State(d, k - 1));
      NextState(d, k - 1);
    }
  }
}
