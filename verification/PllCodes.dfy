/** The encoders and decoders of the PLL dividers are inverse to each other, on exactly the codes that exist. */
module PllCodes {
  import opened Words
  import opened Bits
  import opened Orbit
  import opened PllDecode
  import opened PllPeriod

  lemma FieldSizes(d: Field)
    ensures Pow2(Width(d)) == Period(d) + 1 == ValMax(d) && 0 < Seed(d) <= Period(d)
  {
    Pow2Values();
  }

  lemma {:induction false} ZeroStays(d: Field, k: nat, m: nat)
    requires State(d, k) == 0
    ensures State(d, k + m) == 0
    decreases m
  {
    hide Step, State, Feedback, Pow2;
    if m != 0 {
      ZeroStays(d, k, m - 1);
      NextState(d, k + m - 1);
      StepOfZero(d);
    }
  }

  lemma StepOfZero(d: Field)
    ensures Step(d, 0) == 0
  {
    hide Step, Bit;
    BitOfZero(0); BitOfZero(1); BitOfZero(2); BitOfZero(3); BitOfZero(4);
    StepIsShift(d, 0);
  }

  lemma StatesNonZero(d: Field, k: nat)
    requires k < Period(d)
    ensures 0 < State(d, k) <= Period(d)
  {
    hide Step;
    FieldSizes(d);
    StateBound(d, k);
    ReturnsAtPeriod(d);
    if State(d, k) == 0 {
      ZeroStays(d, k, Period(d) - k);
      assert false;
    }
  }

  /** Every non-zero word of the register's width is the state after exactly one step count below the period. */
  lemma EveryWordOnce(d: Field, y: nat) returns (k: nat)
    requires 0 < y <= Period(d)
    ensures k < Period(d) && State(d, k) == y
    ensures forall j :: 0 <= j < Period(d) && State(d, j) == y ==> j == k
  {
    hide Step;
    MaximalPeriod(d);
    forall j | 0 <= j < Period(d)
      ensures 0 < Iterate(Stepper(d), j, Seed(d)) <= Period(d)
    {
      StatesNonZero(d, j);
    }
    k := VisitsAll(Stepper(d), Period(d), Seed(d), y);
    forall j | 0 <= j < Period(d) && State(d, j) == y
      ensures j == k
    {
      if j < k {
        PointsDiffer(Stepper(d), Period(d), Seed(d), j, k);
      } else if k < j {
        PointsDiffer(Stepper(d), Period(d), Seed(d), k, j);
      }
    }
  }

  /** The special codes lie outside the register states. */
  lemma SpecialOutside(d: Field, s: nat)
    requires s <= 2
    ensures Special(d, s) > Period(d) && forall t :: 0 <= t <= 2 && Special(d, t) == Special(d, s) ==> t == s
  {}

  predicate Accepted(d: Field, code: nat) {
    code == Special(d, 0) || code == Special(d, 1) || code == Special(d, 2)
    || (0 < code <= Period(d) && code != Seed(d))
  }

  lemma AcceptedCodes(d: Field, code: nat)
    ensures Accepted(d, code) <==>
              match d
              case N => code == 0x3FF || code == 0x302 || code == 0x202 || (0 < code <= 0xFF && code != 0x80)
              case P => code == 0x7F || code == 0x62 || code == 0x42 || (0 < code <= 0x1F && code != 0x10)
              case M => code == 0x1_FFFF || code == 0x1_8003 || code == 0x1_0003 || (0 < code <= 0x7FFF && code != 0x4000)
  {}

  /** A decoder accepts its three special codes and exactly the non-zero words of its register's width
      other than the seed. */
  lemma AcceptsExactly(d: Field, code: nat, v: nat)
    requires DecodesTo(d, code, v)
    ensures v != NOT_FOUND <==>
              (code == Special(d, 0) || code == Special(d, 1) || code == Special(d, 2)
               || (0 < code <= Period(d) && code != Seed(d)))
    ensures v != 0xFFFF_FFFF <==>
              match d
              case N => code == 0x3FF || code == 0x302 || code == 0x202 || (0 < code <= 0xFF && code != 0x80)
              case P => code == 0x7F || code == 0x62 || code == 0x42 || (0 < code <= 0x1F && code != 0x10)
              case M => code == 0x1_FFFF || code == 0x1_8003 || code == 0x1_0003 || (0 < code <= 0x7FFF && code != 0x4000)
  {
    AcceptedCodes(d, code);
    hide State, Step, Seed;
    FieldSizes(d);
    SpecialOutside(d, 0);
    SpecialOutside(d, 1);
    SpecialOutside(d, 2);
    StartState(d);
    if v != NOT_FOUND && (forall s :: 0 <= s <= 2 ==> code != Special(d, s)) {
      var k := StepsTo(d, v);
      StatesNonZero(d, k);
      var j := EveryWordOnce(d, Seed(d));
      assert 0 < k < Period(d);
    }
    if 0 < code <= Period(d) && code != Seed(d) {
      var k := EveryWordOnce(d, code);
      assert k != 0 && StepsTo(d, ValMax(d) + 1 - k) == k;
    }
  }

  /** Decoding undoes encoding for every value of the field; larger values encode to a code no decoder accepts. */
  lemma DecodeInvertsEncode(d: Field, v: nat, u: nat)
    requires DecodesTo(d, Encoded(d, v), u)
    ensures u == if v <= ValMax(d) then v else NOT_FOUND
  {
    hide State, Step, Seed;
    FieldSizes(d);
    SpecialOutside(d, 0);
    SpecialOutside(d, 1);
    SpecialOutside(d, 2);
    AcceptsExactly(d, Encoded(d, v), u);
    if 2 < v <= ValMax(d) {
      var k := StepsTo(d, v);
      StatesNonZero(d, k);
      var j := EveryWordOnce(d, State(d, k));
      assert k == j;
      StartState(d);
      var z := EveryWordOnce(d, Seed(d));
      assert State(d, 0) == Seed(d) && k != 0;
      assert u != NOT_FOUND;
      assert StepsTo(d, u) == j;
    }
  }

  /** Encoding undoes decoding for every accepted code, so a decoder is injective where it accepts. */
  lemma EncodeInvertsDecode(d: Field, code: nat, v: nat)
    requires DecodesTo(d, code, v) && v != NOT_FOUND
    ensures v <= ValMax(d) && Encoded(d, v) == code
  {
    hide State, Step, Seed;
    if exists s :: 0 <= s <= 2 && code == Special(d, s) {
    } else {
      assert Found(d, code, v);
    }
  }

  /** The codes the board start-up writes: M = 15, and N and P bypassed at 1. */
  lemma BoardCodes(m: nat, n: nat, p: nat)
    requires DecodesTo(M, 8191, m) && DecodesTo(N, 770, n) && DecodesTo(P, 98, p)
    ensures m == 15 && n == 1 && p == 1
  {
    BoardMultiplier();
    assert Special(N, 1) == 770 && Special(P, 1) == 98;
    hide Encoded, State;
    DecodeInvertsEncode(M, 15, m);
  }

  lemma BoardMultiplier()
    ensures Encoded(M, 15) == 8191
  {
    hide State, Step, Seed;
    var k := EveryWordOnce(M, 8191);
    RunOfOnes(k);
    LandsOnPeriod(k + 13);
    assert StepsTo(M, 15) == k;
  }

  /** Thirteen ones shift out and leave the seed. */
  lemma RunOfOnes(k: nat)
    requires State(M, k) == 8191
    ensures State(M, k + 13) == Seed(M)
  {
    hide State, Step;
    Ones(k, 8191); Ones(k + 1, 4095); Ones(k + 2, 2047); Ones(k + 3, 1023); Ones(k + 4, 511); Ones(k + 5, 255);
    Ones(k + 6, 127); Ones(k + 7, 63); Ones(k + 8, 31); Ones(k + 9, 15); Ones(k + 10, 7); Ones(k + 11, 3);
    Ones(k + 12, 1);
  }

  lemma Ones(k: nat, x: nat)
    requires State(M, k) == x < 0x4000 && (x % 4 == 3 || x == 1)
    ensures State(M, k + 1) == if x == 1 then 0x4000 else x / 2
  {
    hide State, Step, Bit;
    NextState(M, k);
    Pow2Values();
    assert Pow2(14) == 0x4000;
    StepIsShift(M, x);
    LowBits(x);
    hide Pow2;
    assert x / 2 % 2 == if x == 1 then 0 else 1;
  }

  lemma LandsOnPeriod(n: nat)
    requires State(M, n) == Seed(M) && 0 < n < 2 * 32767
    ensures n == 32767
  {
    hide Step;
    MaximalPeriod(M);
    if n > 32767 {
      IterateAdds(Stepper(M), n - 32767, 32767, Seed(M));
    }
    assert Returns(Stepper(M), if n > 32767 then n - 32767 else n, Seed(M));
  }

  // ---- The callers ----

  const DIRECTI_MASK: u32 := 0x8_0000
  const DIRECTO_MASK: u32 := 0x10_0000

  lemma BypassBits(ctrlReg: u32)
    ensures And(ctrlReg, DIRECTI_MASK) == 0 <==> ctrlReg / 0x8_0000 % 2 == 0
    ensures And(ctrlReg, DIRECTO_MASK) == 0 <==> ctrlReg / 0x10_0000 % 2 == 0
  {
    hide And, Pow2;
    Pow2Values();
    assert Pow2(19) == 0x8_0000 by { Pow2Add(16, 3); }
    MaskedBit(ctrlReg, 19);
    MaskedBit(ctrlReg, 20);
  }

  lemma MaskedBit(x: nat, k: nat)
    ensures And(x, Pow2(k)) == 0 <==> x / Pow2(k) % 2 == 0
  {
    hide And, Pow2;
    var hi, lo := CutAt(x, k);
    AndSplit(x, Pow2(k), hi, lo, 1, 0, k);
    AndOneBit(hi);
    AndNothing(lo);
    MulMono(1, Pow2(k), 1);
  }

  lemma AndOneBit(x: nat)
    ensures And(x, 1) == x % 2
  {
    hide And, Pow2;
    AndLowMask(x, 1);
    Pow2One();
  }

  lemma FieldBits(x: u32)
    ensures And(x, 0x3FF) == x % 0x400 && And(x, 0x7F) == x % 0x80 && And(x, 0x1_FFFF) == x % 0x2_0000
  {
    hide And, Pow2;
    Pow2Values();
    assert Pow2(10) == 0x400 && Pow2(17) == 0x2_0000 by { Pow2Add(8, 2); Pow2Add(15, 2); }
    AndLowMask(x, 10);
    AndLowMask(x, 7);
    AndLowMask(x, 17);
  }

  method FindPllPreDiv(ctrlReg: u32, nDecReg: u32) returns (preDiv: u32)
    ensures ctrlReg / 0x8_0000 % 2 == 1 ==> preDiv == 1
    ensures ctrlReg / 0x8_0000 % 2 == 0 ==>
              exists n: u32 :: DecodesTo(N, nDecReg % 0x400, n) && preDiv == if n == 0 then 1 else n
  {
    hide And, DecodesTo;
    BypassBits(ctrlReg);
    FieldBits(nDecReg);
    preDiv := 1;
    if And(ctrlReg, DIRECTI_MASK) == 0 {
      MaskBound(nDecReg, 0x3FF, 10);
      preDiv := Decode(N, And(nDecReg, 0x3FF));
      if preDiv == 0 {
        preDiv := 1;
      }
    }
  }

  method FindPllPostDiv(ctrlReg: u32, pDecReg: u32) returns (postDiv: u32)
    ensures ctrlReg / 0x10_0000 % 2 == 1 ==> postDiv == 1
    ensures ctrlReg / 0x10_0000 % 2 == 0 ==>
              exists p: u32 :: DecodesTo(P, pDecReg % 0x80, p) && postDiv == if p == 0 then 2 else ToU32(2 * (p as int))
  {
    hide And, DecodesTo, ToU32;
    BypassBits(ctrlReg);
    FieldBits(pDecReg);
    postDiv := 1;
    if And(ctrlReg, DIRECTO_MASK) == 0 {
      MaskBound(pDecReg, 0x7F, 7);
      var p := Decode(P, And(pDecReg, 0x7F));
      var doubled: int := 2 * (p as int);
      postDiv := ToU32(doubled);
      DecodedSmall(p, And(pDecReg, 0x7F));
      DoubledIsZero(p);
      if postDiv == 0 {
        postDiv := 2;
      }
    }
  }

  method FindPllMMult(ctrlReg: u32, mDecReg: u32) returns (mMult: u32)
    ensures exists m: u32 :: DecodesTo(M, mDecReg % 0x2_0000, m) && mMult == if m == 0 then 1 else m
  {
    hide And, DecodesTo;
    FieldBits(mDecReg);
    MaskBound(mDecReg, 0x1_FFFF, 17);
    mMult := Decode(M, And(mDecReg, 0x1_FFFF));
    if mMult == 0 {
      mMult := 1;
    }
  }

  lemma MaskBound(x: u32, mask: nat, k: nat)
    requires (k == 7 && mask == 0x7F) || (k == 10 && mask == 0x3FF) || (k == 17 && mask == 0x1_FFFF)
    ensures And(x, mask) < 0x1_0000_0000
  {
    hide And, Pow2;
    Pow2Values();
    Pow2Add(8, 2);
    Pow2Add(15, 2);
    AndLowMask(x, k);
  }

  lemma DoubledIsZero(p: u32)
    requires p == NOT_FOUND || p <= 0x20
    ensures ToU32(2 * (p as int)) == 0 <==> p == 0
  {}

  lemma DecodedSmall(p: u32, code: nat)
    requires DecodesTo(P, code, p)
    ensures p == NOT_FOUND || p <= 0x20
  {
    EncodeInvertsDecodeOr(P, code, p);
  }

  lemma EncodeInvertsDecodeOr(d: Field, code: nat, v: nat)
    requires DecodesTo(d, code, v)
    ensures v == NOT_FOUND || v <= ValMax(d)
  {
    if v != NOT_FOUND {
      EncodeInvertsDecode(d, code, v);
    }
  }

  /** What a value reads back as: zero is taken as one, and a value too large for the field is lost. */
  function ReadBack(d: Field, v: u32): u32 { if v > ValMax(d) then NOT_FOUND else if v == 0 then 1 else v }

  lemma SurvivesField(d: Field, v: u32, u: u32)
    requires DecodesTo(d, And(And(Encoded(d, v), Mask(d)), Mask(d)), u)
    ensures (if u == 0 then 1 else u) == ReadBack(d, v)
  {
    hide Encoded, DecodesTo, And, Mask;
    EncodedIsMasked(d, v);
    DecodeInvertsEncode(d, v, u);
  }

  /** The set-up values of the PLL and the dividers computed back from them: encoded, cut to the register
      field by the setter, cut again by the lookup, searched. Every value the fields hold comes back. */
  method DividersSurvive(ctrlReg: u32, n: u32, p: u32, m: u32) returns (preDiv: u32, postDiv: u32, mMult: u32)
    ensures preDiv == if ctrlReg / 0x8_0000 % 2 == 0 then ReadBack(N, n) else 1
    ensures postDiv == if ctrlReg / 0x10_0000 % 2 == 0 then ToU32(2 * (ReadBack(P, p) as int)) else 1
    ensures mMult == ReadBack(M, m)
    ensures n <= 0x100 && ctrlReg / 0x8_0000 % 2 == 0 ==> preDiv == if n == 0 then 1 else n
    ensures p <= 0x20 && ctrlReg / 0x10_0000 % 2 == 0 ==> postDiv == if p == 0 then 2 else 2 * p
    ensures m <= 0x8000 ==> mMult == if m == 0 then 1 else m
  {
    hide And, DecodesTo, Encoded;
    var code := Encode(M, m);
    EncodedIsMasked(M, m);
    var mDec := And(code, 0x1_FFFF);
    code := Encode(N, n);
    EncodedIsMasked(N, n);
    var nDec := And(code, 0x3FF);
    code := Encode(P, p);
    EncodedIsMasked(P, p);
    var pDec := And(code, 0x7F);
    preDiv := FindPllPreDiv(ctrlReg, nDec);
    postDiv := FindPllPostDiv(ctrlReg, pDec);
    mMult := FindPllMMult(ctrlReg, mDec);
    FieldBits(nDec);
    FieldBits(pDec);
    FieldBits(mDec);
    forall u: u32 | DecodesTo(N, nDec % 0x400, u)
      ensures (if u == 0 then 1 else u) == ReadBack(N, n)
    {
      SurvivesField(N, n, u);
    }
    forall u: u32 | DecodesTo(P, pDec % 0x80, u)
      ensures (if u == 0 then 1 else u) == ReadBack(P, p)
    {
      SurvivesField(P, p, u);
    }
    forall u: u32 | DecodesTo(M, mDec % 0x2_0000, u)
      ensures (if u == 0 then 1 else u) == ReadBack(M, m)
    {
      SurvivesField(M, m, u);
    }
  }
}
