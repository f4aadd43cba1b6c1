/** The portable saturating lane operations: four bytes or two halfwords to a word. */
module Lanes {
  import opened Words
  import opened Bits
  import opened Octets
  import opened Halfwords
  import opened Saturation

  // ---- Lanes ----

  // (((q31_t)x << (24 - 8 * k)) >> 24)
  function Lane(x: u32, k: nat): i32
    requires k < 4
  {
    match k
    case 0 => ToI32(ToI32(x) * 0x100_0000) / 0x100_0000
    case 1 => ToI32(ToI32(x) * 0x1_0000) / 0x100_0000
    case 2 => ToI32(ToI32(x) * 0x100) / 0x100_0000
    case _ => ToI32(x) / 0x100_0000
  }

  /** The shift pairs are sign extension of the four bytes. */
  lemma LanesAreBytes(x: u32, k: nat)
    requires k < 4
    ensures Lane(x, k) == ToI8(ByteAt(x, k)) == if ByteAt(x, k) < 0x80 then ByteAt(x, k) else ByteAt(x, k) - 0x100
  {
    hide ByteAt, ToI32, ToI8;
    var b0: int, b1: int, b2: int, b3: int := ByteAt(x, 0), ByteAt(x, 1), ByteAt(x, 2), ByteAt(x, 3);
    var t0 := Turn(b0);
    var t1 := Turn(b1);
    var t2 := Turn(b2);
    Digits(x);
    SignOf(ByteAt(x, k));
    SignedWord(x, b0 + 0x100 * b1 + 0x1_0000 * b2, b3);
    match k
    case 0 => TopByte(ToI32(x) * 0x100_0000, 0, ToI8(b0), t0 + b1 + 0x100 * b2 + 0x1_0000 * ToI8(b3));
    case 1 => TopByte(ToI32(x) * 0x1_0000, b0 * 0x1_0000, ToI8(b1), t1 + b2 + 0x100 * ToI8(b3));
    case 2 => TopByte(ToI32(x) * 0x100, b0 * 0x100 + b1 * 0x1_0000, ToI8(b2), t2 + ToI8(b3));
    case 3 => TopByte(ToI32(x), b0 + b1 * 0x100 + b2 * 0x1_0000, ToI8(b3), 0);
  }

  lemma SignOf(b: u8)
    ensures ToI8(b) == if b < 0x80 then b else b - 0x100
  {}

  lemma Turn(b: u8) returns (t: int)
    ensures b == ToI8(b) + 0x100 * t
  {
    t := if b < 0x80 then 0 else 1;
  }

  lemma SignedWord(x: u32, low: nat, b3: u8)
    requires low < 0x100_0000 && x == low + 0x100_0000 * b3
    ensures ToI32(x) == low + 0x100_0000 * ToI8(b3)
  {}

  lemma TopByte(y: int, rest: int, top: i8, turns: int)
    requires 0 <= rest < 0x100_0000 && y == rest + 0x100_0000 * top + 0x1_0000_0000 * turns
    ensures ToI32(y) / 0x100_0000 == top
  {
    CastIgnoresTurns(y, rest + 0x100_0000 * top, turns);
    SameI32(rest + 0x100_0000 * top);
    DivModUnique(rest + 0x100_0000 * top, 0x100_0000, top, rest);
  }

  function Clamp8(x: int): i8 { Clamp(-0x80, 0x7F, x) }

  /** The word holding four lanes. */
  function Pack4(l0: i8, l1: i8, l2: i8, l3: i8): u32 {
    WordOf(l0 % 0x100, l1 % 0x100, l2 % 0x100, l3 % 0x100)
  }

  lemma LanesOfPack4(l0: i8, l1: i8, l2: i8, l3: i8)
    ensures var w := Pack4(l0, l1, l2, l3); Lane(w, 0) == l0 && Lane(w, 1) == l1 && Lane(w, 2) == l2 && Lane(w, 3) == l3
  {
    hide Lane, ByteAt, WordOf, ToI8;
    var w := Pack4(l0, l1, l2, l3);
    BytesOfDigits(l0 % 0x100, l1 % 0x100, l2 % 0x100, l3 % 0x100);
    LanesAreBytes(w, 0);
    LanesAreBytes(w, 1);
    LanesAreBytes(w, 2);
    LanesAreBytes(w, 3);
    SignOfByte(l0);
    SignOfByte(l1);
    SignOfByte(l2);
    SignOfByte(l3);
  }

  lemma SignOfByte(l: i8)
    ensures ToI8(l % 0x100) == l
  {}

  lemma ByteOfSign(b: u8)
    ensures ToI8(b) % 0x100 == b
  {}

  /** Repacking the lanes of a word gives the word. */
  lemma PackOfLanes(x: u32)
    ensures -0x80 <= Lane(x, 0) < 0x80 && -0x80 <= Lane(x, 1) < 0x80 && -0x80 <= Lane(x, 2) < 0x80 && -0x80 <= Lane(x, 3) < 0x80
    ensures Pack4(Lane(x, 0), Lane(x, 1), Lane(x, 2), Lane(x, 3)) == x
  {
    hide Lane, ByteAt, WordOf, ToI8;
    LanesAreBytes(x, 0);
    LanesAreBytes(x, 1);
    LanesAreBytes(x, 2);
    LanesAreBytes(x, 3);
    ByteOfSign(ByteAt(x, 0));
    ByteOfSign(ByteAt(x, 1));
    ByteOfSign(ByteAt(x, 2));
    ByteOfSign(ByteAt(x, 3));
    Digits(x);
  }

  lemma PackOfHalves(x: u32)
    ensures FitsI16(Lo(x)) && FitsI16(Hi(x)) && Pack(Lo(x), Hi(x)) == x
  {
    hide Lo, Hi, ToI16;
    var lo: int, hi: int := x % 0x1_0000, x / 0x1_0000;
    LanesByHalves(x, lo, hi);
    HalfOfSign(lo);
    HalfOfSign(hi);
    hide ToU32;
  }

  lemma HalfOfSign(h: u16)
    ensures ToU32(if h < 0x8000 then h else h - 0x1_0000) % 0x1_0000 == h
  {}

  // ---- Exact meaning: unpack, clamp each lane, repack ----

  function AddSat8(x: u32, y: u32): u32 {
    Pack4(Clamp8(Lane(x, 0) + Lane(y, 0)), Clamp8(Lane(x, 1) + Lane(y, 1)),
          Clamp8(Lane(x, 2) + Lane(y, 2)), Clamp8(Lane(x, 3) + Lane(y, 3)))
  }

  function SubSat8(x: u32, y: u32): u32 {
    Pack4(Clamp8(Lane(x, 0) - Lane(y, 0)), Clamp8(Lane(x, 1) - Lane(y, 1)),
          Clamp8(Lane(x, 2) - Lane(y, 2)), Clamp8(Lane(x, 3) - Lane(y, 3)))
  }

  function AddSat16(x: u32, y: u32): u32 { Pack(Clamp16(Lo(x) + Lo(y)), Clamp16(Hi(x) + Hi(y))) }

  function SubSat16(x: u32, y: u32): u32 { Pack(Clamp16(Lo(x) - Lo(y)), Clamp16(Hi(x) - Hi(y))) }

  /** With the low half as real part and the high half as imaginary part: x + i y. */
  function AddExchanged(x: u32, y: u32): u32 { Pack(Clamp16(Lo(x) - Hi(y)), Clamp16(Hi(x) + Lo(y))) }

  /** x - i y */
  function SubExchanged(x: u32, y: u32): u32 { Pack(Clamp16(Lo(x) + Hi(y)), Clamp16(Hi(x) - Lo(y))) }

  /** Each half of a result is the exact sum or difference of the halves its name says, clamped to 16 bits. */
  lemma HalvesAre(x: u32, y: u32)
    ensures Lo(AddSat16(x, y)) == Clamp(-0x8000, 0x7FFF, Lo(x) + Lo(y)) && Hi(AddSat16(x, y)) == Clamp(-0x8000, 0x7FFF, Hi(x) + Hi(y))
    ensures Lo(SubSat16(x, y)) == Clamp(-0x8000, 0x7FFF, Lo(x) - Lo(y)) && Hi(SubSat16(x, y)) == Clamp(-0x8000, 0x7FFF, Hi(x) - Hi(y))
    ensures Lo(AddExchanged(x, y)) == Clamp(-0x8000, 0x7FFF, Lo(x) - Hi(y))
    ensures Hi(AddExchanged(x, y)) == Clamp(-0x8000, 0x7FFF, Hi(x) + Lo(y))
    ensures Lo(SubExchanged(x, y)) == Clamp(-0x8000, 0x7FFF, Lo(x) + Hi(y))
    ensures Hi(SubExchanged(x, y)) == Clamp(-0x8000, 0x7FFF, Hi(x) - Lo(y))
  {
    hide Lo, Hi, Pack;
    LanesOfPack(Clamp16(Lo(x) + Lo(y)), Clamp16(Hi(x) + Hi(y)));
    LanesOfPack(Clamp16(Lo(x) - Lo(y)), Clamp16(Hi(x) - Hi(y)));
    LanesOfPack(Clamp16(Lo(x) - Hi(y)), Clamp16(Hi(x) + Lo(y)));
    LanesOfPack(Clamp16(Lo(x) + Hi(y)), Clamp16(Hi(x) - Lo(y)));
  }

  // ---- The operations ----

  lemma SsatClamps(x: int)
    ensures SsatLimit(x, 8) == Clamp8(x) && SsatLimit(x, 16) == Clamp16(x)
  {
    hide Pow2;
    Pow2Values();
  }

  lemma LaneBounds(x: u32, y: u32)
    ensures forall k :: 0 <= k < 4 ==> -0x80 <= Lane(x, k) < 0x80 && -0x80 <= Lane(y, k) < 0x80
    ensures FitsI16(Lo(x)) && FitsI16(Hi(x)) && FitsI16(Lo(y)) && FitsI16(Hi(y))
  {
    hide Lane, Lo, Hi;
    PackOfLanes(x);
    PackOfLanes(y);
    PackOfHalves(x);
    PackOfHalves(y);
  }

  lemma MaskedByte(v: int)
    ensures And(ToU32(v), 0xFF) == v % 0x100
  {
    hide And, Pow2;
    Pow2Values();
    AndLowMask(ToU32(v), 8);
  }

  lemma MaskedHalf(v: int)
    ensures And(ToU32(v), 0xFFFF) == v % 0x1_0000
  {
    hide And, Pow2;
    Pow2Values();
    AndLowMask(ToU32(v), 16);
  }

  // (u << 24) | (t << 16) | (s << 8) | r
  function Merge4(u: nat, t: nat, s: nat, r: nat): nat { Or(Or(Or(Shl(u, 24), Shl(t, 16)), Shl(s, 8)), r) }

  lemma Merge4IsWord(u: u8, t: u8, s: u8, r: u8)
    ensures Merge4(u, t, s, r) == WordOf(r, s, t, u)
  {
    hide Or, Pow2;
    Pow2Values();
    OrDisjoint(u, t * 0x1_0000, 24);
    OrDisjoint(u * 0x100 + t, s * 0x100, 16);
    OrDisjoint(u * 0x1_0000 + t * 0x100 + s, r, 8);
  }

  // (s << 16) | r
  function Merge2(s: nat, r: nat): nat { Or(Shl(s, 16), r) }

  lemma Merge2IsPack(s: i16, r: i16)
    ensures Merge2(s % 0x1_0000, r % 0x1_0000) == Pack(r, s)
  {
    hide Or, Pow2, ToU32;
    Pow2Values();
    OrDisjoint(s % 0x1_0000, r % 0x1_0000, 16);
    SameU32(s % 0x1_0000 * 0x1_0000);
    LowHalfOfCast(s);
    LowHalfOfCast(r);
  }

  lemma LowHalfOfCast(v: int)
    ensures ToU32(v) % 0x1_0000 == v % 0x1_0000
  {
  }

  /** Saturating, masking and merging four exact lane results. */
  method Merged8(a: int, b: int, c: int, d: int) returns (w: u32)
    requires -0x100 <= a < 0x100 && -0x100 <= b < 0x100 && -0x100 <= c < 0x100 && -0x100 <= d < 0x100
    ensures w == Pack4(Clamp8(a), Clamp8(b), Clamp8(c), Clamp8(d))
  {
    hide *;
    var r := Ssat(a, 8);
    var s := Ssat(b, 8);
    var t := Ssat(c, 8);
    var u := Ssat(d, 8);
    assert r == Clamp8(a) && s == Clamp8(b) && t == Clamp8(c) && u == Clamp8(d) by {
      SsatClamps(a);
      SsatClamps(b);
      SsatClamps(c);
      SsatClamps(d);
    }
    MaskedByte(r);
    MaskedByte(s);
    MaskedByte(t);
    MaskedByte(u);
    Merge4IsWord(u % 0x100, t % 0x100, s % 0x100, r % 0x100);
    Pack4Is(r, s, t, u);
    w := Merge4(And(ToU32(u), 0xFF), And(ToU32(t), 0xFF), And(ToU32(s), 0xFF), And(ToU32(r), 0xFF));
  }

  lemma Pack4Is(r: i8, s: i8, t: i8, u: i8)
    ensures Pack4(r, s, t, u) == WordOf(r % 0x100, s % 0x100, t % 0x100, u % 0x100)
  {}

  method Merged16(a: int, b: int) returns (w: u32)
    requires -0x1_0000 <= a < 0x1_0000 && -0x1_0000 <= b < 0x1_0000
    ensures w == Pack(Clamp16(a), Clamp16(b))
  {
    hide *;
    var r := Ssat(a, 16);
    var s := Ssat(b, 16);
    assert r == Clamp16(a) && s == Clamp16(b) by {
      SsatClamps(a);
      SsatClamps(b);
    }
    MaskedHalf(r);
    MaskedHalf(s);
    Merge2IsPack(s, r);
    w := Merge2(And(ToU32(s), 0xFFFF), And(ToU32(r), 0xFFFF));
  }

  method Qadd8(x: u32, y: u32) returns (w: u32)
    ensures w == AddSat8(x, y)
  {
    hide Lane, Pack4, Clamp8;
    LaneBounds(x, y);
    w := Merged8(Lane(x, 0) + Lane(y, 0), Lane(x, 1) + Lane(y, 1), Lane(x, 2) + Lane(y, 2), Lane(x, 3) + Lane(y, 3));
  }

  method Qsub8(x: u32, y: u32) returns (w: u32)
    ensures w == SubSat8(x, y)
  {
    hide Lane, Pack4, Clamp8;
    LaneBounds(x, y);
    w := Merged8(Lane(x, 0) - Lane(y, 0), Lane(x, 1) - Lane(y, 1), Lane(x, 2) - Lane(y, 2), Lane(x, 3) - Lane(y, 3));
  }

  method Qadd16(x: u32, y: u32) returns (w: u32)
    ensures w == AddSat16(x, y)
  {
    hide Lo, Hi, Pack, Clamp16;
    LaneBounds(x, y);
    w := Merged16(Lo(x) + Lo(y), Hi(x) + Hi(y));
  }

  method Qsub16(x: u32, y: u32) returns (w: u32)
    ensures w == SubSat16(x, y)
  {
    hide Lo, Hi, Pack, Clamp16;
    LaneBounds(x, y);
    w := Merged16(Lo(x) - Lo(y), Hi(x) - Hi(y));
  }

  method Qasx(x: u32, y: u32) returns (w: u32)
    ensures w == AddExchanged(x, y)
  {
    hide Lo, Hi, Pack, Clamp16;
    LaneBounds(x, y);
    w := Merged16(Lo(x) - Hi(y), Hi(x) + Lo(y));
  }

  method Qsax(x: u32, y: u32) returns (w: u32)
    ensures w == SubExchanged(x, y)
  {
    hide Lo, Hi, Pack, Clamp16;
    LaneBounds(x, y);
    w := Merged16(Lo(x) + Hi(y), Hi(x) - Lo(y));
  }

  // ---- How the operations undo one another ----

  lemma UndoLane(a: int, b: int, lo: int, hi: int)
    requires lo <= a <= hi && lo - hi <= b <= hi - lo
    ensures Clamp(lo, hi, Clamp(lo, hi, a + b) - b) == a <==> lo <= a + b <= hi
  {}

  predicate NoByteSaturates(x: u32, y: u32) {
    forall k :: 0 <= k < 4 ==> -0x80 <= Lane(x, k) + Lane(y, k) < 0x80
  }

  /** Subtracting what was added restores the word exactly when no lane of the sum saturated. */
  lemma UndoExactly8(x: u32, y: u32)
    ensures SubSat8(AddSat8(x, y), y) == x <==> NoByteSaturates(x, y)
  {
    hide Lane, Pack4;
    PackOfLanes(x);
    forall k | 0 <= k < 4
      ensures Lane(AddSat8(x, y), k) == Clamp8(Lane(x, k) + Lane(y, k))
      ensures Lane(SubSat8(AddSat8(x, y), y), k) == Clamp8(Clamp8(Lane(x, k) + Lane(y, k)) - Lane(y, k))
    {
      AddedLane(x, y, k);
      SubtractedLane(AddSat8(x, y), y, k);
    }
    PackOfLanes(y);
    UndoLane(Lane(x, 0), Lane(y, 0), -0x80, 0x7F);
    UndoLane(Lane(x, 1), Lane(y, 1), -0x80, 0x7F);
    UndoLane(Lane(x, 2), Lane(y, 2), -0x80, 0x7F);
    UndoLane(Lane(x, 3), Lane(y, 3), -0x80, 0x7F);
    PackOfLanes(SubSat8(AddSat8(x, y), y));
    hide AddSat8, SubSat8, Clamp8;
  }

  /** Each lane of the result is the clamped exact sum. */
  lemma AddedLane(x: u32, y: u32, k: nat)
    requires k < 4
    ensures Lane(AddSat8(x, y), k) == Clamp8(Lane(x, k) + Lane(y, k)) == Clamp(-0x80, 0x7F, Lane(x, k) + Lane(y, k))
  {
    assert Clamp8(Lane(x, k) + Lane(y, k)) == Clamp(-0x80, 0x7F, Lane(x, k) + Lane(y, k));
    hide Lane, Pack4, Clamp8;
    LanesOfPack4(Clamp8(Lane(x, 0) + Lane(y, 0)), Clamp8(Lane(x, 1) + Lane(y, 1)),
                 Clamp8(Lane(x, 2) + Lane(y, 2)), Clamp8(Lane(x, 3) + Lane(y, 3)));
  }

  lemma SubtractedLane(x: u32, y: u32, k: nat)
    requires k < 4
    ensures Lane(SubSat8(x, y), k) == Clamp8(Lane(x, k) - Lane(y, k)) == Clamp(-0x80, 0x7F, Lane(x, k) - Lane(y, k))
  {
    assert Clamp8(Lane(x, k) - Lane(y, k)) == Clamp(-0x80, 0x7F, Lane(x, k) - Lane(y, k));
    hide Lane, Pack4, Clamp8;
    LanesOfPack4(Clamp8(Lane(x, 0) - Lane(y, 0)), Clamp8(Lane(x, 1) - Lane(y, 1)),
                 Clamp8(Lane(x, 2) - Lane(y, 2)), Clamp8(Lane(x, 3) - Lane(y, 3)));
  }

  lemma UndoExactly16(x: u32, y: u32)
    ensures SubSat16(AddSat16(x, y), y) == x <==> FitsI16(Lo(x) + Lo(y)) && FitsI16(Hi(x) + Hi(y))
  {
    hide Lo, Hi, Pack;
    LanesOfPack(Clamp16(Lo(x) + Lo(y)), Clamp16(Hi(x) + Hi(y)));
    PackOfHalves(y);
    UndoHalves(x, Lo(y), Hi(y));
  }

  /** Adding i y and then subtracting it restores x exactly when neither part saturated. */
  lemma UndoExchangeExactly(x: u32, y: u32)
    ensures SubExchanged(AddExchanged(x, y), y) == x <==> FitsI16(Lo(x) - Hi(y)) && FitsI16(Hi(x) + Lo(y))
  {
    hide Lo, Hi, Pack;
    LanesOfPack(Clamp16(Lo(x) - Hi(y)), Clamp16(Hi(x) + Lo(y)));
    PackOfHalves(y);
    UndoHalves(x, 0 - Hi(y), Lo(y));
  }

  lemma UndoHalves(x: u32, a: int, b: int)
    requires -0xFFFF <= a <= 0xFFFF && -0xFFFF <= b <= 0xFFFF
    ensures Pack(Clamp16(Clamp16(Lo(x) + a) - a), Clamp16(Clamp16(Hi(x) + b) - b)) == x
       <==> FitsI16(Lo(x) + a) && FitsI16(Hi(x) + b)
  {
    hide Lo, Hi, Pack;
    PackOfHalves(x);
    UndoLane(Lo(x), a, -0x8000, 0x7FFF);
    UndoLane(Hi(x), b, -0x8000, 0x7FFF);
    LanesOfPack(Clamp16(Clamp16(Lo(x) + a) - a), Clamp16(Clamp16(Hi(x) + b) - b));
    hide Clamp;
  }

  function Swapped(x: u32): u32 { x / 0x1_0000 + 0x1_0000 * (x % 0x1_0000) }

  lemma HalvesOfSwapped(x: u32)
    ensures Lo(Swapped(x)) == Hi(x) && Hi(Swapped(x)) == Lo(x)
  {
    hide Lo, Hi, ToI16;
    LanesByHalves(x, x % 0x1_0000, x / 0x1_0000);
    LanesByHalves(Swapped(x), x / 0x1_0000, x % 0x1_0000);
  }

  /** The two exchanging operations are mirror images under swapping the halves of every word. */
  lemma ExchangeMirror(x: u32, y: u32)
    ensures Swapped(SubExchanged(Swapped(x), Swapped(y))) == AddExchanged(x, y)
  {
    hide Lo, Hi, Pack, Swapped, Clamp16;
    HalvesOfSwapped(x);
    HalvesOfSwapped(y);
    var z := SubExchanged(Swapped(x), Swapped(y));
    LanesOfPack(Clamp16(Hi(x) + Lo(y)), Clamp16(Lo(x) - Hi(y)));
    HalvesOfSwapped(z);
    PackOfHalves(Swapped(z));
  }
}
