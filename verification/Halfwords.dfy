/** Two signed 16-bit lanes in a 32-bit word, as the portable SIMD fallbacks read them. */
module Halfwords {
  import opened Words

  // ((q31_t)x << 16) >> 16
  function Lo(x: u32): i32 { ToI32(ToI32(x) * 0x1_0000) / 0x1_0000 }

  // ((q31_t)x) >> 16
  function Hi(x: u32): i32 { ToI32(x) / 0x1_0000 }

  // __PKHBT(lo, hi, 16): the word holding two lanes
  function Pack(lo: i16, hi: i16): u32 { ToU32(lo) % 0x1_0000 + 0x1_0000 * (ToU32(hi) % 0x1_0000) }

  lemma LanesOfPack(lo: i16, hi: i16)
    ensures Lo(Pack(lo, hi)) == lo && Hi(Pack(lo, hi)) == hi
  {
    var l: int, h: int := ToU32(lo) % 0x1_0000, ToU32(hi) % 0x1_0000;
    assert l == if lo < 0 then lo + 0x1_0000 else lo;
    assert h == if hi < 0 then hi + 0x1_0000 else hi;
    hide ToU32;
    LanesByHalves(Pack(lo, hi), l, h);
    hide Lo, Hi, Pack, ToI16;
  }

  /** A sign-extended 16-bit operand carries its sign in the high lane. */
  lemma LanesOfSignExtended(v: i16)
    ensures Lo(ToU32(v)) == v && Hi(ToU32(v)) == if v < 0 then -1 else 0
  {
    if v < 0 {
      LanesByHalves(ToU32(v), v + 0x1_0000, 0xFFFF);
    } else {
      LanesByHalves(ToU32(v), v, 0);
    }
  }

  /** The two shift pairs are sign extension of the two 16-bit halves. */
  lemma LanesByHalves(x: u32, lo: int, hi: int)
    requires 0 <= lo < 0x1_0000 && 0 <= hi < 0x1_0000 && x == lo + 0x1_0000 * hi
    ensures Lo(x) == ToI16(lo) == (if lo < 0x8000 then lo else lo - 0x1_0000)
    ensures Hi(x) == ToI16(hi) == (if hi < 0x8000 then hi else hi - 0x1_0000)
  {
    var top: int, low: int := ToI16(hi), ToI16(lo);
    var above: int := if hi < 0x8000 then 0 else 1;
    var turn: int := if lo < 0x8000 then 0 else 1;
    assert hi == top + 0x1_0000 * above && lo == low + 0x1_0000 * turn;
    hide ToI16, ToI32;
    CastIgnoresTurns(x, lo + 0x1_0000 * top, above);
    SameI32(lo + 0x1_0000 * top);
    DivModUnique(lo + 0x1_0000 * top, 0x1_0000, top, lo);
    CastIgnoresTurns((lo + 0x1_0000 * top) * 0x1_0000, low * 0x1_0000, top + turn);
    SameI32(low * 0x1_0000);
    DivModUnique(low * 0x1_0000, 0x1_0000, low, 0);
  }
}
