/** A 32-bit word as four bytes, least significant first. */
module Octets {
  import opened Words

  function ByteAt(w: u32, k: nat): u8
    requires k < 4
  {
    match k
    case 0 => w % 0x100
    case 1 => w / 0x100 % 0x100
    case 2 => w / 0x1_0000 % 0x100
    case _ => w / 0x100_0000
  }

  /** Byte k has weight 256^k. */
  lemma ByteAtIs(w: u32)
    ensures ByteAt(w, 0) == w % 0x100 && ByteAt(w, 1) == w / 0x100 % 0x100
    ensures ByteAt(w, 2) == w / 0x1_0000 % 0x100 && ByteAt(w, 3) == w / 0x100_0000 % 0x100
    ensures WordOf(ByteAt(w, 0), ByteAt(w, 1), ByteAt(w, 2), ByteAt(w, 3)) == w
  {
    Digits(w);
    hide WordOf;
  }

  /** The bytes of a word determine it. */
  lemma FourBytes(v: u32, w: u32)
    requires forall j :: 0 <= j < 4 ==> ByteAt(v, j) == ByteAt(w, j)
    ensures v == w
  {
    hide ByteAt;
    assert ByteAt(v, 0) == ByteAt(w, 0) && ByteAt(v, 1) == ByteAt(w, 1);
    assert ByteAt(v, 2) == ByteAt(w, 2) && ByteAt(v, 3) == ByteAt(w, 3);
    Digits(v);
    Digits(w);
  }

  /** A little-endian load. */
  function WordOf(b0: u8, b1: u8, b2: u8, b3: u8): u32 { b0 + 0x100 * b1 + 0x1_0000 * b2 + 0x100_0000 * b3 }

  lemma Digits(w: u32)
    ensures w == WordOf(ByteAt(w, 0), ByteAt(w, 1), ByteAt(w, 2), ByteAt(w, 3))
  {
    RemainderDigits(w);
  }

  lemma RemainderDigits(w: int)
    ensures w == w % 0x100 + 0x100 * (w / 0x100 % 0x100) + 0x1_0000 * (w / 0x1_0000 % 0x100) + 0x100_0000 * (w / 0x100_0000)
  {
    var q1 := w / 0x100;
    var q2 := q1 / 0x100;
    var q3 := q2 / 0x100;
    assert w == q1 * 0x100 + w % 0x100 && q1 == q2 * 0x100 + q1 % 0x100 && q2 == q3 * 0x100 + q2 % 0x100;
    DivModUnique(w, 0x1_0000, q2, q1 % 0x100 * 0x100 + w % 0x100);
    DivModUnique(w, 0x100_0000, q3, q2 % 0x100 * 0x1_0000 + q1 % 0x100 * 0x100 + w % 0x100);
  }

  lemma BytesOfDigits(b0: u8, b1: u8, b2: u8, b3: u8)
    ensures ByteAt(WordOf(b0, b1, b2, b3), 0) == b0 && ByteAt(WordOf(b0, b1, b2, b3), 1) == b1
    ensures ByteAt(WordOf(b0, b1, b2, b3), 2) == b2 && ByteAt(WordOf(b0, b1, b2, b3), 3) == b3
  {
    var w: int := WordOf(b0, b1, b2, b3);
    DivModUnique(w, 0x100, b1 + 0x100 * b2 + 0x1_0000 * b3, b0);
    DivModUnique(w, 0x1_0000, b2 + 0x100 * b3, b0 + 0x100 * b1);
    DivModUnique(w, 0x100_0000, b3, b0 + 0x100 * b1 + 0x1_0000 * b2);
    DivModUnique(b1 + 0x100 * b2 + 0x1_0000 * b3, 0x100, b2 + 0x100 * b3, b1);
    DivModUnique(b2 + 0x100 * b3, 0x100, b3, b2);
  }
}
