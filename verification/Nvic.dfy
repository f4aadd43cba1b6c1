/** Interrupt priorities: one map from exception numbers to priorities, kept as bytes (Armv8-M Mainline)
    or packed four to a word (Armv8-M Baseline), and the group/subpriority codec on top. */
module Nvic {
  import opened Words
  import opened Bits
  import opened Octets

  /** __NVIC_PRIO_BITS; the LPC54608 implements 3. */
  type prioBits = x: int | 1 <= x <= 8 witness 3

  // (priority << (8U - __NVIC_PRIO_BITS)) & 0xFFUL
  function Field(priority: u32, bits: prioBits): u8 {
    FieldIs(priority, bits);
    And(Shl(priority, 8 - bits), 0xFF)
  }

  /** What a priority field reads back as. */
  function Level(field: u8, bits: prioBits): nat { Shr(field, 8 - bits) }

  function Shr(x: nat, k: nat): nat {
    DivNonNegative(x, Pow2(k));
    x / Pow2(k)
  }

  lemma DivNonNegative(x: int, d: int)
    requires 0 <= x && 0 < d
    ensures 0 <= x / d
  {}

  lemma Pow2To8()
    ensures Pow2(0) == 1 && Pow2(1) == 2 && Pow2(2) == 4 && Pow2(3) == 8 && Pow2(4) == 16
    ensures Pow2(5) == 32 && Pow2(6) == 64 && Pow2(7) == 128 && Pow2(8) == 256
  {
    Pow2Values();
  }

  /** A field keeps the priority modulo 2^PRIO_BITS, in its top bits. */
  lemma FieldIs(priority: u32, bits: prioBits)
    ensures And(Shl(priority, 8 - bits), 0xFF) == priority % Pow2(bits) * Pow2(8 - bits) < 0x100
  {
    hide And, Pow2, ToU32, Shl;
    ShlIs(priority, 8 - bits);
    Pow2To8();
    AndLowMask(Shl(priority, 8 - bits), 8);
    Pow2Add(bits, 8 - bits);
    LowByteOfCast(priority * Pow2(8 - bits));
    ScaledRemainder(priority, Pow2(bits), Pow2(8 - bits));
  }

  /** The stored field and what it reads back as, in numbers. */
  lemma FieldAndLevelAre(priority: u32, field: u8, bits: prioBits)
    ensures Field(priority, bits) == priority % Pow2(bits) * Pow2(8 - bits)
    ensures Level(field, bits) == field / Pow2(8 - bits)
  {
    hide And, Pow2;
    FieldIs(priority, bits);
  }

  lemma LowByteOfCast(x: int)
    ensures ToU32(x) % 0x100 == x % 0x100
  {}

  lemma ScaledRemainder(x: nat, m: nat, n: nat)
    requires 0 < m && 0 < n && m * n == 0x100
    ensures x * n % 0x100 == x % m * n < 0x100
  {
    var q: int, r: int := x / m, x % m;
    assert x == q * m + r;
    assert x * n == q * (m * n) + r * n;
    MulMono(r, m - 1, n);
    assert (m - 1) * n == 0x100 - n;
    MulNonNegative(r, n);
    DivModUnique(x * n, 0x100, q, r * n);
  }

  lemma LevelOfField(priority: u32, bits: prioBits)
    ensures Level(Field(priority, bits), bits) == priority % Pow2(bits)
  {
    hide And, Pow2;
    FieldIs(priority, bits);
    DivModUnique(Field(priority, bits), Pow2(8 - bits), priority % Pow2(bits), 0);
  }

  // ---- Locating a field ----

  // ((uint32_t)(int32_t)IRQn & 0xFUL) - 4UL
  function ShprByte(irqn: i32): u32 { ToU32(And(ToU32(irqn), 0xF) - 4) }

  // _BIT_SHIFT, _SHP_IDX, _IP_IDX
  function BitShift(irqn: i32): nat { And(ToU32(irqn), 0x3) * 8 }

  function ShpIdx(irqn: i32): nat { ToU32(And(ToU32(irqn), 0xF) - 8) / 4 }

  function IpIdx(irqn: i32): nat { ToU32(irqn) / 4 }

  lemma NumberMasks(irqn: i32)
    ensures And(ToU32(irqn), 0xF) == irqn % 16 && And(ToU32(irqn), 0x3) == irqn % 4
  {
    hide And, Pow2;
    Pow2To8();
    AndLowMask(ToU32(irqn), 4);
    AndLowMask(ToU32(irqn), 2);
  }

  lemma ByteIndices(irqn: i32)
    requires -12 <= irqn < 496
    ensures if irqn >= 0 then ToU32(irqn) == irqn else ShprByte(irqn) == irqn + 12
  {
    hide And;
    NumberMasks(irqn);
  }

  lemma WordIndices(irqn: i32)
    requires -8 <= irqn < 496
    ensures BitShift(irqn) == 8 * (irqn % 4)
    ensures if irqn >= 0 then IpIdx(irqn) == irqn / 4 else ShpIdx(irqn) == (irqn + 8) / 4
  {
    hide And;
    NumberMasks(irqn);
  }

  /** The register addressed exists exactly for the numbers whose priority can be set. */
  lemma RegisterExistsExactly(irqn: i32)
    requires -16 <= irqn
    ensures (if irqn >= 0 then ToU32(irqn) < 496 else ShprByte(irqn) < 12) <==> -12 <= irqn < 496
    ensures (if irqn >= 0 then IpIdx(irqn) < 124 else ShpIdx(irqn) < 2) <==> -8 <= irqn < 496
  {
    hide And, ToU32;
    NumberMasks(irqn);
    UnsignedOf(irqn);
    UnsignedOf(irqn % 16 - 4);
    UnsignedOf(irqn % 16 - 8);
  }

  lemma UnsignedOf(x: i32)
    ensures ToU32(x) == if x < 0 then x + 0x1_0000_0000 else x
  {}

  // ---- The byte layout ----

  class ByteNvic {
    const bits: prioBits
    const IPR: array<u8>
    const SHPR: array<u8>

    ghost predicate Valid() { IPR.Length == 496 && SHPR.Length == 12 && IPR != SHPR }

    /** Every priority field, in the order of exception numbers from -12. */
    ghost function Fields(): (fields: seq<u8>)
      requires Valid()
      reads IPR, SHPR
      ensures |fields| == 508
    {
      SHPR[..] + IPR[..]
    }

    constructor (bits: prioBits)
      ensures Valid() && fresh(IPR) && fresh(SHPR) && this.bits == bits
      ensures forall k :: 0 <= k < 508 ==> Fields()[k] == 0
    {
      this.bits := bits;
      IPR := new u8[496](i => 0);
      SHPR := new u8[12](i => 0);
    }

    method SetPriority(irqn: i32, priority: u32)
      requires Valid() && -12 <= irqn < 496
      modifies IPR, SHPR
      ensures Fields() == old(Fields())[irqn + 12 := Field(priority, bits)]
    {
      hide And, Field, ToU32, ShprByte;
      ByteIndices(irqn);
      if irqn >= 0 {
        IPR[ToU32(irqn)] := Field(priority, bits);
      } else {
        SHPR[ShprByte(irqn)] := Field(priority, bits);
      }
    }

    method GetPriority(irqn: i32) returns (priority: nat)
      requires Valid() && -12 <= irqn < 496
      ensures priority == Level(Fields()[irqn + 12], bits)
    {
      hide And, Shr;
      NumberMasks(irqn);
      if irqn >= 0 {
        priority := Shr(IPR[ToU32(irqn)], 8 - bits);
      } else {
        priority := Shr(SHPR[ShprByte(irqn)], 8 - bits);
      }
    }
  }

  // ---- The word layout ----

  /** The bytes of a word array in memory order. */
  ghost function BytesOf(words: seq<u32>): seq<u8> {
    seq(4 * |words|, i requires 0 <= i < 4 * |words| => ByteAt(words[i / 4], i % 4))
  }

  lemma BytesAre(words: seq<u32>)
    ensures |BytesOf(words)| == 4 * |words|
    ensures forall n: nat :: n < 4 * |words| ==> BytesOf(words)[n] == ByteAt(words[n / 4], n % 4)
  {}

  /** The bytes determine the words. */
  lemma BytesDetermine(a: seq<u32>, b: seq<u32>)
    requires BytesOf(a) == BytesOf(b)
    ensures a == b
  {
    assert |BytesOf(a)| == 4 * |a| && |BytesOf(b)| == 4 * |b|;
    forall k | 0 <= k < |a|
      ensures a[k] == b[k]
    {
      forall j | 0 <= j < 4
        ensures ByteAt(a[k], j) == ByteAt(b[k], j)
      {
        assert ByteAt(a[k], j) == BytesOf(a)[4 * k + j] == BytesOf(b)[4 * k + j];
      }
      FourBytes(a[k], b[k]);
    }
  }

  // (word & ~(0xFFUL << shift)) | (field << shift)
  function Insert(word: u32, shift: nat, field: u8): nat {
    Or(And(word, 0xFFFF_FFFF - Shl(0xFF, shift)), Shl(field, shift))
  }

  /** Replacing one digit of a word. */
  lemma ReplacedDigit(word: u32, k: nat, field: u8) returns (hi: nat, lo: nat)
    requires k < 4
    ensures Cut(word, k, hi, ByteAt(word, k), lo)
    ensures var w := hi * (0x100 * Scale(k)) + field * Scale(k) + lo;
            w < 0x1_0000_0000
            && forall j :: 0 <= j < 4 ==> ByteAt(w, j) == if j == k then field else ByteAt(word, j)
  {
    hide ByteAt;
    var b0: int, b1: int, b2: int, b3: int := ByteAt(word, 0), ByteAt(word, 1), ByteAt(word, 2), ByteAt(word, 3);
    Digits(word);
    match k
    case 0 =>
      hi, lo := b1 + 0x100 * b2 + 0x1_0000 * b3, 0;
      BytesOfDigits(field, b1, b2, b3);
    case 1 =>
      hi, lo := b2 + 0x100 * b3, b0;
      BytesOfDigits(b0, field, b2, b3);
    case 2 =>
      hi, lo := b3, b0 + 0x100 * b1;
      BytesOfDigits(b0, b1, field, b3);
    case 3 =>
      hi, lo := 0, b0 + 0x100 * b1 + 0x1_0000 * b2;
      BytesOfDigits(b0, b1, b2, field);
  }

  /** Read-modify-write at byte k replaces that byte and no other. */
  lemma InsertReplaces(word: u32, k: nat, field: u8)
    requires k < 4
    ensures Insert(word, 8 * k, field) < 0x1_0000_0000
    ensures forall j :: 0 <= j < 4 ==>
              ByteAt(Insert(word, 8 * k, field), j) == if j == k then field else ByteAt(word, j)
  {
    hide Insert, ByteAt, Scale;
    var hi, lo := ReplacedDigit(word, k, field);
    InsertedParts(word, k, hi, ByteAt(word, k), lo, field);
  }

  function Scale(k: nat): nat
    requires k < 4
  {
    match k
    case 0 => 1
    case 1 => 0x100
    case 2 => 0x1_0000
    case _ => 0x100_0000
  }

  lemma ScaleIsPow2(k: nat)
    requires k < 4
    ensures Scale(k) == Pow2(8 * k) && 0x100 * Scale(k) == Pow2(8 * k + 8) && Scale(k) * Scale(3 - k) == Pow2(24)
  {
    Pow2Values();
  }

  /** A word cut around its byte k. */
  ghost predicate Cut(word: int, k: nat, hi: nat, mid: nat, lo: nat) {
    k < 4 && mid < 0x100 && lo < Scale(k) && hi < Scale(3 - k) && word == hi * (0x100 * Scale(k)) + mid * Scale(k) + lo
  }

  lemma InsertedParts(word: u32, k: nat, hi: nat, mid: nat, lo: nat, field: u8)
    requires Cut(word, k, hi, mid, lo)
    ensures Cut(Insert(word, 8 * k, field), k, hi, field, lo)
  {
    hide And, Or, Pow2, Shl, Scale;
    ShiftFits(0xFF, k);
    ShiftFits(field, k);
    Cleared(word, k, hi, mid, lo);
    Merged(k, hi, field, lo);
  }

  lemma Cleared(word: u32, k: nat, hi: nat, mid: nat, lo: nat)
    requires Cut(word, k, hi, mid, lo)
    ensures 0xFF * Scale(k) <= 0xFFFF_FFFF
    ensures And(word, 0xFFFF_FFFF - 0xFF * Scale(k)) == hi * (0x100 * Scale(k)) + lo
  {
    hide And, Pow2, Scale;
    ScaleIsPow2(k);
    ScaleIsPow2(3 - k);
    MaskParts(k);
    LowPart(k, mid, lo);
    ClearedAt(word, 0xFFFF_FFFF - 0xFF * Scale(k), hi, mid * Scale(k) + lo, lo, Scale(k), Scale(3 - k), k);
  }

  lemma LowPart(k: nat, mid: nat, lo: nat)
    requires k < 4 && mid < 0x100 && lo < Scale(k)
    ensures 0 <= mid * Scale(k) + lo < 0x100 * Scale(k) && And(mid * Scale(k) + lo, Scale(k) - 1) == lo
  {
    hide And, Pow2, Scale;
    ScaleIsPow2(k);
    DigitPair(mid, lo, 0x100, Scale(k));
    AndLowMask(mid * Scale(k) + lo, 8 * k);
    DivModUnique(mid * Scale(k) + lo, Scale(k), mid, lo);
  }

  lemma ClearedAt(word: nat, mask: nat, hi: nat, low: nat, lo: nat, s: nat, top: nat, k: nat)
    requires k < 4 && s == Pow2(8 * k) && 0x100 * s == Pow2(8 * k + 8) && top == Pow2(24 - 8 * k)
    requires hi < top && low < 0x100 * s && 0 < s && And(low, s - 1) == lo
    requires word == hi * (0x100 * s) + low && mask == (top - 1) * (0x100 * s) + (s - 1)
    ensures And(word, mask) == hi * (0x100 * s) + lo
  {
    hide And, Pow2;
    AndOnes(hi, 24 - 8 * k);
    AndSplit(word, mask, hi, low, top - 1, s - 1, 8 * k + 8);
  }

  lemma MaskParts(k: nat)
    requires k < 4
    ensures 0xFFFF_FFFF - 0xFF * Scale(k) == (Scale(3 - k) - 1) * (0x100 * Scale(k)) + (Scale(k) - 1)
    ensures 1 <= Scale(k) <= 0x100_0000 && 1 <= Scale(3 - k)
  {}

  lemma Merged(k: nat, hi: nat, field: u8, lo: nat)
    requires k < 4 && lo < Scale(k)
    ensures Or(hi * (0x100 * Scale(k)) + lo, field * Scale(k)) == hi * (0x100 * Scale(k)) + field * Scale(k) + lo
  {
    hide Or, Pow2, Scale;
    ScaleIsPow2(k);
    Regrouped(hi, field, Scale(k));
    MergedAt(hi * 0x100, field, lo, Scale(k), 8 * k);
    Pow2To8();
    OrDisjoint(hi, field, 8);
  }

  lemma MergedAt(a: nat, field: nat, lo: nat, s: nat, k: nat)
    requires s == Pow2(k) && lo < s
    ensures Or(a * s + lo, field * s) == Or(a, field) * s + lo
  {
    hide Or, Pow2;
    OrSplit(a * s + lo, field * s, a, lo, field, 0, k);
    OrZero(lo);
  }

  lemma Regrouped(hi: int, field: int, s: int)
    ensures hi * (0x100 * s) == hi * 0x100 * s && (hi * 0x100 + field) * s == hi * (0x100 * s) + field * s
  {}

  lemma ShiftFits(v: u8, k: nat)
    requires k < 4
    ensures Shl(v, 8 * k) == v * Scale(k)
  {
    hide Pow2;
    ScaleIsPow2(k);
    MulMono(v, 0xFF, Scale(k));
    MulNonNegative(v, Scale(k));
    SameU32(v * Scale(k));
  }

  class WordNvic {
    const bits: prioBits
    const IPR: array<u32>
    const SHPR: array<u32>

    ghost predicate Valid() { IPR.Length == 124 && SHPR.Length == 2 && IPR != SHPR }

    /** Every priority field, in the order of exception numbers from -8. */
    ghost function Fields(): (fields: seq<u8>)
      requires Valid()
      reads IPR, SHPR
      ensures |fields| == 504
    {
      BytesOf(SHPR[..]) + BytesOf(IPR[..])
    }

    constructor (bits: prioBits)
      ensures Valid() && fresh(IPR) && fresh(SHPR) && this.bits == bits
      ensures forall k :: 0 <= k < 504 ==> Fields()[k] == 0
    {
      this.bits := bits;
      IPR := new u32[124](i => 0);
      SHPR := new u32[2](i => 0);
    }

    method SetPriority(irqn: i32, priority: u32)
      requires Valid() && -8 <= irqn < 496
      modifies IPR, SHPR
      ensures Fields() == old(Fields())[irqn + 8 := Field(priority, bits)]
    {
      hide And, Field, Insert, BytesOf, BitShift, IpIdx, ShpIdx;
      WordIndices(irqn);
      ghost var ipr, shpr := IPR[..], SHPR[..];
      if irqn >= 0 {
        BytesAfterInsert(ipr, irqn, Field(priority, bits));
        IPR[IpIdx(irqn)] := Insert(IPR[IpIdx(irqn)], BitShift(irqn), Field(priority, bits));
        assert IPR[..] == ipr[irqn / 4 := Insert(ipr[irqn / 4], 8 * (irqn % 4), Field(priority, bits))];
      } else {
        BytesAfterInsert(shpr, irqn + 8, Field(priority, bits));
        SHPR[ShpIdx(irqn)] := Insert(SHPR[ShpIdx(irqn)], BitShift(irqn), Field(priority, bits));
        assert SHPR[..] == shpr[(irqn + 8) / 4 := Insert(shpr[(irqn + 8) / 4], 8 * (irqn % 4), Field(priority, bits))];
      }
    }

    method GetPriority(irqn: i32) returns (priority: nat)
      requires Valid() && -8 <= irqn < 496
      ensures priority == Level(Fields()[irqn + 8], bits)
    {
      hide And, Shr, ByteAt, BytesOf, BitShift, IpIdx, ShpIdx;
      WordIndices(irqn);
      ghost var ipr, shpr := IPR[..], SHPR[..];
      BytesAre(ipr);
      BytesAre(shpr);
      if irqn >= 0 {
        ShiftedByte(IPR[IpIdx(irqn)], irqn % 4);
        priority := Shr(And(Shr(IPR[IpIdx(irqn)], BitShift(irqn)), 0xFF), 8 - bits);
      } else {
        ShiftedByte(SHPR[ShpIdx(irqn)], irqn % 4);
        priority := Shr(And(Shr(SHPR[ShpIdx(irqn)], BitShift(irqn)), 0xFF), 8 - bits);
      }
    }
  }

  lemma ShiftedByte(word: u32, k: nat)
    requires k < 4
    ensures And(Shr(word, 8 * k), 0xFF) == ByteAt(word, k)
  {
    hide And, Pow2;
    Pow2To8();
    ScaleIsPow2(k);
    AndLowMask(word / Scale(k), 8);
  }

  /** Inserting into word n / 4 at byte n % 4 updates byte n of the memory. */
  lemma BytesAfterInsert(words: seq<u32>, n: nat, field: u8)
    requires n < 4 * |words|
    ensures Insert(words[n / 4], 8 * (n % 4), field) < 0x1_0000_0000
    ensures |BytesOf(words)| == 4 * |words|
    ensures BytesOf(words[n / 4 := Insert(words[n / 4], 8 * (n % 4), field)]) == BytesOf(words)[n := field]
  {
    hide Insert, ByteAt;
    InsertReplaces(words[n / 4], n % 4, field);
    var after := words[n / 4 := Insert(words[n / 4], 8 * (n % 4), field)];
    forall i | 0 <= i < 4 * |words|
      ensures BytesOf(after)[i] == BytesOf(words)[n := field][i]
    {
      if i / 4 == n / 4 {
        assert i == n <==> i % 4 == n % 4;
      }
    }
  }

  /** Where the field of a number lies in the byte registers. */
  lemma ByteLocation(nvic: ByteNvic, irqn: i32)
    requires nvic.Valid() && -12 <= irqn < 496
    ensures nvic.Fields()[irqn + 12] == if irqn >= 0 then nvic.IPR[irqn] else nvic.SHPR[irqn + 12]
  {}

  /** Where it lies in the word registers: in word irqn / 4 of its bank, at weight 256^(irqn % 4). */
  lemma WordLocation(nvic: WordNvic, irqn: i32)
    requires nvic.Valid() && -8 <= irqn < 496
    ensures nvic.Fields()[irqn + 8] ==
            ByteAt(if irqn >= 0 then nvic.IPR[irqn / 4] else nvic.SHPR[(irqn + 8) / 4], irqn % 4)
  {
    hide ByteAt, BytesOf;
    BytesAre(nvic.IPR[..]);
    BytesAre(nvic.SHPR[..]);
  }

  // ---- Runs ----

  datatype Op = Set(irqn: i32, priority: u32) | Get(irqn: i32)

  /** All the numbers of a run lie in a layout that starts at exception number -first. */
  ghost predicate Within(ops: seq<Op>, first: nat) {
    forall i :: 0 <= i < |ops| ==> 0 <= first + ops[i].irqn < first + 496
  }

  /** The fields after one call. */
  ghost function Changed(fields: seq<u8>, first: nat, bits: prioBits, op: Op): (r: seq<u8>)
    requires |fields| == first + 496 && 0 <= first + op.irqn < first + 496
    ensures |r| == |fields|
  {
    match op
    case Set(irqn, priority) => fields[irqn + first := Field(priority, bits)]
    case Get(_) => fields
  }

  /** What one call returns: nothing, or the priority read. */
  ghost function Returned(fields: seq<u8>, first: nat, bits: prioBits, op: Op): seq<nat>
    requires |fields| == first + 496 && 0 <= first + op.irqn < first + 496
  {
    match op
    case Set(_, _) => []
    case Get(irqn) => [Level(fields[irqn + first], bits)]
  }

  /** The fields after a run of calls. */
  ghost function After(fields: seq<u8>, first: nat, bits: prioBits, ops: seq<Op>): (r: seq<u8>)
    requires |fields| == first + 496 && Within(ops, first)
    ensures |r| == |fields|
    decreases |ops|
  {
    if ops == [] then fields
    else Changed(After(fields, first, bits, ops[..|ops| - 1]), first, bits, ops[|ops| - 1])
  }

  /** What the Get calls of a run return. */
  ghost function Seen(fields: seq<u8>, first: nat, bits: prioBits, ops: seq<Op>): seq<nat>
    requires |fields| == first + 496 && Within(ops, first)
    decreases |ops|
  {
    if ops == [] then []
    else
      var front := ops[..|ops| - 1];
      Seen(fields, first, bits, front) + Returned(After(fields, first, bits, front), first, bits, ops[|ops| - 1])
  }

  /** The two numberings of the fields agree over any run of calls. */
  lemma {:induction false} LayoutsAgree(bytes: seq<u8>, words: seq<u8>, bits: prioBits, ops: seq<Op>)
    requires |bytes| == 508 && words == bytes[4..] && Within(ops, 8)
    ensures Within(ops, 12)
    ensures Seen(words, 8, bits, ops) == Seen(bytes, 12, bits, ops)
    ensures After(words, 8, bits, ops) == After(bytes, 12, bits, ops)[4..]
    decreases |ops|
  {
    hide Field, Level;
    if ops != [] {
      var front := ops[..|ops| - 1];
      LayoutsAgree(bytes, words, bits, front);
      assert After(words, 8, bits, front) == After(bytes, 12, bits, front)[4..];
    }
  }

  /** The last call that sets an interrupt's priority decides it; other calls leave it alone. */
  lemma {:induction false} LastSetWins(fields: seq<u8>, first: nat, bits: prioBits, ops: seq<Op>, last: nat, irqn: i32)
    requires |fields| == first + 496 && Within(ops, first) && last < |ops|
    requires ops[last].Set? && ops[last].irqn == irqn
    requires forall i :: last < i < |ops| && ops[i].Set? ==> ops[i].irqn != irqn
    ensures Level(After(fields, first, bits, ops)[irqn + first], bits) == ops[last].priority % Pow2(bits)
    decreases |ops|
  {
    hide Field, Level, Pow2;
    if last == |ops| - 1 {
      LevelOfField(ops[last].priority, bits);
    } else {
      LastSetWins(fields, first, bits, ops[..|ops| - 1], last, irqn);
    }
  }

  lemma {:induction false} NeverSetKeeps(fields: seq<u8>, first: nat, bits: prioBits, ops: seq<Op>, irqn: i32)
    requires |fields| == first + 496 && Within(ops, first) && 0 <= first + irqn < first + 496
    requires forall i :: 0 <= i < |ops| && ops[i].Set? ==> ops[i].irqn != irqn
    ensures After(fields, first, bits, ops)[irqn + first] == fields[irqn + first]
    decreases |ops|
  {
    hide Field;
    if ops != [] {
      NeverSetKeeps(fields, first, bits, ops[..|ops| - 1], irqn);
    }
  }

  ghost predicate LastSet(ops: seq<Op>, last: nat, irqn: i32) {
    && last < |ops| && ops[last].Set? && ops[last].irqn == irqn
    && forall i :: last < i < |ops| && ops[i].Set? ==> ops[i].irqn != irqn
  }

  ghost predicate NeverSet(ops: seq<Op>, irqn: i32) {
    forall i :: 0 <= i < |ops| && ops[i].Set? ==> ops[i].irqn != irqn
  }

  /** What the registers hold after a run: the last priority set, or what they held before. */
  ghost predicate Remembered(before: seq<u8>, after: seq<u8>, first: nat, bits: prioBits, ops: seq<Op>) {
    && |before| == |after| == first + 496
    && (forall irqn: i32, last: nat :: LastSet(ops, last, irqn) && 0 <= first + irqn < first + 496 ==>
          Level(after[first + irqn], bits) == ops[last].priority % Pow2(bits))
    && (forall irqn: i32 :: NeverSet(ops, irqn) && 0 <= first + irqn < first + 496 ==> after[first + irqn] == before[first + irqn])
  }

  lemma RunRemembers(fields: seq<u8>, first: nat, bits: prioBits, ops: seq<Op>)
    requires |fields| == first + 496 && Within(ops, first)
    ensures Remembered(fields, After(fields, first, bits, ops), first, bits, ops)
  {
    hide Field, Level, Pow2, After;
    forall irqn: i32, last: nat | LastSet(ops, last, irqn) && 0 <= first + irqn < first + 496
      ensures Level(After(fields, first, bits, ops)[first + irqn], bits) == ops[last].priority % Pow2(bits)
    {
      LastSetWins(fields, first, bits, ops, last, irqn);
    }
    forall irqn: i32 | NeverSet(ops, irqn) && 0 <= first + irqn < first + 496
      ensures After(fields, first, bits, ops)[first + irqn] == fields[first + irqn]
    {
      NeverSetKeeps(fields, first, bits, ops, irqn);
    }
  }

  /** One more call of a run. */
  lemma RunNext(fields: seq<u8>, first: nat, bits: prioBits, ops: seq<Op>, i: nat)
    requires |fields| == first + 496 && Within(ops, first) && i < |ops|
    ensures Within(ops[..i], first) && Within(ops[..i + 1], first) && 0 <= first + ops[i].irqn < first + 496
    ensures var before := After(fields, first, bits, ops[..i]);
            && After(fields, first, bits, ops[..i + 1]) == Changed(before, first, bits, ops[i])
            && Seen(fields, first, bits, ops[..i + 1]) ==
               Seen(fields, first, bits, ops[..i]) + Returned(before, first, bits, ops[i])
  {
    hide Changed, Returned;
    assert ops[..i + 1][..i] == ops[..i];
  }

  /** A run of calls on the byte registers. */
  method RunBytes(nvic: ByteNvic, ops: seq<Op>) returns (seen: seq<nat>)
    requires nvic.Valid() && Within(ops, 12)
    modifies nvic.IPR, nvic.SHPR
    ensures nvic.Fields() == After(old(nvic.Fields()), 12, nvic.bits, ops)
    ensures seen == Seen(old(nvic.Fields()), 12, nvic.bits, ops)
    ensures Remembered(old(nvic.Fields()), nvic.Fields(), 12, nvic.bits, ops)
    ensures |seen| == Gets(ops, |ops|)
    ensures forall i :: 0 <= i < |ops| && ops[i].Get? ==> Answers(old(nvic.Fields()), 12, nvic.bits, ops, seen, i)
  {
    hide Field, Level, After, Seen, Within, Remembered, Answers, Gets;
    ghost var fields := nvic.Fields();
    RunStart(fields, 12, nvic.bits, ops);
    seen := [];
    for i := 0 to |ops|
      invariant Within(ops[..i], 12)
      invariant nvic.Fields() == After(fields, 12, nvic.bits, ops[..i])
      invariant seen == Seen(fields, 12, nvic.bits, ops[..i])
    {
      RunNext(fields, 12, nvic.bits, ops, i);
      match ops[i] {
        case Set(irqn, priority) =>
          nvic.SetPriority(irqn, priority);
        case Get(irqn) =>
          var priority := nvic.GetPriority(irqn);
          seen := seen + [priority];
      }
    }
    assert ops[..|ops|] == ops;
    RunRemembers(fields, 12, nvic.bits, ops);
    AnswersAreRight(fields, 12, nvic.bits, ops, seen);
  }

  /** A run of calls on the word registers. */
  method RunWords(nvic: WordNvic, ops: seq<Op>) returns (seen: seq<nat>)
    requires nvic.Valid() && Within(ops, 8)
    modifies nvic.IPR, nvic.SHPR
    ensures nvic.Fields() == After(old(nvic.Fields()), 8, nvic.bits, ops)
    ensures seen == Seen(old(nvic.Fields()), 8, nvic.bits, ops)
    ensures Remembered(old(nvic.Fields()), nvic.Fields(), 8, nvic.bits, ops)
    ensures |seen| == Gets(ops, |ops|)
    ensures forall i :: 0 <= i < |ops| && ops[i].Get? ==> Answers(old(nvic.Fields()), 8, nvic.bits, ops, seen, i)
  {
    hide Field, Level, After, Seen, Within, Remembered, Answers, Gets, BytesOf;
    ghost var fields := nvic.Fields();
    RunStart(fields, 8, nvic.bits, ops);
    seen := [];
    for i := 0 to |ops|
      invariant Within(ops[..i], 8)
      invariant nvic.Fields() == After(fields, 8, nvic.bits, ops[..i])
      invariant seen == Seen(fields, 8, nvic.bits, ops[..i])
    {
      RunNext(fields, 8, nvic.bits, ops, i);
      match ops[i] {
        case Set(irqn, priority) =>
          nvic.SetPriority(irqn, priority);
        case Get(irqn) =>
          var priority := nvic.GetPriority(irqn);
          seen := seen + [priority];
      }
    }
    assert ops[..|ops|] == ops;
    RunRemembers(fields, 8, nvic.bits, ops);
    AnswersAreRight(fields, 8, nvic.bits, ops, seen);
  }

  lemma RunStart(fields: seq<u8>, first: nat, bits: prioBits, ops: seq<Op>)
    requires |fields| == first + 496
    ensures Within(ops[..0], first)
    ensures After(fields, first, bits, ops[..0]) == fields && Seen(fields, first, bits, ops[..0]) == []
  {}

  /** Main result. The two register layouts, driven by the same calls from matching contents, return the
      same priorities and end with matching contents. */
  method RunBoth(b: ByteNvic, w: WordNvic, ops: seq<Op>) returns (seenBytes: seq<nat>, seenWords: seq<nat>)
    requires b.Valid() && w.Valid() && b.bits == w.bits && w.Fields() == b.Fields()[4..] && Within(ops, 8)
    requires {w.IPR, w.SHPR} !! {b.IPR, b.SHPR}
    modifies b.IPR, b.SHPR, w.IPR, w.SHPR
    ensures seenBytes == seenWords && w.Fields() == b.Fields()[4..]
    ensures b.Fields()[..4] == old(b.Fields())[..4]
  {
    hide After, Seen, BytesOf;
    LayoutsAgree(b.Fields(), w.Fields(), b.bits, ops);
    LowFieldsStay(b.Fields(), b.bits, ops);
    seenBytes := RunBytes(b, ops);
    seenWords := RunWords(w, ops);
  }

  /** The four exceptions the word layout does not know keep their fields. */
  lemma LowFieldsStay(fields: seq<u8>, bits: prioBits, ops: seq<Op>)
    requires |fields| == 508 && Within(ops, 8)
    ensures Within(ops, 12) && After(fields, 12, bits, ops)[..4] == fields[..4]
  {
    hide Field, After;
    forall k | 0 <= k < 4
      ensures After(fields, 12, bits, ops)[k] == fields[k]
    {
      NeverSetKeeps(fields, 12, bits, ops, k - 12);
    }
  }

  /** The Get calls among the first n of a run. */
  function Gets(ops: seq<Op>, n: nat): nat
    requires n <= |ops|
  {
    if n == 0 then 0 else Gets(ops, n - 1) + if ops[n - 1].Get? then 1 else 0
  }

  /** Get call number i returns the last priority set for its number before it, or what the field held at first. */
  ghost predicate Answers(before: seq<u8>, first: nat, bits: prioBits, ops: seq<Op>, seen: seq<nat>, i: nat)
    requires |before| == first + 496 && Within(ops, first) && i < |ops| && ops[i].Get?
  {
    && Gets(ops, i) < |seen|
    && (forall last: nat :: LastSet(ops[..i], last, ops[i].irqn) ==> seen[Gets(ops, i)] == ops[last].priority % Pow2(bits))
    && (NeverSet(ops[..i], ops[i].irqn) ==> seen[Gets(ops, i)] == before[ops[i].irqn + first] / Pow2(8 - bits))
  }

  lemma {:induction false} SeenIs(before: seq<u8>, first: nat, bits: prioBits, ops: seq<Op>, n: nat, i: nat)
    requires |before| == first + 496 && Within(ops, first) && n <= |ops|
    ensures Within(ops[..n], first) && |Seen(before, first, bits, ops[..n])| == Gets(ops, n)
    ensures i < n && ops[i].Get? ==>
              Gets(ops, i) < Gets(ops, n) && Within(ops[..i], first)
              && Seen(before, first, bits, ops[..n])[Gets(ops, i)] ==
                 Level(After(before, first, bits, ops[..i])[ops[i].irqn + first], bits)
    decreases n
  {
    hide Level, After;
    if n != 0 {
      assert ops[..n][..n - 1] == ops[..n - 1];
      SeenIs(before, first, bits, ops, n - 1, i);
    }
  }

  /** Every answer of a run is the right one, and there is one for each Get call. */
  lemma AnswersAreRight(before: seq<u8>, first: nat, bits: prioBits, ops: seq<Op>, seen: seq<nat>)
    requires |before| == first + 496 && Within(ops, first) && seen == Seen(before, first, bits, ops)
    ensures |seen| == Gets(ops, |ops|)
    ensures forall i :: 0 <= i < |ops| && ops[i].Get? ==> Answers(before, first, bits, ops, seen, i)
  {
    hide Level, After, Seen, Field, Pow2;
    assert ops[..|ops|] == ops;
    SeenIs(before, first, bits, ops, |ops|, 0);
    forall i | 0 <= i < |ops| && ops[i].Get?
      ensures Answers(before, first, bits, ops, seen, i)
    {
      SeenIs(before, first, bits, ops, |ops|, i);
      AnswerIsRight(before, first, bits, ops, seen, i);
    }
  }

  lemma AnswerIsRight(before: seq<u8>, first: nat, bits: prioBits, ops: seq<Op>, seen: seq<nat>, i: nat)
    requires |before| == first + 496 && Within(ops, first) && i < |ops| && ops[i].Get?
    requires Gets(ops, i) < |seen| && Within(ops[..i], first)
    requires seen[Gets(ops, i)] == Level(After(before, first, bits, ops[..i])[ops[i].irqn + first], bits)
    ensures Answers(before, first, bits, ops, seen, i)
  {
    hide Level, After, Field, Pow2, Gets;
    var irqn := ops[i].irqn;
    forall last: nat | LastSet(ops[..i], last, irqn)
      ensures seen[Gets(ops, i)] == ops[last].priority % Pow2(bits)
    {
      LastSetWins(before, first, bits, ops[..i], last, irqn);
    }
    if NeverSet(ops[..i], irqn) {
      NeverSetKeeps(before, first, bits, ops[..i], irqn);
      FieldAndLevelAre(0, before[irqn + first], bits);
    }
  }

  // ---- Priority groups ----

  function PreemptBits(group: u32, bits: prioBits): nat {
    var g: int := And(group, 7);
    if ToU32(7 - g) > bits then bits else ToU32(7 - g)
  }

  function SubBits(group: u32, bits: prioBits): nat {
    var g: int := And(group, 7);
    if ToU32(g + bits) < 7 then 0 else ToU32(ToU32(g - 7) + bits)
  }

  function Encode(group: u32, preempt: u32, sub: u32, bits: prioBits): nat {
    Or(Shl(And(preempt, Pow2(PreemptBits(group, bits)) - 1), SubBits(group, bits)),
       And(sub, Pow2(SubBits(group, bits)) - 1))
  }

  function Decode(priority: u32, group: u32, bits: prioBits): (nat, nat) {
    (And(Shr(priority, SubBits(group, bits)), Pow2(PreemptBits(group, bits)) - 1),
     And(priority, Pow2(SubBits(group, bits)) - 1))
  }

  /** The two parts share the implemented bits, whatever the group. */
  lemma BitsPartition(group: u32, bits: prioBits)
    ensures PreemptBits(group, bits) + SubBits(group, bits) == bits
    ensures PreemptBits(group, bits) == Min(7 - group % 8, bits)
  {
    hide And, Pow2, ToU32;
    Pow2To8();
    AndLowMask(group, 3);
    var g: int := group % 8;
    SameU32(7 - g);
    SameU32(g + bits);
    WrapBack(g - 7, bits);
  }

  lemma WrapBack(x: int, y: int)
    ensures 0 <= x + y < 0x1_0000_0000 ==> ToU32(ToU32(x) + y) == x + y
  {}

  /** Encoding reduces each part to its width and reads the pair as one number. */
  lemma EncodeIs(group: u32, preempt: u32, sub: u32, bits: prioBits)
    ensures var p, s := Pow2(PreemptBits(group, bits)), Pow2(SubBits(group, bits));
            p * s == Pow2(bits) && Encode(group, preempt, sub, bits) == preempt % p * s + sub % s < Pow2(bits) <= 0x100
  {
    hide And, Or, Pow2, PreemptBits, SubBits;
    var pb, sb := PreemptBits(group, bits), SubBits(group, bits);
    BitsPartition(group, bits);
    Pow2Add(pb, sb);
    Pow2To8();
    Pow2Mono(bits, 8);
    var p, s := Pow2(pb), Pow2(sb);
    AndLowMask(preempt, pb);
    AndLowMask(sub, sb);
    DigitPair(preempt % p, sub % s, p, s);
    SmallShift(preempt % p, s);
    OrDisjoint(preempt % p, sub % s, sb);
    hide Shl;
    assert Shl(preempt % p, sb) == preempt % p * s by { ShlIs(preempt % p, sb); }
  }

  lemma ShlIs(x: nat, s: nat)
    ensures Shl(x, s) == ToU32(x * Pow2(s))
  {}

  lemma SmallShift(a: nat, s: nat)
    requires a * s < 0x100
    ensures ToU32(a * s) == a * s
  {
    SameU32(a * s);
  }

  lemma DigitPair(a: nat, b: nat, p: nat, s: nat)
    requires a < p && b < s
    ensures a * s <= a * s + b < p * s
  {
    MulMono(a, p - 1, s);
    assert (p - 1) * s == p * s - s;
  }

  lemma DecodeIs(priority: u32, group: u32, bits: prioBits)
    ensures var p, s := Pow2(PreemptBits(group, bits)), Pow2(SubBits(group, bits));
            Decode(priority, group, bits) == (priority / s % p, priority % s)
  {
    hide And, Pow2, PreemptBits, SubBits;
    AndLowMask(Shr(priority, SubBits(group, bits)), PreemptBits(group, bits));
    AndLowMask(priority, SubBits(group, bits));
  }

  /** A pair that fits its widths is returned unchanged, any other reduced to them. */
  lemma DecodeOfEncode(group: u32, preempt: u32, sub: u32, bits: prioBits)
    ensures Encode(group, preempt, sub, bits) < 0x100
    ensures Decode(Encode(group, preempt, sub, bits), group, bits) ==
            (preempt % Pow2(PreemptBits(group, bits)), sub % Pow2(SubBits(group, bits)))
  {
    hide *;
    var p, s := Pow2(PreemptBits(group, bits)), Pow2(SubBits(group, bits));
    EncodeIs(group, preempt, sub, bits);
    var e := Encode(group, preempt, sub, bits);
    DecodeIs(e, group, bits);
    DivModUnique(e, s, preempt % p, sub % s);
    DivModUnique(preempt % p, p, 0, preempt % p);
  }

  /** Encoding a decoded value gives it back, reduced to the implemented bits. */
  lemma EncodeOfDecode(priority: u32, group: u32, bits: prioBits)
    ensures var (preempt, sub) := Decode(priority, group, bits);
            preempt < 0x1_0000_0000 && sub < 0x1_0000_0000
            && Encode(group, preempt, sub, bits) == priority % Pow2(bits)
  {
    hide *;
    var p, s := Pow2(PreemptBits(group, bits)), Pow2(SubBits(group, bits));
    DecodeIs(priority, group, bits);
    EncodeIs(group, 0, 0, bits);
    FactorsBelow(p, s, Pow2(bits));
    var preempt, sub := priority / s % p, priority % s;
    EncodeIs(group, preempt, sub, bits);
    TwoDigits(priority, p, s);
  }

  lemma FactorsBelow(p: nat, s: nat, m: nat)
    requires 0 < p && 0 < s && p * s == m <= 0x100
    ensures p <= 0x100 && s <= 0x100
  {
    MulMono(1, s, p);
    MulMono(1, p, s);
  }

  lemma TwoDigits(x: nat, p: nat, s: nat)
    requires 0 < p && 0 < s && 0 < p * s
    ensures x / s % p * s + x % s == x % (p * s) && x / s % p % p == x / s % p && x % s % s == x % s
  {
    var q: int, r: int := x / s, x % s;
    var qq: int, qr: int := q / p, q % p;
    assert x == q * s + r && q == qq * p + qr;
    DigitPair(qr, r, p, s);
    assert x == qq * (p * s) + (qr * s + r);
    DivModUnique(x, p * s, qq, qr * s + r);
    DivModUnique(qr, p, 0, qr);
    DivModUnique(r, s, 0, r);
  }

  /** Encoded values are ordered as their pairs, preemption first. */
  lemma EncodedOrder(group: u32, p1: u32, s1: u32, p2: u32, s2: u32, bits: prioBits)
    requires p1 < Pow2(PreemptBits(group, bits)) && p2 < Pow2(PreemptBits(group, bits))
    requires s1 < Pow2(SubBits(group, bits)) && s2 < Pow2(SubBits(group, bits))
    ensures Encode(group, p1, s1, bits) < Encode(group, p2, s2, bits) <==> p1 < p2 || (p1 == p2 && s1 < s2)
  {
    hide *;
    var p, s := Pow2(PreemptBits(group, bits)), Pow2(SubBits(group, bits));
    EncodeIs(group, p1, s1, bits);
    EncodeIs(group, p2, s2, bits);
    DivModUnique(p1, p, 0, p1);
    DivModUnique(p2, p, 0, p2);
    DivModUnique(s1, s, 0, s1);
    DivModUnique(s2, s, 0, s2);
    if p1 < p2 {
      DigitOrder(p1, s1, p2, s2, s);
    } else if p2 < p1 {
      DigitOrder(p2, s2, p1, s1, s);
    }
  }

  lemma DigitOrder(a: nat, b: nat, c: nat, d: nat, s: nat)
    requires a < c && b < s
    ensures a * s + b < c * s + d
  {
    MulMono(a + 1, c, s);
    assert (a + 1) * s == a * s + s;
  }

  lemma PairOfField(group: u32, preempt: u32, sub: u32, bits: prioBits)
    ensures Encode(group, preempt, sub, bits) < 0x100
    ensures Level(Field(Encode(group, preempt, sub, bits), bits), bits) < 0x100
    ensures Decode(Level(Field(Encode(group, preempt, sub, bits), bits), bits), group, bits) ==
            (preempt % Pow2(PreemptBits(group, bits)), sub % Pow2(SubBits(group, bits)))
  {
    hide *;
    EncodeIs(group, preempt, sub, bits);
    DecodeOfEncode(group, preempt, sub, bits);
    var e := Encode(group, preempt, sub, bits);
    LevelOfField(e, bits);
    DivModUnique(e, Pow2(bits), 0, e);
  }

  /** A pair put through Encode, SetPriority, GetPriority and Decode comes back, reduced to its widths. */
  method PairThroughBytes(nvic: ByteNvic, irqn: i32, group: u32, preempt: u32, sub: u32) returns (p: nat, s: nat)
    requires nvic.Valid() && -12 <= irqn < 496
    modifies nvic.IPR, nvic.SHPR
    ensures p == preempt % Pow2(PreemptBits(group, nvic.bits)) && s == sub % Pow2(SubBits(group, nvic.bits))
    ensures forall other :: 0 <= other < 508 && other != irqn + 12 ==> nvic.Fields()[other] == old(nvic.Fields())[other]
  {
    hide Encode, Decode, Field, Level, PreemptBits, SubBits, Pow2;
    PairOfField(group, preempt, sub, nvic.bits);
    nvic.SetPriority(irqn, Encode(group, preempt, sub, nvic.bits));
    var level := nvic.GetPriority(irqn);
    var pair := Decode(level, group, nvic.bits);
    p, s := pair.0, pair.1;
  }

  /** So it does in the word layout. */
  method PairThroughWords(nvic: WordNvic, irqn: i32, group: u32, preempt: u32, sub: u32) returns (p: nat, s: nat)
    requires nvic.Valid() && -8 <= irqn < 496
    modifies nvic.IPR, nvic.SHPR
    ensures p == preempt % Pow2(PreemptBits(group, nvic.bits)) && s == sub % Pow2(SubBits(group, nvic.bits))
    ensures forall other :: 0 <= other < 504 && other != irqn + 8 ==> nvic.Fields()[other] == old(nvic.Fields())[other]
  {
    hide Encode, Decode, Field, Level, PreemptBits, SubBits, Pow2, BytesOf;
    PairOfField(group, preempt, sub, nvic.bits);
    nvic.SetPriority(irqn, Encode(group, preempt, sub, nvic.bits));
    var level := nvic.GetPriority(irqn);
    var pair := Decode(level, group, nvic.bits);
    p, s := pair.0, pair.1;
  }
}
