/** The CRC driver over a register model of the engine. */
module CrcDriver {
  import opened Words
  import opened Bits
  import opened Octets

  // ---- The engine ----

  /** What the silicon computes is a parameter: how one byte changes the running sum under the input half
      of MODE (polynomial, bit reversal and complement of written data), and how the SUM register shows
      the running sum under the output half. */
  datatype Hardware = Hardware(feed: (nat, u32, u8) -> u32, present: (nat, bool, bool, u32) -> u32)

  /** With reversal and complement of the sum switched off, SUM shows the running sum itself. */
  ghost predicate ShowsRaw(hw: Hardware) {
    forall poly: nat, raw: u32 :: hw.present(poly, false, false, raw) == raw
  }

  datatype Engine = Engine(mode: u32, raw: u32)

  // Field masks of the MODE register: CRC_POLY, BIT_RVS_WR, CMPL_WR, BIT_RVS_SUM, CMPL_SUM
  const POLY: nat := 0x3
  const RVS_WR: nat := 0x4
  const CMPL_WR: nat := 0x8
  const RVS_SUM: nat := 0x10
  const CMPL_SUM: nat := 0x20

  function FeedByte(hw: Hardware, e: Engine, b: u8): Engine {
    e.(raw := hw.feed(And(e.mode, 0xF), e.raw, b))
  }

  function Sum(hw: Hardware, e: Engine): u32 {
    hw.present(And(e.mode, POLY), And(e.mode, RVS_SUM) != 0, And(e.mode, CMPL_SUM) != 0, e.raw)
  }

  /** A byte changes the running sum as the input half of MODE says, and nothing else. */
  lemma FeedByteIs(hw: Hardware, e: Engine, b: u8)
    ensures FeedByte(hw, e, b) == Engine(e.mode, hw.feed(e.mode % 16, e.raw, b))
  {
    hide And;
    FieldsOf(e.mode);
  }

  /** Bytes written one at a time. */
  function FeedAll(hw: Hardware, e: Engine, bytes: seq<u8>): Engine
    decreases |bytes|
  {
    if bytes == [] then e else FeedByte(hw, FeedAll(hw, e, bytes[..|bytes| - 1]), bytes[|bytes| - 1])
  }

  lemma {:induction false} FeedConcat(hw: Hardware, e: Engine, a: seq<u8>, b: seq<u8>)
    ensures FeedAll(hw, e, a + b) == FeedAll(hw, FeedAll(hw, e, a), b)
    decreases |b|
  {
    hide FeedByte;
    if b == [] {
      assert a + b == a;
    } else {
      var front := b[..|b| - 1];
      FeedConcat(hw, e, a, front);
      assert (a + b)[..|a + b| - 1] == a + front;
    }
  }

  lemma {:induction false} FeedKeepsMode(hw: Hardware, e: Engine, bytes: seq<u8>)
    ensures FeedAll(hw, e, bytes).mode == e.mode
    decreases |bytes|
  {
    if bytes != [] {
      FeedKeepsMode(hw, e, bytes[..|bytes| - 1]);
    }
  }

  // ---- The driver's configuration ----

  /** The polynomial field is two bits wide; the driver's enumeration uses 0, 1 and 2. */
  type polynomial = x: int | 0 <= x < 4

  datatype Config = Config(polynomial: polynomial, reverseIn: bool, complementIn: bool,
                           reverseOut: bool, complementOut: bool, seed: u32)

  function Flag(b: bool): nat { if b then 1 else 0 }

  // CRC_MODE_X(v): ((uint32_t) v << SHIFT) & MASK
  function ModeOf(c: Config): nat {
    Or(Or(Or(Or(Or(0, And(c.polynomial, POLY)),
                And(Flag(c.reverseIn) * 4, RVS_WR)),
             And(Flag(c.complementIn) * 8, CMPL_WR)),
          And(Flag(c.reverseOut) * 0x10, RVS_SUM)),
       And(Flag(c.complementOut) * 0x20, CMPL_SUM))
  }

  function Inited(c: Config): Engine {
    ModeIsSum(c);
    Engine(ModeOf(c), c.seed)
  }

  /** mode & ~((1U << RVS_SUM_SHIFT) | (1U << CMPL_SUM_SHIFT)) */
  function WithoutSumBits(mode: u32): nat { And(mode, 0xFFFF_FFCF) }

  function ConfigOf(hw: Hardware, e: Engine): Config {
    SumBitsCleared(e.mode);
    PolyField(e.mode);
    Config(And(e.mode, POLY), And(e.mode, RVS_WR) != 0, And(e.mode, CMPL_WR) != 0,
           And(e.mode, RVS_SUM) != 0, And(e.mode, CMPL_SUM) != 0,
           Sum(hw, Engine(WithoutSumBits(e.mode), e.raw)))
  }

  // ---- Field arithmetic ----

  lemma FlagField(b: bool, k: nat)
    ensures And(Flag(b) * Pow2(k), Pow2(k)) == Flag(b) * Pow2(k)
  {
    AndSplit(Flag(b) * Pow2(k), Pow2(k), Flag(b), 0, 1, 0, k);
  }

  lemma BitField(mode: nat, hi: nat, lo: nat, k: nat)
    requires Parts(mode, hi, lo, k)
    ensures And(mode, Pow2(k)) == hi % 2 * Pow2(k)
  {
    AndSplit(mode, Pow2(k), hi, lo, 1, 0, k);
    AndOne(hi);
    assert And(lo, 0) == 0;
  }

  lemma AndOne(x: nat)
    ensures And(x, 1) == x % 2
  {
    hide And;
    AndLowMask(x, 1);
  }

  lemma SmallPow2()
    ensures Pow2(1) == 2 && Pow2(2) == 4 && Pow2(3) == 8 && Pow2(4) == 16 && Pow2(5) == 32 && Pow2(6) == 64
    ensures Pow2(32) == 0x1_0000_0000
  {
    Pow2Values();
  }

  /** The five fields do not overlap: MODE is their sum. */
  lemma ModeIsSum(c: Config)
    ensures ModeOf(c) == c.polynomial + 4 * Flag(c.reverseIn) + 8 * Flag(c.complementIn)
                         + 0x10 * Flag(c.reverseOut) + 0x20 * Flag(c.complementOut) < 64
  {
    hide And, Or, Pow2;
    SmallPow2();
    var p: nat, a, b, r, t := c.polynomial, Flag(c.reverseIn), Flag(c.complementIn), Flag(c.reverseOut), Flag(c.complementOut);
    AndLowMask(p, 2);
    FlagField(c.reverseIn, 2);
    FlagField(c.complementIn, 3);
    FlagField(c.reverseOut, 4);
    FlagField(c.complementOut, 5);
    OrZero(p);
    OrDisjoint(a, p, 2);
    OrDisjoint(b, p + 4 * a, 3);
    OrDisjoint(r, p + 4 * a + 8 * b, 4);
    OrDisjoint(t, p + 4 * a + 8 * b + 0x10 * r, 5);
  }

  lemma PolyField(mode: nat)
    ensures And(mode, POLY) == mode % 4
  {
    hide And, Pow2;
    SmallPow2();
    AndLowMask(mode, 2);
  }

  lemma FieldsOf(mode: nat)
    ensures And(mode, RVS_WR) == mode / 4 % 2 * 4 && And(mode, CMPL_WR) == mode / 8 % 2 * 8
    ensures And(mode, RVS_SUM) == mode / 16 % 2 * 16 && And(mode, CMPL_SUM) == mode / 32 % 2 * 32
    ensures And(mode, 0xF) == mode % 16
  {
    hide And, Pow2;
    SmallPow2();
    BitField(mode, mode / 4, mode % 4, 2);
    BitField(mode, mode / 8, mode % 8, 3);
    BitField(mode, mode / 16, mode % 16, 4);
    BitField(mode, mode / 32, mode % 32, 5);
    AndLowMask(mode, 4);
  }

  /** Clearing the two sum bits leaves the rest of MODE. */
  lemma SumBitsCleared(mode: u32)
    ensures WithoutSumBits(mode) == mode - mode / 16 % 4 * 16 < 0x1_0000_0000
  {
    hide And, Pow2;
    SmallPow2();
    var hi: nat, low: nat := mode / 64, mode % 64;
    AndSplit(mode, 0xFFFF_FFCF, hi, low, 0x3FF_FFFF, 0xF, 6);
    assert Pow2(26) == 0x400_0000 by { Pow2Add(24, 2); Pow2Values(); }
    AndOnes(hi, 26);
    AndLowMask(low, 4);
    ClearedDigits(mode, hi, low);
  }

  lemma ClearedDigits(mode: int, hi: int, low: int)
    requires hi == mode / 64 && low == mode % 64
    ensures hi * 64 + low % 16 == mode - mode / 16 % 4 * 16
    ensures (mode - mode / 16 % 4 * 16) / 16 % 2 == 0 && (mode - mode / 16 % 4 * 16) / 32 % 2 == 0
  {
    var mid: int, end: int := low / 16, low % 16;
    assert mode == (4 * hi + mid) * 16 + end;
    DivModUnique(mode, 16, 4 * hi + mid, end);
    DivModUnique(4 * hi + mid, 4, hi, mid);
    ZeroDigits(hi, end);
  }

  lemma ZeroDigits(hi: int, low: int)
    requires 0 <= low < 16
    ensures (hi * 64 + low) / 16 % 2 == 0 && (hi * 64 + low) / 32 % 2 == 0
  {
    DivModUnique(hi * 64 + low, 16, 4 * hi, low);
    DivModUnique(hi * 64 + low, 32, 2 * hi, low);
  }

  lemma ClearedPoly(mode: int)
    ensures (mode - mode / 16 % 4 * 16) % 4 == mode % 4
  {
    ModShift(mode, -(4 * (mode / 16 % 4)), 4);
  }

  /** Reading the configuration back from a freshly initialised MODE gives the same five settings. */
  lemma ConfigRoundTrip(hw: Hardware, c: Config, raw: u32)
    requires ShowsRaw(hw)
    ensures ConfigOf(hw, Engine(Inited(c).mode, raw)) == c.(seed := raw)
  {
    hide And, Or, ModeOf, Sum, WithoutSumBits;
    ModeIsSum(c);
    var mode := Inited(c).mode;
    PolyField(mode);
    FieldsOf(mode);
    ModeDigits(c.polynomial, Flag(c.reverseIn), Flag(c.complementIn), Flag(c.reverseOut), Flag(c.complementOut));
    RawSum(hw, Engine(mode, raw));
  }

  lemma ModeDigits(p: int, a: int, b: int, r: int, t: int)
    requires 0 <= p < 4 && 0 <= a <= 1 && 0 <= b <= 1 && 0 <= r <= 1 && 0 <= t <= 1
    ensures var mode := p + 4 * a + 8 * b + 0x10 * r + 0x20 * t;
            && mode % 4 == p && mode / 4 % 2 == a && mode / 8 % 2 == b && mode / 16 % 2 == r && mode / 32 % 2 == t
  {
    var mode := p + 4 * a + 8 * b + 0x10 * r + 0x20 * t;
    DivModUnique(mode, 4, a + 2 * b + 4 * r + 8 * t, p);
    DivModUnique(mode, 8, b + 2 * r + 4 * t, p + 4 * a);
    DivModUnique(mode, 16, r + 2 * t, p + 4 * a + 8 * b);
    DivModUnique(mode, 32, t, p + 4 * a + 8 * b + 16 * r);
    DivModUnique(a + 2 * b + 4 * r + 8 * t, 2, b + 2 * r + 4 * t, a);
    DivModUnique(b + 2 * r + 4 * t, 2, r + 2 * t, b);
    DivModUnique(r + 2 * t, 2, t, r);
    DivModUnique(t, 2, 0, t);
  }

  /** The seed obtained with the sum bits cleared is the running sum. */
  lemma RawSum(hw: Hardware, e: Engine)
    requires ShowsRaw(hw)
    ensures ConfigOf(hw, e).seed == e.raw
  {
    hide And;
    SumBitsCleared(e.mode);
    FieldsOf(WithoutSumBits(e.mode));
    ClearedDigits(e.mode, e.mode / 64, e.mode % 64);
    hide WithoutSumBits;
  }

  lemma ModeIgnoresSeed(c: Config, seed: u32)
    ensures ModeOf(c.(seed := seed)) == ModeOf(c)
  {
    hide And, Or;
  }

  /** Main result. A computation checkpointed with GetConfig and resumed after any other use of the
      engine gives the sum of the uninterrupted one, for every configuration and every split of the data. */
  lemma CheckpointResume(hw: Hardware, c: Config, a: seq<u8>, b: seq<u8>)
    requires ShowsRaw(hw)
    ensures var checkpoint := ConfigOf(hw, FeedAll(hw, Inited(c), a));
            FeedAll(hw, Inited(checkpoint), b) == FeedAll(hw, Inited(c), a + b)
  {
    hide FeedAll, ModeOf;
    var e := FeedAll(hw, Inited(c), a);
    FeedKeepsMode(hw, Inited(c), a);
    ConfigRoundTrip(hw, c, e.raw);
    FeedConcat(hw, Inited(c), a, b);
    ModeIgnoresSeed(c, e.raw);
  }

  // ---- The driver ----

  /** An access to the data register: one byte, or one word read from memory at the given address. */
  datatype Access = Byte(b: u8) | Word(w: u32, address: int)

  /** The bytes the engine sees: a word arrives least significant byte first. */
  function BytesOf(a: Access): seq<u8> {
    match a
    case Byte(b) => [b]
    case Word(w, _) => [ByteAt(w, 0), ByteAt(w, 1), ByteAt(w, 2), ByteAt(w, 3)]
  }

  lemma LoadBytes(b0: u8, b1: u8, b2: u8, b3: u8, address: int)
    ensures BytesOf(Word(WordOf(b0, b1, b2, b3), address)) == [b0, b1, b2, b3]
  {
    BytesOfDigits(b0, b1, b2, b3);
    hide WordOf, ByteAt;
  }

  /** The register block of the peripheral, with the running sum behind SUM. */
  class CrcType {
    const hw: Hardware
    var MODE: u32
    var raw: u32
    ghost var wire: seq<Access>

    ghost function View(): Engine
      reads this
    {
      Engine(MODE, raw)
    }

    constructor (hw: Hardware)
      ensures this.hw == hw && wire == []
    {
      this.hw, wire := hw, [];
      MODE, raw := 0, 0;
    }

    method WriteSeed(v: u32)
      modifies `raw
      ensures raw == v
    {
      raw := v;
    }

    method ReadSum() returns (v: u32)
      ensures v == Sum(hw, View())
      ensures v == hw.present(MODE % 4, MODE / 16 % 2 == 1, MODE / 32 % 2 == 1, raw)
    {
      hide And;
      PolyField(MODE);
      FieldsOf(MODE);
      v := hw.present(And(MODE, POLY), And(MODE, RVS_SUM) != 0, And(MODE, CMPL_SUM) != 0, raw);
    }

    method WriteData8(b: u8)
      modifies `raw, `wire
      ensures View() == FeedAll(hw, old(View()), [b]) && wire == old(wire) + [Byte(b)]
    {
      ghost var before := View();
      raw := hw.feed(And(MODE, 0xF), raw, b);
      wire := wire + [Byte(b)];
      FeedOne(hw, before, b);
    }

    /** A word written to the data register is four byte writes, least significant byte first. */
    method WriteData32(w: u32, ghost address: int)
      modifies `raw, `wire
      ensures View() == FeedAll(hw, old(View()), BytesOf(Word(w, address))) && wire == old(wire) + [Word(w, address)]
    {
      hide And;
      ghost var e0 := View();
      raw := hw.feed(And(MODE, 0xF), raw, ByteAt(w, 0));
      ghost var e1 := View();
      raw := hw.feed(And(MODE, 0xF), raw, ByteAt(w, 1));
      ghost var e2 := View();
      raw := hw.feed(And(MODE, 0xF), raw, ByteAt(w, 2));
      ghost var e3 := View();
      raw := hw.feed(And(MODE, 0xF), raw, ByteAt(w, 3));
      wire := wire + [Word(w, address)];
      FeedFour(hw, e0, ByteAt(w, 0), ByteAt(w, 1), ByteAt(w, 2), ByteAt(w, 3));
    }
  }

  lemma FeedOne(hw: Hardware, e: Engine, b: u8)
    ensures FeedAll(hw, e, [b]) == FeedByte(hw, e, b)
  {
    hide FeedByte;
    assert [b][..0] == [];
  }

  lemma FeedFour(hw: Hardware, e: Engine, b0: u8, b1: u8, b2: u8, b3: u8)
    ensures FeedAll(hw, e, [b0, b1, b2, b3]) ==
            FeedByte(hw, FeedByte(hw, FeedByte(hw, FeedByte(hw, e, b0), b1), b2), b3)
  {
    hide FeedByte, FeedAll;
    assert [b0, b1, b2, b3] == [b0, b1] + [b2, b3] && [b0, b1] == [b0] + [b1] && [b2, b3] == [b2] + [b3];
    var half := FeedAll(hw, e, [b0, b1]);
    FeedConcat(hw, e, [b0, b1], [b2, b3]);
    FeedConcat(hw, e, [b0], [b1]);
    FeedConcat(hw, half, [b2], [b3]);
    FeedOne(hw, e, b0);
    FeedOne(hw, FeedByte(hw, e, b0), b1);
    FeedOne(hw, half, b2);
    FeedOne(hw, FeedByte(hw, half, b2), b3);
  }

  method Init(base: CrcType, config: Config)
    modifies base`MODE, base`raw
    ensures base.View() == Inited(config)
    ensures base.MODE == config.polynomial + (if config.reverseIn then 4 else 0) + (if config.complementIn then 8 else 0)
                         + (if config.reverseOut then 0x10 else 0) + (if config.complementOut then 0x20 else 0)
    ensures base.raw == config.seed
  {
    ModeIsSum(config);
    base.MODE := ModeOf(config);
    base.WriteSeed(config.seed);
  }

  const DEFAULT := Config(0, false, false, false, false, 0xFFFF)

  method Reset(base: CrcType)
    modifies base`MODE, base`raw
    ensures base.View() == Inited(DEFAULT)
    ensures base.MODE == 0 && base.raw == 0xFFFF
  {
    Init(base, DEFAULT);
  }

  /** Reads the running configuration; MODE is changed on the way and restored, the running sum untouched. */
  method GetConfig(base: CrcType) returns (config: Config)
    modifies base`MODE
    ensures config == ConfigOf(base.hw, old(base.View()))
    ensures base.View() == old(base.View())
    ensures config.polynomial == base.MODE % 4
    ensures config.reverseIn == (base.MODE / 4 % 2 == 1) && config.complementIn == (base.MODE / 8 % 2 == 1)
    ensures config.reverseOut == (base.MODE / 16 % 2 == 1) && config.complementOut == (base.MODE / 32 % 2 == 1)
    ensures config.seed == base.hw.present(base.MODE % 4, false, false, base.raw)
    ensures ShowsRaw(base.hw) ==> config.seed == base.raw
  {
    hide And, WithoutSumBits;
    var mode := base.MODE;
    PolyField(mode);
    FieldsOf(mode);
    SumBitsCleared(mode);
    ClearedDigits(mode, mode / 64, mode % 64);
    ClearedPoly(mode);
    assert WithoutSumBits(mode) == And(mode, 0xFFFF_FFCF) by { WithoutSumBitsIs(mode); }
    base.MODE := And(mode, 0xFFFF_FFCF);
    var seed := base.ReadSum();
    base.MODE := mode;
    config := Config(And(mode, POLY), And(mode, RVS_WR) != 0, And(mode, CMPL_WR) != 0,
                     And(mode, RVS_SUM) != 0, And(mode, CMPL_SUM) != 0, seed);
    if ShowsRaw(base.hw) {
      RawSum(base.hw, base.View());
    }
  }

  lemma WithoutSumBitsIs(mode: u32)
    ensures WithoutSumBits(mode) == And(mode, 0xFFFF_FFCF)
  {}

  function Payload(wire: seq<Access>): seq<u8>
    decreases |wire|
  {
    if wire == [] then [] else Payload(wire[..|wire| - 1]) + BytesOf(wire[|wire| - 1])
  }

  lemma PayloadSnoc(wire: seq<Access>, a: Access)
    ensures Payload(wire + [a]) == Payload(wire) + BytesOf(a)
  {
    hide BytesOf;
    assert (wire + [a])[..|wire|] == wire;
  }

  // The schedule of a block transfer: single bytes up to a word boundary, aligned words, single bytes at the end.

  function LeadBytes(address: nat, dataSize: nat): nat {
    var distance := (4 - address % 4) % 4;
    if dataSize < distance then dataSize else distance
  }

  function WholeWords(address: nat, dataSize: nat): nat { (dataSize - LeadBytes(address, dataSize)) / 4 }

  /** What access k of a transfer to the given address is. */
  predicate Planned(a: Access, k: nat, address: nat, dataSize: nat) {
    var lead := LeadBytes(address, dataSize);
    if lead <= k < lead + WholeWords(address, dataSize) then a.Word? && a.address == address + lead + 4 * (k - lead)
    else a.Byte?
  }

  ghost predicate AllPlanned(accesses: seq<Access>, address: nat, dataSize: nat) {
    forall k :: 0 <= k < |accesses| ==> Planned(accesses[k], k, address, dataSize)
  }

  ghost predicate Scheduled(accesses: seq<Access>, address: nat, dataSize: nat) {
    && |accesses| == dataSize - 3 * WholeWords(address, dataSize)
    && AllPlanned(accesses, address, dataSize)
  }

  lemma OneMorePlanned(accesses: seq<Access>, a: Access, address: nat, dataSize: nat)
    requires AllPlanned(accesses, address, dataSize) && Planned(a, |accesses|, address, dataSize)
    ensures AllPlanned(accesses + [a], address, dataSize)
  {
    hide Planned;
  }

  /** The first loop runs for exactly the leading bytes and stops at a word boundary or at the end. */
  lemma LeadLoop(address: nat, dataSize: nat, n: nat)
    requires n <= LeadBytes(address, dataSize)
    ensures n < LeadBytes(address, dataSize) <==> dataSize - n != 0 && (address + n) % 4 != 0
    ensures LeadBytes(address, dataSize) <= dataSize && LeadBytes(address, dataSize) < 4
    ensures LeadBytes(address, dataSize) == dataSize || (address + LeadBytes(address, dataSize)) % 4 == 0
  {}

  /** The second one for exactly the words. */
  lemma WordLoop(address: nat, dataSize: nat, n: nat)
    requires LeadBytes(address, dataSize) <= dataSize && n <= WholeWords(address, dataSize)
    ensures n < WholeWords(address, dataSize) <==> dataSize - LeadBytes(address, dataSize) - 4 * n >= 4
  {
    hide LeadBytes;
  }

  lemma PlannedLead(b: u8, k: nat, address: nat, dataSize: nat)
    requires k < LeadBytes(address, dataSize)
    ensures Planned(Byte(b), k, address, dataSize)
  {}

  lemma PlannedWord(w: u32, n: nat, address: nat, dataSize: nat)
    requires n < WholeWords(address, dataSize)
    ensures var lead := LeadBytes(address, dataSize);
            Planned(Word(w, address + lead + 4 * n), lead + n, address, dataSize)
  {}

  lemma PlannedTail(b: u8, k: nat, address: nat, dataSize: nat)
    requires k >= LeadBytes(address, dataSize) + WholeWords(address, dataSize)
    ensures Planned(Byte(b), k, address, dataSize)
  {}

  /** The state of a transfer: the first n bytes of the block are out, by these accesses. */
  ghost predicate Sent(hw: Hardware, e0: Engine, e: Engine, accesses: seq<Access>, block: seq<u8>, n: nat) {
    n <= |block| && e == FeedAll(hw, e0, block[..n]) && Payload(accesses) == block[..n]
  }

  lemma SentNothing(hw: Hardware, e0: Engine, block: seq<u8>)
    ensures Sent(hw, e0, e0, [], block, 0)
  {
    assert block[..0] == [];
  }

  lemma SentMore(hw: Hardware, e0: Engine, e: Engine, accesses: seq<Access>, block: seq<u8>, n: nat, a: Access)
    requires Sent(hw, e0, e, accesses, block, n)
    requires n + |BytesOf(a)| <= |block| && block[n..n + |BytesOf(a)|] == BytesOf(a)
    ensures Sent(hw, e0, FeedAll(hw, e, BytesOf(a)), accesses + [a], block, n + |BytesOf(a)|)
  {
    hide FeedAll, Payload, BytesOf;
    var bytes := BytesOf(a);
    assert block[..n + |bytes|] == block[..n] + bytes;
    FeedConcat(hw, e0, block[..n], bytes);
    PayloadSnoc(accesses, a);
  }

  lemma SentByte(hw: Hardware, e0: Engine, e: Engine, accesses: seq<Access>, block: seq<u8>, n: nat)
    requires Sent(hw, e0, e, accesses, block, n) && n < |block|
    ensures Sent(hw, e0, FeedAll(hw, e, [block[n]]), accesses + [Byte(block[n])], block, n + 1)
  {
    hide FeedAll, Payload, Sent;
    assert block[n..n + 1] == [block[n]];
    SentMore(hw, e0, e, accesses, block, n, Byte(block[n]));
  }

  lemma SentWord(hw: Hardware, e0: Engine, e: Engine, accesses: seq<Access>, block: seq<u8>, n: nat, a: Access)
    requires Sent(hw, e0, e, accesses, block, n) && n + 4 <= |block|
    requires a.Word? && a.w == WordOf(block[n], block[n + 1], block[n + 2], block[n + 3])
    ensures Sent(hw, e0, FeedAll(hw, e, BytesOf(a)), accesses + [a], block, n + 4)
  {
    hide *;
    LoadBytes(block[n], block[n + 1], block[n + 2], block[n + 3], a.address);
    assert block[n..n + 4] == [block[n], block[n + 1], block[n + 2], block[n + 3]];
    SentMore(hw, e0, e, accesses, block, n, a);
  }

  /** An 8-bit read from the buffer and write to the data register. */
  method StoreByte(base: CrcType, data: array<u8>, pos: nat, p: nat, ghost e0: Engine, ghost wire0: seq<Access>, ghost accesses: seq<Access>,
                   ghost block: seq<u8>, ghost address: nat)
      returns (ghost accesses': seq<Access>)
    requires pos <= p < pos + |block| <= data.Length && block == data[pos..pos + |block|]
    requires Underway(base.hw, e0, base.View(), wire0, base.wire, accesses, block, address, p - pos)
    requires var lead := LeadBytes(address, |block|);
             |accesses| < lead || |accesses| >= lead + WholeWords(address, |block|)
    modifies base`raw, base`wire
    ensures |accesses'| == |accesses| + 1
    ensures Underway(base.hw, e0, base.View(), wire0, base.wire, accesses', block, address, p + 1 - pos)
  {
    hide *;
    NextByte(base.hw, e0, base.View(), wire0, base.wire, accesses, block, address, p - pos);
    base.WriteData8(data[p]);
    accesses' := accesses + [Byte(data[p])];
  }

  /** A 32-bit read from an aligned address of the buffer and write to the data register. */
  method StoreWord(base: CrcType, data: array<u8>, pos: nat, p: nat, ghost at: nat, ghost m: nat, ghost e0: Engine, ghost wire0: seq<Access>,
                   ghost accesses: seq<Access>, ghost block: seq<u8>, ghost address: nat)
      returns (ghost accesses': seq<Access>)
    requires pos <= p && p + 4 <= pos + |block| <= data.Length && block == data[pos..pos + |block|]
    requires Underway(base.hw, e0, base.View(), wire0, base.wire, accesses, block, address, p - pos)
    requires var lead := LeadBytes(address, |block|);
             p == pos + lead + 4 * m && at == address + lead + 4 * m && |accesses| == lead + m && m < WholeWords(address, |block|)
    modifies base`raw, base`wire
    ensures |accesses'| == |accesses| + 1
    ensures Underway(base.hw, e0, base.View(), wire0, base.wire, accesses', block, address, p + 4 - pos)
  {
    hide *;
    var w := WordOf(data[p], data[p + 1], data[p + 2], data[p + 3]);
    NextWord(base.hw, e0, base.View(), wire0, base.wire, accesses, block, address, m, Word(w, at));
    base.WriteData32(w, at);
    accesses' := accesses + [Word(w, at)];
  }

  /** CRC_WriteData: data[pos..pos+dataSize] lies at the given address. Whatever the alignment, the engine
      sees exactly those bytes in order, as if written one at a time. The accesses are the bytes before the
      next word boundary, then every whole word at its aligned address, then the bytes that are left. */
  method WriteData(base: CrcType, data: array<u8>, pos: nat, address: nat, dataSize: nat)
      returns (ghost accesses: seq<Access>)
    requires pos + dataSize <= data.Length
    modifies base`raw, base`wire
    ensures base.View() == FeedAll(base.hw, old(base.View()), data[pos..pos + dataSize])
    ensures base.wire == old(base.wire) + accesses && Payload(accesses) == data[pos..pos + dataSize]
    ensures Scheduled(accesses, address, dataSize)
  {
    hide *;
    ghost var e0, wire0, block := base.View(), base.wire, data[pos..pos + dataSize];
    accesses := [];
    ghost var lead: nat, n: nat := LeadBytes(address, dataSize), 0;
    var p: nat, at: nat, size: nat := pos, address, dataSize;
    NotStarted(base.hw, e0, wire0, block, address);
    while size != 0 && at % 4 != 0
      invariant p + size == pos + dataSize
      invariant p == pos + |accesses| && at == address + |accesses| && |accesses| <= lead
      invariant Underway(base.hw, e0, base.View(), wire0, base.wire, accesses, block, address, p - pos)
    {
      LeadLoop(address, dataSize, |accesses|);
      accesses := StoreByte(base, data, pos, p, e0, wire0, accesses, block, address);
      p, at, size := p + 1, at + 1, size - 1;
    }
    LeadLoop(address, dataSize, |accesses|);
    while size >= 4
      invariant p + size == pos + dataSize
      invariant p == pos + lead + 4 * n && at == address + lead + 4 * n && |accesses| == lead + n
      invariant n <= WholeWords(address, dataSize)
      invariant Underway(base.hw, e0, base.View(), wire0, base.wire, accesses, block, address, p - pos)
    {
      WordLoop(address, dataSize, n);
      accesses := StoreWord(base, data, pos, p, at, n, e0, wire0, accesses, block, address);
      p, at, size := p + 4, at + 4, size - 4;
      n := n + 1;
    }
    WordLoop(address, dataSize, n);
    while size != 0
      invariant p + size == pos + dataSize
      invariant p == pos + |accesses| + 3 * n && |accesses| >= lead + n
      invariant Underway(base.hw, e0, base.View(), wire0, base.wire, accesses, block, address, p - pos)
    {
      accesses := StoreByte(base, data, pos, p, e0, wire0, accesses, block, address);
      p, size := p + 1, size - 1;
    }
    Delivered(base.hw, e0, base.View(), wire0, base.wire, accesses, block, address);
  }

  /** A transfer of which the first n bytes are out, by accesses that follow the plan. */
  ghost predicate Underway(hw: Hardware, e0: Engine, e: Engine, wire0: seq<Access>, wire: seq<Access>,
                           accesses: seq<Access>, block: seq<u8>, address: nat, n: nat) {
    Sent(hw, e0, e, accesses, block, n) && AllPlanned(accesses, address, |block|) && wire == wire0 + accesses
  }

  lemma NotStarted(hw: Hardware, e0: Engine, wire0: seq<Access>, block: seq<u8>, address: nat)
    ensures Underway(hw, e0, e0, wire0, wire0, [], block, address, 0)
  {
    SentNothing(hw, e0, block);
    NothingPlanned(address, |block|);
  }

  lemma NextByte(hw: Hardware, e0: Engine, e: Engine, wire0: seq<Access>, wire: seq<Access>,
                           accesses: seq<Access>, block: seq<u8>, address: nat, n: nat)
    requires Underway(hw, e0, e, wire0, wire, accesses, block, address, n) && n < |block|
    requires var lead := LeadBytes(address, |block|);
             |accesses| < lead || |accesses| >= lead + WholeWords(address, |block|)
    ensures Underway(hw, e0, FeedAll(hw, e, [block[n]]), wire0, wire + [Byte(block[n])], accesses + [Byte(block[n])], block, address, n + 1)
  {
    hide Sent, AllPlanned, Planned, FeedAll, LeadBytes, WholeWords;
    SentByte(hw, e0, e, accesses, block, n);
    if |accesses| < LeadBytes(address, |block|) {
      PlannedLead(block[n], |accesses|, address, |block|);
    } else {
      PlannedTail(block[n], |accesses|, address, |block|);
    }
    OneMorePlanned(accesses, Byte(block[n]), address, |block|);
  }

  lemma NextWord(hw: Hardware, e0: Engine, e: Engine, wire0: seq<Access>, wire: seq<Access>,
                           accesses: seq<Access>, block: seq<u8>, address: nat, m: nat, a: Access)
    requires var lead := LeadBytes(address, |block|);
             && lead + 4 * m + 4 <= |block| && Underway(hw, e0, e, wire0, wire, accesses, block, address, lead + 4 * m)
             && |accesses| == lead + m && m < WholeWords(address, |block|)
             && a.Word? && a.address == address + lead + 4 * m
             && a.w == WordOf(block[lead + 4 * m], block[lead + 4 * m + 1], block[lead + 4 * m + 2], block[lead + 4 * m + 3])
    ensures Underway(hw, e0, FeedAll(hw, e, BytesOf(a)), wire0, wire + [a], accesses + [a], block, address, LeadBytes(address, |block|) + 4 * m + 4)
  {
    hide Sent, AllPlanned, Planned, FeedAll, LeadBytes, WholeWords, BytesOf, WordOf;
    SentWord(hw, e0, e, accesses, block, LeadBytes(address, |block|) + 4 * m, a);
    PlannedWord(a.w, m, address, |block|);
    OneMorePlanned(accesses, a, address, |block|);
  }

  lemma Delivered(hw: Hardware, e0: Engine, e: Engine, wire0: seq<Access>, wire: seq<Access>,
                           accesses: seq<Access>, block: seq<u8>, address: nat)
    requires Underway(hw, e0, e, wire0, wire, accesses, block, address, |block|)
    requires |accesses| + 3 * WholeWords(address, |block|) == |block|
    ensures e == FeedAll(hw, e0, block) && Payload(accesses) == block && Scheduled(accesses, address, |block|) && wire == wire0 + accesses
  {
    hide Sent, AllPlanned, WholeWords;
    SentAll(hw, e0, e, accesses, block);
  }

  lemma NothingPlanned(address: nat, dataSize: nat)
    ensures AllPlanned([], address, dataSize)
  {}

  /** The schedule in numbers. */
  lemma ScheduleIs(accesses: seq<Access>, address: nat, dataSize: nat)
    requires Scheduled(accesses, address, dataSize)
    ensures var distance := (4 - address % 4) % 4;
            var lead := if dataSize < distance then dataSize else distance;
            var words := (dataSize - lead) / 4;
            && |accesses| == lead + words + (dataSize - lead) % 4
            && forall k :: 0 <= k < |accesses| ==>
                 if lead <= k < lead + words then accesses[k].Word? && accesses[k].address == address + lead + 4 * (k - lead)
                 else accesses[k].Byte?
  {}

  lemma SentAll(hw: Hardware, e0: Engine, e: Engine, accesses: seq<Access>, block: seq<u8>)
    requires Sent(hw, e0, e, accesses, block, |block|)
    ensures e == FeedAll(hw, e0, block) && Payload(accesses) == block
  {
    assert block[..|block|] == block;
  }
}
