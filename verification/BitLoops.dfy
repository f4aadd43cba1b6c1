/** The portable bit loops: leading-zero count and bit reversal. */
module BitLoops {
  import opened Words
  import opened Bits

  lemma {:induction false} Pow2OneBit(x: nat, k: nat)
    requires x < 2 * Pow2(k)
    ensures And(x, Pow2(k)) == 0 <==> x < Pow2(k)
  {
    if x < Pow2(k) {
      AndSplit(x, Pow2(k), 0, x, 1, 0, k);
    } else {
      AndSplit(x, Pow2(k), 1, x - Pow2(k), 1, 0, k);
    }
  }

  /** __CLZ: shifts a one-bit mask down until it meets the leading one. */
  method Clz(data: u32) returns (count: u32)
    ensures data == 0 ==> count == 32
    ensures data != 0 ==> count <= 31 && 0x8000_0000 <= data * Pow2(count) < 0x1_0000_0000
  {
    if data == 0 {
      return 32;
    }
    count := 0;
    var mask: u32 := 0x8000_0000;
    Pow2Values();
    while And(data, mask) == 0
      invariant count <= 31 && mask == Pow2(31 - count)
      invariant data < 2 * mask
      decreases mask
    {
      Pow2OneBit(data, 31 - count);
      count := count + 1;
      mask := mask / 2;
    }
    Pow2OneBit(data, 31 - count);
    Normalised(data, count);
  }

  lemma Normalised(data: nat, count: nat)
    requires count <= 31 && Pow2(31 - count) <= data < 2 * Pow2(31 - count)
    ensures 0x8000_0000 <= data * Pow2(count) < 0x1_0000_0000
  {
    Pow2Add(31 - count, count);
    Pow2Values();
    ScaledRange(data, Pow2(31 - count), Pow2(count), 0x8000_0000);
  }

  lemma ScaledRange(data: int, m: int, p: int, product: int)
    requires m <= data < 2 * m && 0 < p && m * p == product
    ensures product <= data * p < 2 * product
  {
    MulMono(m, data, p);
    MulMono(data, 2 * m - 1, p);
    assert (2 * m - 1) * p == 2 * (m * p) - p;
  }

  // ---- Reversal ----

  /** The low n bits of v, first bit highest. */
  function Reversed(v: nat, n: nat): nat
    decreases n
  {
    if n == 0 then 0 else 2 * Reversed(v, n - 1) + Bit(v, n - 1)
  }

  lemma {:induction false} ReversedBound(v: nat, n: nat)
    ensures Reversed(v, n) < Pow2(n)
    decreases n
  {
    if n != 0 {
      ReversedBound(v, n - 1);
    }
  }

  /** Bit k of the reversal is bit n-1-k of the word. */
  lemma {:induction false} ReversedBit(v: nat, n: nat, k: nat)
    requires k < n
    ensures Bit(Reversed(v, n), k) == Bit(v, n - 1 - k)
    decreases n
  {
    var r := Reversed(v, n - 1);
    assert (2 * r + Bit(v, n - 1)) / 2 == r && (2 * r + Bit(v, n - 1)) % 2 == Bit(v, n - 1);
    if k != 0 {
      ReversedBit(v, n - 1, k - 1);
    }
  }

  /** Reversing 32 bits is its own inverse. */
  lemma ReversalInvolution(v: u32)
    ensures Reversed(Reversed(v, 32), 32) == v
  {
    ReversedBound(v, 32);
    ReversedBound(Reversed(v, 32), 32);
    Pow2Values();
    forall k | 0 <= k < 32
      ensures Bit(Reversed(Reversed(v, 32), 32), k) == Bit(v, k)
    {
      ReversedBit(Reversed(v, 32), 32, k);
      ReversedBit(v, 32, 31 - k);
    }
    BitsDetermine(Reversed(Reversed(v, 32), 32), v, 32);
  }

  lemma {:induction false} BitsAbove(v: nat, k: nat, n: nat)
    requires v < Pow2(k) && k <= n
    ensures Bit(v, n) == 0
    decreases n
  {
    if n != 0 {
      BitsAbove(v / 2, if k == 0 then 0 else k - 1, n - 1);
    }
  }

  /** The bits above the highest one only shift the reversal. */
  lemma {:induction false} ReversedTail(v: nat, j: nat, n: nat)
    requires v < Pow2(j) && j <= n
    ensures Reversed(v, n) == Reversed(v, j) * Pow2(n - j)
    decreases n
  {
    if j < n {
      ReversedTail(v, j, n - 1);
      BitsAbove(v, j, n - 1);
      Doubled(Reversed(v, j), n - j);
    }
  }

  lemma NextParts(v: nat, hi: nat, lo: nat, j: nat) returns (lo': nat)
    requires Parts(v, hi, lo, j)
    ensures Parts(v, hi / 2, lo', j + 1)
  {
    lo' := lo + hi % 2 * Pow2(j);
    assert hi / 2 * Pow2(j + 1) == hi / 2 * 2 * Pow2(j);
    assert hi * Pow2(j) == hi / 2 * 2 * Pow2(j) + hi % 2 * Pow2(j);
  }

  /** The accumulated word: the reversal of the bits seen so far in its low part, and above them
      bits that later shifts push out. */
  ghost predicate Holds(result: int, v: nat, j: nat, junk: int) {
    result == Reversed(v, j) + junk * Pow2(j)
  }

  ghost predicate Reversing(result: int, v: u32, value: nat, j: nat, low: nat, junk: int) {
    Parts(v, value, low, j) && Holds(result, v, j, junk)
  }

  /** __RBIT: stops as soon as the remaining value is zero and makes up for it with one shift. */
  method Rbit(v: u32) returns (result: u32)
    ensures result == Reversed(v, 32)
  {
    hide *;
    var s: int := 31;
    var value: u32 := v;
    result := value;
    value := value / 2;
    ghost var j: nat, low: nat, junk: int := 1, v % 2, v / 2;
    StartReversal(v);
    while value != 0
      invariant 1 <= j <= 32 && s == 32 - j
      invariant Reversing(result, v, value, j, low, junk)
    {
      low, junk := ReversalStep(result, v, value, j, low, junk);
      result := Shl(result, 1);
      result := Or(result, And(value, 1));
      s := s - 1;
      value := value / 2;
      j := j + 1;
    }
    FinalShift(result, v, low, j, junk);
    result := Shl(result, s);
  }

  lemma ReversalStep(result: u32, v: u32, value: nat, j: nat, low: nat, junk: int) returns (low': nat, junk': int)
    requires value != 0 && Reversing(result, v, value, j, low, junk)
    ensures j < 32 && Or(Shl(result, 1), And(value, 1)) < 0x1_0000_0000
    ensures Reversing(Or(Shl(result, 1), And(value, 1)), v, value / 2, j + 1, low', junk')
  {
    BitOfHigh(v, value, low, j);
    BelowWidth(v, value, low, j);
    junk' := PushBit(result, v, j, junk, value % 2);
    AppendBit(result, value);
    low' := NextParts(v, value, low, j);
    hide Parts, Holds, Shl, Or, And, Pow2;
  }

  lemma StartReversal(v: u32)
    ensures Reversing(v, v, v / 2, 1, v % 2, v / 2)
  {
    assert Reversed(v, 1) == 2 * Reversed(v, 0) + Bit(v, 0);
  }

  lemma BelowWidth(v: u32, value: nat, low: nat, j: nat)
    requires value != 0 && Parts(v, value, low, j)
    ensures j < 32
  {
    MulMono(1, value, Pow2(j));
    Pow2Values();
    if j >= 32 {
      Pow2Mono(32, j);
    }
  }

  lemma AppendBit(result: nat, value: nat)
    ensures Or(Shl(result, 1), And(value, 1)) == Shl(result, 1) + value % 2 < 0x1_0000_0000
  {
    hide Or, And, Pow2;
    var half := EvenShift(result);
    assert Pow2(1) == 2 by { PowerOne(); }
    AndLowMask(value, 1);
    OrDisjoint(half, value % 2, 1);
  }

  lemma PowerOne()
    ensures Pow2(1) == 2
  {}

  lemma EvenShift(result: nat) returns (half: nat)
    ensures Shl(result, 1) == half * 2
  {
    half := result % 0x8000_0000;
    PowerOne();
    DivModUnique(result * 2, 0x1_0000_0000, result / 0x8000_0000, half * 2);
  }

  lemma PushBit(result: u32, v: nat, j: nat, junk: int, bit: nat) returns (junk': int)
    requires Holds(result, v, j, junk) && bit == Bit(v, j) && j < 32
    ensures Holds(Shl(result, 1) + bit, v, j + 1, junk')
  {
    var turns: int := result * 2 / 0x1_0000_0000;
    junk' := junk - turns * Pow2(31 - j);
    assert Shl(result, 1) == result * 2 - turns * 0x1_0000_0000;
    hide Shl;
    assert Pow2(31 - j) * Pow2(j + 1) == 0x1_0000_0000 by {
      Pow2Add(31 - j, j + 1);
      Pow2Values();
    }
    TurnsCancel(result, Reversed(v, j), junk, turns, Pow2(31 - j), Pow2(j), Pow2(j + 1));
  }

  lemma TurnsCancel(result: int, r: int, junk: int, turns: int, p: int, q: int, q2: int)
    requires p * q2 == 0x1_0000_0000 && q2 == 2 * q && result == r + junk * q
    ensures result * 2 - turns * 0x1_0000_0000 == 2 * r + (junk - turns * p) * q2
  {
    assert (junk - turns * p) * q2 == junk * q2 - turns * p * q2;
    MulAssoc(turns, p, q2);
    assert junk * q2 == 2 * (junk * q);
  }

  lemma FinalShift(result: u32, v: u32, low: nat, j: nat, junk: int)
    requires 1 <= j <= 32 && Reversing(result, v, 0, j, low, junk)
    ensures Shl(result, 32 - j) == Reversed(v, 32)
  {
    var r, q, p := Reversed(v, j), Pow2(j), Pow2(32 - j);
    assert result == r + junk * q && v < q && Shl(result, 32 - j) == ToU32(result * p);
    hide *;
    assert q * p == 0x1_0000_0000 by {
      Pow2Add(j, 32 - j);
      Pow2Values();
    }
    assert Reversed(v, 32) == r * p < 0x1_0000_0000 by {
      ReversedTail(v, j, 32);
      ReversedBound(v, 32);
      Pow2Values();
    }
    PushedOut(result, r, junk, q, p);
  }

  lemma PushedOut(result: int, r: nat, junk: int, q: nat, p: nat)
    requires q * p == 0x1_0000_0000 && result == r + junk * q && r * p < 0x1_0000_0000
    ensures ToU32(result * p) == r * p
  {
    MulAssoc(junk, q, p);
    assert (r + junk * q) * p == r * p + junk * q * p;
    MulNonNegative(r, p);
    ModShift(r * p, junk, 0x1_0000_0000);
  }
}
