/** The bitwise operators of C on natural numbers, digit by digit, and how they read as arithmetic. */
module Bits {
  import opened Words

  function Bit(x: nat, k: nat): (b: nat)
    ensures b <= 1
    decreases k
  {
    if k == 0 then x % 2 else Bit(x / 2, k - 1)
  }

  function And(x: nat, y: nat): nat {
    if x == 0 || y == 0 then 0
    else (if x % 2 == 1 && y % 2 == 1 then 1 else 0) + 2 * And(x / 2, y / 2)
  }

  function Or(x: nat, y: nat): nat
    decreases x + y
  {
    if x == 0 && y == 0 then 0
    else (if x % 2 == 1 || y % 2 == 1 then 1 else 0) + 2 * Or(x / 2, y / 2)
  }

  function Xor(x: nat, y: nat): nat
    decreases x + y
  {
    if x == 0 && y == 0 then 0
    else (x + y) % 2 + 2 * Xor(x / 2, y / 2)
  }

  /** Bit k is the k-th binary digit. */
  lemma {:induction false} BitIsDigit(x: nat, k: nat)
    ensures Bit(x, k) == x / Pow2(k) % 2
    decreases k
  {
    if k != 0 {
      BitIsDigit(x / 2, k - 1);
      var hi, lo := CutAt(x / 2, k - 1);
      Doubled(hi, k);
      DivModUnique(x, Pow2(k), hi, 2 * lo + x % 2);
    }
  }

  /** The operators are conjunction, disjunction and exclusive disjunction of the digits. */
  lemma {:induction false} OperatorsByBit(x: nat, y: nat, k: nat)
    ensures Bit(And(x, y), k) == 1 <==> Bit(x, k) == 1 && Bit(y, k) == 1
    ensures Bit(Or(x, y), k) == 1 <==> Bit(x, k) == 1 || Bit(y, k) == 1
    ensures Bit(Xor(x, y), k) == 1 <==> Bit(x, k) != Bit(y, k)
    decreases k
  {
    LowDigits(x, y);
    if k != 0 {
      OperatorsByBit(x / 2, y / 2, k - 1);
    }
  }

  lemma LowDigits(x: nat, y: nat)
    ensures And(x, y) / 2 == And(x / 2, y / 2) && Or(x, y) / 2 == Or(x / 2, y / 2) && Xor(x, y) / 2 == Xor(x / 2, y / 2)
    ensures And(x, y) % 2 == 1 <==> x % 2 == 1 && y % 2 == 1
    ensures Or(x, y) % 2 == 1 <==> x % 2 == 1 || y % 2 == 1
    ensures Xor(x, y) % 2 == 1 <==> x % 2 != y % 2
  {
    hide And, Or, Xor;
    AndUnfold(x, y);
    OrUnfold(x, y);
    XorUnfold(x, y);
    SumParity(x, y);
    OneDigit(if x % 2 == 1 && y % 2 == 1 then 1 else 0, And(x / 2, y / 2));
    OneDigit(if x % 2 == 1 || y % 2 == 1 then 1 else 0, Or(x / 2, y / 2));
    OneDigit((x + y) % 2, Xor(x / 2, y / 2));
  }

  lemma XorUnfold(x: nat, y: nat)
    ensures Xor(x, y) == (x + y) % 2 + 2 * Xor(x / 2, y / 2)
  {}

  lemma SumParity(x: nat, y: nat)
    ensures (x + y) % 2 == if x % 2 != y % 2 then 1 else 0
  {}

  lemma OneDigit(b: nat, rest: nat)
    requires b <= 1
    ensures (b + 2 * rest) / 2 == rest && (b + 2 * rest) % 2 == b
  {}

  // The operators act on the two parts of a word separately.

  predicate Parts(x: nat, hi: nat, lo: nat, k: nat) {
    lo < Pow2(k) && x == hi * Pow2(k) + lo
  }

  lemma PartsHalve(x: nat, hi: nat, lo: nat, k: nat)
    requires k != 0 && Parts(x, hi, lo, k)
    ensures Parts(x / 2, hi, lo / 2, k - 1) && x % 2 == lo % 2
  {
    assert hi * Pow2(k) == 2 * (hi * Pow2(k - 1));
  }

  lemma {:induction false} AndSplit(x: nat, y: nat, a: nat, b: nat, c: nat, d: nat, k: nat)
    requires Parts(x, a, b, k) && Parts(y, c, d, k)
    ensures And(x, y) == And(a, c) * Pow2(k) + And(b, d)
    decreases k
  {
    if k != 0 {
      PartsHalve(x, a, b, k);
      PartsHalve(y, c, d, k);
      AndSplit(x / 2, y / 2, a, b / 2, c, d / 2, k - 1);
      AndUnfold(x, y);
      AndUnfold(b, d);
      Doubled(And(a, c), k);
    }
  }

  lemma {:induction false} OrSplit(x: nat, y: nat, a: nat, b: nat, c: nat, d: nat, k: nat)
    requires Parts(x, a, b, k) && Parts(y, c, d, k)
    ensures Or(x, y) == Or(a, c) * Pow2(k) + Or(b, d)
    decreases k
  {
    if k != 0 {
      PartsHalve(x, a, b, k);
      PartsHalve(y, c, d, k);
      OrSplit(x / 2, y / 2, a, b / 2, c, d / 2, k - 1);
      OrUnfold(x, y);
      OrUnfold(b, d);
      Doubled(Or(a, c), k);
    }
  }

  lemma Doubled(v: nat, k: nat)
    requires k != 0
    ensures v * Pow2(k) == 2 * (v * Pow2(k - 1))
  {}

  lemma AndUnfold(x: nat, y: nat)
    ensures And(x, y) == (if x % 2 == 1 && y % 2 == 1 then 1 else 0) + 2 * And(x / 2, y / 2)
  {}

  lemma OrUnfold(x: nat, y: nat)
    ensures Or(x, y) == (if x % 2 == 1 || y % 2 == 1 then 1 else 0) + 2 * Or(x / 2, y / 2)
  {}

  lemma {:induction false} OrZero(x: nat)
    ensures Or(x, 0) == x && Or(0, x) == x
  {
    if x != 0 {
      OrZero(x / 2);
    }
  }

  lemma {:induction false} AndOnes(x: nat, k: nat)
    requires x < Pow2(k)
    ensures And(x, Pow2(k) - 1) == x
    decreases k
  {
    if k != 0 {
      AndOnes(x / 2, k - 1);
      AndUnfold(x, Pow2(k) - 1);
    }
  }

  lemma {:induction false} CutAt(x: nat, k: nat) returns (hi: nat, lo: nat)
    ensures Parts(x, hi, lo, k) && lo == x % Pow2(k) && hi == x / Pow2(k)
    decreases k
  {
    if k == 0 {
      hi, lo := x, 0;
    } else {
      hi, lo := CutAt(x / 2, k - 1);
      lo := 2 * lo + x % 2;
      Doubled(hi, k);
      DivModUnique(x, Pow2(k), hi, lo);
    }
  }

  /** Masking with 2^k - 1 is the remainder modulo 2^k. */
  lemma AndLowMask(x: nat, k: nat)
    ensures And(x, Pow2(k) - 1) == x % Pow2(k)
  {
    var hi, lo := CutAt(x, k);
    AndSplit(x, Pow2(k) - 1, hi, lo, 0, Pow2(k) - 1, k);
    AndOnes(lo, k);
  }

  lemma HighPartBound(x: nat, hi: nat, lo: nat, k: nat, w: nat)
    requires k <= w && x < Pow2(w) && Parts(x, hi, lo, k)
    ensures hi < Pow2(w - k)
  {
    Pow2Add(w - k, k);
    if hi >= Pow2(w - k) {
      MulMono(Pow2(w - k), hi, Pow2(k));
      assert false;
    }
  }

  lemma HighMaskParts(mask: nat, k: nat, w: nat)
    requires k <= w && mask + Pow2(k) == Pow2(w)
    ensures Parts(mask, Pow2(w - k) - 1, 0, k)
  {
    hide Pow2;
    var q, p := Pow2(w - k), Pow2(k);
    Pow2Add(w - k, k);
    assert (q - 1) * p == q * p - p;
  }

  /** Masking a w-bit word with 2^w - 2^k clears its low k bits. */
  lemma AndHighMask(x: nat, mask: nat, k: nat, w: nat)
    requires k <= w && x < Pow2(w) && mask + Pow2(k) == Pow2(w)
    ensures And(x, mask) == x - x % Pow2(k)
  {
    hide And, Pow2;
    var hi, lo := CutAt(x, k);
    HighPartBound(x, hi, lo, k, w);
    HighMaskParts(mask, k, w);
    AndOnes(hi, w - k);
    AndSplit(x, mask, hi, lo, Pow2(w - k) - 1, 0, k);
    AndNothing(lo);
    HighRemains(x, hi, lo, k);
  }

  lemma AndNothing(x: nat)
    ensures And(x, 0) == 0
  {}

  lemma HighRemains(x: nat, hi: nat, lo: nat, k: nat)
    requires Parts(x, hi, lo, k)
    ensures hi * Pow2(k) == x - lo
  {
    hide Pow2;
  }

  /** Or-ing a value below 2^k into a word whose low k bits are clear is addition. */
  lemma OrDisjoint(a: nat, b: nat, k: nat)
    requires b < Pow2(k)
    ensures Or(a * Pow2(k), b) == a * Pow2(k) + b
    ensures Or(b, a * Pow2(k)) == a * Pow2(k) + b
  {
    var x := a * Pow2(k);
    OrSplit(x, b, a, 0, 0, b, k);
    OrSplit(b, x, 0, b, a, 0, k);
    OrZero(a);
    OrZero(b);
  }

  /** Words of w bits that agree on every bit are equal. */
  lemma {:induction false} BitsDetermine(x: nat, y: nat, w: nat)
    requires x < Pow2(w) && y < Pow2(w)
    requires forall k :: 0 <= k < w ==> Bit(x, k) == Bit(y, k)
    ensures x == y
    decreases w
  {
    if w != 0 {
      assert Bit(x, 0) == Bit(y, 0);
      forall k | 0 <= k < w - 1
        ensures Bit(x / 2, k) == Bit(y / 2, k)
      {
        assert Bit(x, k + 1) == Bit(y, k + 1);
      }
      BitsDetermine(x / 2, y / 2, w - 1);
    }
  }

  lemma {:induction false} BitOfHigh(v: nat, hi: nat, lo: nat, j: nat)
    requires Parts(v, hi, lo, j)
    ensures Bit(v, j) == hi % 2
    decreases j
  {
    if j != 0 {
      PartsHalve(v, hi, lo, j);
      BitOfHigh(v / 2, hi, lo / 2, j - 1);
    }
  }

  lemma {:induction false} BitOfLow(v: nat, hi: nat, lo: nat, j: nat, k: nat)
    requires Parts(v, hi, lo, j) && k < j
    ensures Bit(v, k) == Bit(lo, k)
    decreases k
  {
    PartsHalve(v, hi, lo, j);
    if k != 0 {
      BitOfLow(v / 2, hi, lo / 2, j - 1, k - 1);
    }
  }
}
