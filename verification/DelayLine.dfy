/** The circular write and read loops of arm_math.h (the f32, q15 and q7 copies differ in element type only). */
module DelayLine {
  import opened Words

  /** `offset += inc; if (offset >= length) offset -= length;` on 32-bit integers. */
  function Advance(offset: i32, inc: i32, length: i32): i32 {
    var moved := ToI32(offset + inc);
    if moved >= length then ToI32(moved - length) else moved
  }

  /** The increments the one conditional subtraction serves: none negative, none longer than the ring, and
      no sum that leaves 32 bits. */
  predicate Serves(inc: i32, length: i32) { 0 <= inc <= length && length as int + inc as int <= 0x8000_0000 }

  /** The same step where no sum leaves 32 bits. */
  function Reduced(offset: int, inc: int, length: int): int {
    if offset + inc >= length then offset + inc - length else offset + inc
  }

  /** Where no sum leaves 32 bits, a step adds the increment and takes the length off once if it was reached. */
  lemma AdvanceIs(offset: i32, inc: i32, length: i32)
    requires FitsI32(offset + inc) && FitsI32(offset + inc - length)
    ensures Advance(offset, inc, length) == if offset + inc >= length then offset + inc - length else offset + inc
  {
    hide ToI32;
    SameI32(offset + inc);
    SameI32(offset + inc - length);
  }

  lemma AdvanceReduces(offset: i32, inc: i32, length: i32)
    requires 0 <= offset < length && Serves(inc, length)
    ensures Advance(offset, inc, length) == Reduced(offset, inc, length)
    ensures 0 <= Advance(offset, inc, length) < length
  {
    hide ToI32;
    SameI32(offset + inc);
    if offset + inc >= length {
      SameI32(offset + inc - length);
    }
  }

  /** The k-th of a series of equidistant places. */
  function Place(start: int, inc: int, k: int): int { start + k * inc }

  lemma PlaceIs(start: int, inc: int, k: int)
    ensures Place(start, inc, k) == start + k * inc
  {}

  lemma PlaceNext(start: int, inc: int, k: int)
    ensures Place(start, inc, 0) == start && Place(start, inc, k + 1) == Place(start, inc, k) + inc
  {}

  /** The offset after n steps. */
  function OffsetAfter(offset: i32, inc: i32, length: i32, n: nat): i32 {
    if n == 0 then offset else Advance(OffsetAfter(offset, inc, length, n - 1), inc, length)
  }

  lemma OffsetNext(offset: i32, inc: i32, length: i32, n: nat)
    ensures OffsetAfter(offset, inc, length, 0) == offset
    ensures OffsetAfter(offset, inc, length, n + 1) == Advance(OffsetAfter(offset, inc, length, n), inc, length)
  {}

  /** The first n offsets lie in a buffer of the given size. */
  ghost predicate Inside(size: int, offset: i32, inc: i32, length: i32, n: nat) {
    forall k :: 0 <= k < n ==> 0 <= OffsetAfter(offset, inc, length, k) < size
  }

  /** Buffer contents after storing the samples one step apart, in order. */
  ghost function Stored<T>(buf: seq<T>, offset: i32, inc: i32, length: i32, samples: seq<T>): (r: seq<T>)
    requires Inside(|buf|, offset, inc, length, |samples|)
    ensures |r| == |buf|
    decreases |samples|
  {
    if samples == [] then buf
    else
      var n := |samples| - 1;
      Stored(buf, offset, inc, length, samples[..n])[OffsetAfter(offset, inc, length, n) := samples[n]]
  }

  /** For these increments the one conditional subtraction keeps the offset in range... */
  lemma {:induction false} OffsetInRange(offset: i32, inc: i32, length: i32, n: nat)
    requires 0 <= offset < length && Serves(inc, length)
    ensures 0 <= OffsetAfter(offset, inc, length, n) < length
  {
    hide Advance;
    if n != 0 {
      OffsetInRange(offset, inc, length, n - 1);
      AdvanceReduces(OffsetAfter(offset, inc, length, n - 1), inc, length);
    }
  }

  /** ...and is the offset modulo the length. */
  lemma OffsetIsModulo(offset: i32, inc: i32, length: i32, n: nat)
    requires 0 <= offset < length && Serves(inc, length)
    ensures OffsetAfter(offset, inc, length, n) == (offset + n * inc) % length
  {
    PlaceIs(offset, inc, n);
    hide OffsetAfter, Place;
    OffsetIsPlace(offset, inc, length, n);
  }

  lemma {:induction false} OffsetIsPlace(offset: i32, inc: i32, length: i32, n: nat)
    requires 0 <= offset < length && Serves(inc, length)
    ensures OffsetAfter(offset, inc, length, n) == Place(offset, inc, n) % length
  {
    hide Advance, Place;
    PlaceNext(offset, inc, n - 1);
    if n == 0 {
      DivModUnique(offset, length, 0, offset);
    } else {
      OffsetIsPlace(offset, inc, length, n - 1);
      OffsetInRange(offset, inc, length, n - 1);
      AdvanceReduces(OffsetAfter(offset, inc, length, n - 1), inc, length);
      ReducedIsModulo(Place(offset, inc, n - 1), inc, length);
    }
  }

  lemma ReducedIsModulo(x: int, inc: int, length: int)
    requires 0 < length && 0 <= inc <= length
    ensures (x + inc) % length == Reduced(x % length, inc, length)
  {
    var q, o := x / length, x % length;
    assert x == q * length + o;
    if o + inc >= length {
      assert (q + 1) * length == q * length + length;
      DivModUnique(x + inc, length, q + 1, o + inc - length);
    } else {
      DivModUnique(x + inc, length, q, o + inc);
    }
  }

  /** Two positions less than one turn apart have different offsets. */
  lemma OffsetsDiffer(a: int, b: int, length: int)
    requires a < b < a + length
    ensures a % length != b % length
  {
    var qa, qb := a / length, b / length;
    assert a == qa * length + a % length && b == qb * length + b % length;
    if a % length == b % length {
      assert (qb - qa) * length == b - a;
      DivModUnique(b - a, length, qb - qa, 0);
      DivModUnique(b - a, length, 0, b - a);
      assert false;
    }
  }

  lemma OffsetsInside(size: int, offset: i32, inc: i32, length: i32, n: nat)
    requires 0 <= offset < length <= size && Serves(inc, length)
    ensures Inside(size, offset, inc, length, n)
  {
    forall k | 0 <= k < n
      ensures 0 <= OffsetAfter(offset, inc, length, k) < size
    {
      OffsetInRange(offset, inc, length, k);
    }
  }

  predicate StaysFrom(offset: i32, inc: i32, length: i32, n: nat) {
    0 <= offset < length ==> 0 <= OffsetAfter(offset, inc, length, n) < length
  }

  /** No other increment keeps every offset in the ring. */
  lemma OffsetInRangeExactly(inc: i32, length: i32)
    requires 0 < length
    ensures (forall offset: i32, n: nat :: StaysFrom(offset, inc, length, n)) <==> Serves(inc, length)
  {
    if Serves(inc, length) {
      forall offset: i32, n: nat
        ensures StaysFrom(offset, inc, length, n)
      {
        if 0 <= offset < length {
          OffsetInRange(offset, inc, length, n);
        }
      }
    } else {
      var offset: i32 := if inc < 0 then 0 else length - 1;
      LeavesAtOnce(offset, inc, length);
      assert !StaysFrom(offset, inc, length, 1);
    }
  }

  lemma LeavesAtOnce(offset: i32, inc: i32, length: i32)
    requires 0 < length && !Serves(inc, length) && offset == if inc < 0 then 0 else length - 1
    ensures !(0 <= OffsetAfter(offset, inc, length, 1) < length)
  {
    hide OffsetAfter;
    OffsetNext(offset, inc, length, 0);
  }

  /** A negative increment is never wrapped: the offset runs straight down and leaves the buffer. */
  lemma {:induction false} NegativeIncrementRuns(offset: i32, inc: i32, length: i32, n: nat)
    requires offset < length && inc <= 0 && -0x8000_0000 <= offset + n * inc
    ensures OffsetAfter(offset, inc, length, n) == offset + n * inc <= offset
  {
    PlaceIs(offset, inc, n);
    PlaceIs(offset, inc, n - 1);
    hide ToI32, Place;
    PlaceNext(offset, inc, n - 1);
    if n != 0 {
      NegativeIncrementRuns(offset, inc, length, n - 1);
      SameI32(Place(offset, inc, n - 1) + inc);
    }
  }

  /** The samples a block call takes from its source. */
  function Strided<T>(src: seq<T>, start: int, inc: int, n: nat): (r: seq<T>)
    requires forall k :: 0 <= k < n ==> 0 <= Place(start, inc, k) < |src|
    ensures |r| == n
  {
    seq(n, k requires 0 <= k < n => src[Place(start, inc, k)])
  }

  /** The k-th sample of a block is k increments into the source. */
  lemma StridedIs<T>(src: seq<T>, start: int, inc: int, n: nat, k: nat)
    requires k < n && forall j :: 0 <= j < n ==> 0 <= Place(start, inc, j) < |src|
    ensures 0 <= start + k * inc < |src| && Strided(src, start, inc, n)[k] == src[start + k * inc]
  {
    PlaceIs(start, inc, k);
    hide Place;
  }

  lemma StridedPlace<T>(src: seq<T>, start: int, inc: int, n: nat, k: nat)
    requires k < n && forall j :: 0 <= j < n ==> 0 <= Place(start, inc, j) < |src|
    ensures Strided(src, start, inc, n)[k] == src[Place(start, inc, k)]
  {
    hide Place;
  }

  /** The k-th offset of n is not used again. */
  predicate LastUse(offset: i32, inc: i32, length: i32, n: nat, k: nat) {
    k < n && forall j :: k < j < n ==> OffsetAfter(offset, inc, length, j) != OffsetAfter(offset, inc, length, k)
  }

  /** No offset of n is b. */
  predicate Unused(offset: i32, inc: i32, length: i32, n: nat, b: int) {
    forall k :: 0 <= k < n ==> OffsetAfter(offset, inc, length, k) != b
  }

  /** A sample stays where it was stored unless a later one goes to the same offset... */
  lemma {:induction false} StoredStays<T>(buf: seq<T>, offset: i32, inc: i32, length: i32, samples: seq<T>, k: nat)
    requires Inside(|buf|, offset, inc, length, |samples|) && LastUse(offset, inc, length, |samples|, k)
    ensures Stored(buf, offset, inc, length, samples)[OffsetAfter(offset, inc, length, k)] == samples[k]
    decreases |samples|
  {
    hide OffsetAfter;
    var n := |samples| - 1;
    if k < n {
      StoredStays(buf, offset, inc, length, samples[..n], k);
    }
  }

  /** ...and the rest is untouched. */
  lemma {:induction false} StoredSpares<T>(buf: seq<T>, offset: i32, inc: i32, length: i32, samples: seq<T>, b: nat)
    requires Inside(|buf|, offset, inc, length, |samples|) && b < |buf| && Unused(offset, inc, length, |samples|, b)
    ensures Stored(buf, offset, inc, length, samples)[b] == buf[b]
    decreases |samples|
  {
    hide OffsetAfter;
    if samples != [] {
      StoredSpares(buf, offset, inc, length, samples[..|samples| - 1], b);
    }
  }

  lemma Spread(inc: int, k: nat, n: nat, len: int)
    requires 0 < inc && k < n && (n + 1) * inc <= len
    ensures k * inc < n * inc < k * inc + len
  {
    MulMono(k + 1, n, inc);
    MulMono(0, k, inc);
    assert (k + 1) * inc == k * inc + inc && (n + 1) * inc == n * inc + inc;
  }

  /** A block that fits the ring lands in it without overwriting itself: sample k at k increments after the
      offset, modulo the length. */
  lemma BlockLands<T>(buf: seq<T>, offset: i32, inc: i32, length: i32, samples: seq<T>)
    requires 0 <= offset < length <= |buf| && 0 < inc && Serves(inc, length) && |samples| * inc <= length
    ensures Inside(|buf|, offset, inc, length, |samples|)
    ensures forall k :: 0 <= k < |samples| ==>
              var place := (offset + k * inc) % length;
              Stored(buf, offset, inc, length, samples)[place] == samples[k]
  {
    OffsetsInside(|buf|, offset, inc, length, |samples|);
    forall k | 0 <= k < |samples|
      ensures var place := (offset + k * inc) % length;
              Stored(buf, offset, inc, length, samples)[place] == samples[k]
    {
      hide Stored, OffsetAfter;
      forall j | k < j < |samples|
        ensures OffsetAfter(offset, inc, length, j) != OffsetAfter(offset, inc, length, k)
      {
        UsesDiffer(offset, inc, length, k, j, |samples|);
      }
      OffsetIsModulo(offset, inc, length, k);
      StoredStays(buf, offset, inc, length, samples, k);
    }
  }

  lemma UsesDiffer(offset: i32, inc: i32, length: i32, k: nat, j: nat, n: nat)
    requires 0 <= offset < length && 0 < inc && Serves(inc, length) && k < j < n && n * inc <= length
    ensures OffsetAfter(offset, inc, length, j) != OffsetAfter(offset, inc, length, k)
  {
    hide OffsetAfter;
    OffsetIsModulo(offset, inc, length, k);
    OffsetIsModulo(offset, inc, length, j);
    MulMono(j + 1, n, inc);
    Spread(inc, k, j, length);
    OffsetsDiffer(offset + k * inc, offset + j * inc, length);
  }

  lemma NothingStored<T>(buf: seq<T>, offset: i32, inc: i32, length: i32)
    ensures Stored(buf, offset, inc, length, []) == buf
  {}

  /** One more sample goes to the next offset. */
  lemma OneStored<T>(buf: seq<T>, offset: i32, inc: i32, length: i32, samples: seq<T>, n: nat)
    requires n < |samples| && Inside(|buf|, offset, inc, length, |samples|)
    ensures Stored(buf, offset, inc, length, samples[..n + 1]) ==
            Stored(buf, offset, inc, length, samples[..n])[OffsetAfter(offset, inc, length, n) := samples[n]]
  {
    assert samples[..n + 1][..n] == samples[..n];
  }

  /** What a stored block leaves in the buffer. */
  lemma BlockStored<T>(buf: seq<T>, offset: i32, inc: i32, length: i32, src: seq<T>, start: int, srcInc: int, n: nat)
    requires Inside(|buf|, offset, inc, length, n) && forall k :: 0 <= k < n ==> 0 <= Place(start, srcInc, k) < |src|
    ensures var after := Stored(buf, offset, inc, length, Strided(src, start, srcInc, n));
            && (forall k :: 0 <= k < n && LastUse(offset, inc, length, n, k) ==>
                  var i := start + k * srcInc;
                  0 <= i < |src| && after[OffsetAfter(offset, inc, length, k)] == src[i])
            && (forall b :: 0 <= b < |buf| && Unused(offset, inc, length, n, b) ==> after[b] == buf[b])
  {
    var samples := Strided(src, start, srcInc, n);
    var after := Stored(buf, offset, inc, length, samples);
    forall k | 0 <= k < n && LastUse(offset, inc, length, n, k)
      ensures var i := start + k * srcInc;
              0 <= i < |src| && after[OffsetAfter(offset, inc, length, k)] == src[i]
    {
      hide Stored, Strided, Place, OffsetAfter;
      StoredStays(buf, offset, inc, length, samples, k);
      StridedIs(src, start, srcInc, n, k);
    }
    forall b | 0 <= b < |buf| && Unused(offset, inc, length, n, b)
      ensures after[b] == buf[b]
    {
      hide Stored, Strided, Place, OffsetAfter;
      StoredSpares(buf, offset, inc, length, samples, b);
    }
  }

  method CircularWrite<T>(circBuffer: array<T>, length: i32, writeOffset: u16, bufferInc: i32,
                          src: array<T>, srcStart: int, srcInc: int, blockSize: nat)
      returns (writeOffset': u16)
    requires Inside(circBuffer.Length, writeOffset, bufferInc, length, blockSize)
    requires circBuffer != src
    requires forall k :: 0 <= k < blockSize ==> 0 <= Place(srcStart, srcInc, k) < src.Length
    modifies circBuffer
    ensures circBuffer[..] == Stored(old(circBuffer[..]), writeOffset, bufferInc, length,
                                     Strided(src[..], srcStart, srcInc, blockSize))
    ensures forall k :: 0 <= k < blockSize && LastUse(writeOffset, bufferInc, length, blockSize, k) ==>
              var i := srcStart + k * srcInc;
              0 <= i < src.Length && circBuffer[..][OffsetAfter(writeOffset, bufferInc, length, k)] == src[..][i]
    ensures forall b :: 0 <= b < circBuffer.Length && Unused(writeOffset, bufferInc, length, blockSize, b) ==>
              circBuffer[..][b] == old(circBuffer[..])[b]
    ensures writeOffset' == OffsetAfter(writeOffset, bufferInc, length, blockSize) % 0x1_0000
  {
    hide Stored, Strided, Place, OffsetAfter, ToI32;
    OffsetNext(writeOffset, bufferInc, length, 0);
    ghost var before, samples := circBuffer[..], Strided(src[..], srcStart, srcInc, blockSize);
    var wOffset: i32 := writeOffset;
    var i := blockSize;
    var p := srcStart;
    PlaceNext(srcStart, srcInc, 0);
    assert samples[..0] == [];
    NothingStored(before, writeOffset, bufferInc, length);
    while i > 0
      invariant 0 <= i <= blockSize
      invariant wOffset == OffsetAfter(writeOffset, bufferInc, length, blockSize - i)
      invariant p == Place(srcStart, srcInc, blockSize - i)
      invariant src[..] == old(src[..])
      invariant circBuffer[..] == Stored(before, writeOffset, bufferInc, length, samples[..blockSize - i])
    {
      OneStored(before, writeOffset, bufferInc, length, samples, blockSize - i);
      StridedPlace(src[..], srcStart, srcInc, blockSize, blockSize - i);
      PlaceNext(srcStart, srcInc, blockSize - i);
      OffsetNext(writeOffset, bufferInc, length, blockSize - i);
      circBuffer[wOffset] := src[p];
      p := p + srcInc;
      wOffset := ToI32(wOffset + bufferInc);
      if wOffset >= length {
        wOffset := ToI32(wOffset - length);
      }
      i := i - 1;
    }
    assert samples[..blockSize] == samples;
    BlockStored(before, writeOffset, bufferInc, length, src[..], srcStart, srcInc, blockSize);
    writeOffset' := wOffset % 0x1_0000;
  }

  // ---- The destination pointer of the read loop ----

  /** `dst += dstInc; if (dst == dst_end) dst = dst_base;` as an index from dst_base. */
  function DstAfter(start: int, inc: int, len: int, k: nat): int {
    if k == 0 then start
    else
      var next := DstAfter(start, inc, len, k - 1) + inc;
      if next == len then 0 else next
  }

  lemma DstNext(start: int, inc: int, len: int, k: nat)
    ensures DstAfter(start, inc, len, 0) == start
    ensures var next := DstAfter(start, inc, len, k) + inc; DstAfter(start, inc, len, k + 1) == if next == len then 0 else next
  {}

  lemma {:induction false} DstStays(start: int, inc: int, len: int, k: nat)
    requires 0 <= start < len && 0 < inc && len % inc == 0 && start % inc == 0
    ensures 0 <= DstAfter(start, inc, len, k) < len && DstAfter(start, inc, len, k) % inc == 0
  {
    if k != 0 {
      DstStays(start, inc, len, k - 1);
      MultiplesStep(DstAfter(start, inc, len, k - 1), inc, len);
    }
  }

  /** Below a multiple of inc, the next multiple of inc is at most that one. */
  lemma MultiplesStep(p: int, inc: int, len: int)
    requires 0 <= p < len && 0 < inc && len % inc == 0 && p % inc == 0
    ensures p + inc <= len && (p + inc) % inc == 0 && 0 % inc == 0
  {
    var a, b := p / inc, len / inc;
    assert p == a * inc && len == b * inc;
    if a >= b {
      MulMono(b, a, inc);
      assert false;
    }
    MulMono(a + 1, b, inc);
    assert (a + 1) * inc == a * inc + inc;
    DivModUnique(p + inc, inc, a + 1, 0);
    DivModUnique(0, inc, 0, 0);
  }

  lemma {:induction false} DstRunsStraight(start: int, inc: int, len: int, k: nat)
    requires forall j :: 0 < j <= k ==> Place(start, inc, j) != len
    ensures DstAfter(start, inc, len, k) == Place(start, inc, k)
  {
    hide Place;
    PlaceNext(start, inc, k - 1);
    if k != 0 {
      DstRunsStraight(start, inc, len, k - 1);
    }
  }

  /** From a start that never meets the end exactly, the pointer runs past it. */
  lemma MissesEnd(start: int, inc: int, len: int) returns (k: nat)
    requires 0 <= start < len && 0 < inc && (len - start) % inc != 0
    ensures DstAfter(start, inc, len, k) > len
  {
    k := (len - start) / inc + 1;
    forall j | 0 < j <= k
      ensures Place(start, inc, j) != len
    {
      if Place(start, inc, j) == len {
        DivModUnique(len - start, inc, j, 0);
      }
    }
    DstRunsStraight(start, inc, len, k);
    PlaceBeyond(start, inc, len);
  }

  lemma PlaceBeyond(start: int, inc: int, len: int)
    requires start < len && 0 < inc
    ensures Place(start, inc, (len - start) / inc + 1) > len
  {
    var q: int, r: int := (len - start) / inc, (len - start) % inc;
    assert len - start == q * inc + r;
    assert (q + 1) * inc == q * inc + inc;
  }

  /** A pointer that moves down leaves the destination. */
  lemma RunsBelow(start: int, inc: int, len: int) returns (k: nat)
    requires 0 <= start < len && inc < 0
    ensures DstAfter(start, inc, len, k) < 0
  {
    k := start + 1;
    forall j | 0 < j <= k
      ensures Place(start, inc, j) < start
    {
      MulMono(inc, -1, j);
    }
    DstRunsStraight(start, inc, len, k);
    MulMono(inc, -1, k);
  }

  lemma {:induction false} DstAfterSum(start: int, inc: int, len: int, a: nat, b: nat)
    ensures DstAfter(start, inc, len, a + b) == DstAfter(DstAfter(start, inc, len, a), inc, len, b)
    decreases b
  {
    if b != 0 {
      DstAfterSum(start, inc, len, a, b - 1);
    }
  }

  /** From a start that meets the end exactly, the pointer comes back to the base. */
  lemma MeetsEnd(start: int, inc: int, len: int) returns (k: nat)
    requires 0 <= start < len && 0 < inc && (len - start) % inc == 0
    ensures DstAfter(start, inc, len, k) == 0
  {
    k := (len - start) / inc;
    assert len - start == k * inc;
    forall j | 0 < j <= k - 1
      ensures Place(start, inc, j) != len
    {
      MulMono(j + 1, k, inc);
      assert (j + 1) * inc == j * inc + inc;
    }
    assert Place(start, inc, k) == len;
    assert k != 0 by {
      PlaceNext(start, inc, 0);
    }
    DstRunsStraight(start, inc, len, k - 1);
    PlaceNext(start, inc, k - 1);
    hide Place;
  }

  /** The wrap is by equality, so the pointer stays inside the destination for every number of
      samples exactly when it does not move, or moves up by a divisor of both the length and the starting
      distance. */
  lemma DstInsideExactly(start: int, inc: int, len: int)
    requires 0 <= start < len
    ensures (forall k: nat :: 0 <= DstAfter(start, inc, len, k) < len)
       <==> inc == 0 || (0 < inc && len % inc == 0 && (len - start) % inc == 0)
  {
    if inc < 0 {
      var k := RunsBelow(start, inc, len);
    } else if inc == 0 {
      forall k: nat
        ensures 0 <= DstAfter(start, inc, len, k) < len
      {
        DstRunsStraight(start, inc, len, k);
      }
    } else if (len - start) % inc != 0 {
      var k := MissesEnd(start, inc, len);
    } else if len % inc != 0 {
      var a := MeetsEnd(start, inc, len);
      var b := MissesEnd(0, inc, len);
      DstAfterSum(start, inc, len, a, b);
    } else {
      var a, b := len / inc, (len - start) / inc;
      assert len == a * inc && len - start == b * inc;
      assert (a - b) * inc == a * inc - b * inc;
      DivModUnique(start, inc, a - b, 0);
      forall k: nat
        ensures 0 <= DstAfter(start, inc, len, k) < len
      {
        DstStays(start, inc, len, k);
      }
    }
  }

  lemma DstIsModulo(start: int, inc: int, len: int, k: nat)
    requires 0 <= start < len && 0 < inc && len % inc == 0 && start % inc == 0
    ensures DstAfter(start, inc, len, k) == (start + k * inc) % len
  {
    PlaceIs(start, inc, k);
    hide DstAfter, Place;
    DstIsPlace(start, inc, len, k);
  }

  lemma {:induction false} DstIsPlace(start: int, inc: int, len: int, k: nat)
    requires 0 <= start < len && 0 < inc && len % inc == 0 && start % inc == 0
    ensures DstAfter(start, inc, len, k) == Place(start, inc, k) % len
  {
    hide Place;
    PlaceNext(start, inc, k - 1);
    if k == 0 {
      DivModUnique(start, len, 0, start);
    } else {
      DstIsPlace(start, inc, len, k - 1);
      DstStays(start, inc, len, k - 1);
      MultiplesStep(DstAfter(start, inc, len, k - 1), inc, len);
      ReducedIsModulo(Place(start, inc, k - 1), inc, len);
    }
  }

  // ---- The read loop ----

  /** A destination after the values are stored at the successive pointer positions. */
  function Scattered<T>(dst: seq<T>, base: int, start: int, inc: int, len: int, values: seq<T>): (r: seq<T>)
    requires forall k :: 0 <= k < |values| ==> 0 <= base + DstAfter(start, inc, len, k) < |dst|
    ensures |r| == |dst|
    decreases |values|
  {
    if values == [] then dst
    else
      var n := |values| - 1;
      Scattered(dst, base, start, inc, len, values[..n])[base + DstAfter(start, inc, len, n) := values[n]]
  }

  /** The values a block read takes from the ring. */
  ghost function Gathered<T>(buf: seq<T>, offset: i32, inc: i32, length: i32, n: nat): (r: seq<T>)
    requires Inside(|buf|, offset, inc, length, n)
    ensures |r| == n
    decreases n
  {
    if n == 0 then []
    else
      Gathered(buf, offset, inc, length, n - 1) + [buf[OffsetAfter(offset, inc, length, n - 1)]]
  }

  lemma {:induction false} GatheredAre<T>(buf: seq<T>, offset: i32, inc: i32, length: i32, n: nat)
    requires Inside(|buf|, offset, inc, length, n)
    ensures forall k :: 0 <= k < n ==> Gathered(buf, offset, inc, length, n)[k] == buf[OffsetAfter(offset, inc, length, k)]
  {
    if n != 0 {
      GatheredAre(buf, offset, inc, length, n - 1);
    }
  }

  /** The k-th pointer position of n is not used again. */
  predicate LastLanding(start: int, inc: int, len: int, n: nat, k: nat) {
    k < n && forall j :: k < j < n ==> DstAfter(start, inc, len, j) != DstAfter(start, inc, len, k)
  }

  /** No pointer position of n is b. */
  predicate Unvisited(start: int, inc: int, len: int, n: nat, b: int) {
    forall k :: 0 <= k < n ==> DstAfter(start, inc, len, k) != b
  }

  lemma {:induction false} ScatteredStays<T>(dst: seq<T>, base: int, start: int, inc: int, len: int, values: seq<T>, k: nat)
    requires forall j :: 0 <= j < |values| ==> 0 <= base + DstAfter(start, inc, len, j) < |dst|
    requires LastLanding(start, inc, len, |values|, k)
    ensures Scattered(dst, base, start, inc, len, values)[base + DstAfter(start, inc, len, k)] == values[k]
    decreases |values|
  {
    hide DstAfter;
    var n := |values| - 1;
    if k < n {
      ScatteredStays(dst, base, start, inc, len, values[..n], k);
    }
  }

  lemma {:induction false} ScatteredSpares<T>(dst: seq<T>, base: int, start: int, inc: int, len: int, values: seq<T>, b: nat)
    requires forall j :: 0 <= j < |values| ==> 0 <= base + DstAfter(start, inc, len, j) < |dst|
    requires b < |dst| && Unvisited(start, inc, len, |values|, b - base)
    ensures Scattered(dst, base, start, inc, len, values)[b] == dst[b]
    decreases |values|
  {
    hide DstAfter;
    if values != [] {
      ScatteredSpares(dst, base, start, inc, len, values[..|values| - 1], b);
    }
  }

  lemma NothingMoved<T>(ring: seq<T>, offset: i32, inc: i32, length: i32, dst: seq<T>, base: int, start: int, dstInc: int, len: int)
    ensures Gathered(ring, offset, inc, length, 0) == [] && Scattered(dst, base, start, dstInc, len, []) == dst
  {}

  /** One more value goes to the next pointer position. */
  lemma OneMoved<T>(ring: seq<T>, offset: i32, inc: i32, length: i32, dst: seq<T>, base: int, start: int, dstInc: int, len: int, n: nat)
    requires Inside(|ring|, offset, inc, length, n + 1)
    requires forall k :: 0 <= k <= n ==> 0 <= base + DstAfter(start, dstInc, len, k) < |dst|
    ensures Scattered(dst, base, start, dstInc, len, Gathered(ring, offset, inc, length, n + 1)) ==
            Scattered(dst, base, start, dstInc, len, Gathered(ring, offset, inc, length, n))
              [base + DstAfter(start, dstInc, len, n) := ring[OffsetAfter(offset, inc, length, n)]]
  {
    var next := Gathered(ring, offset, inc, length, n + 1);
    assert next[..n] == Gathered(ring, offset, inc, length, n);
  }

  /** What a block read leaves in the destination. */
  lemma BlockMoved<T>(ring: seq<T>, offset: i32, inc: i32, length: i32,
                      dst: seq<T>, base: int, start: int, dstInc: int, len: int, n: nat)
    requires Inside(|ring|, offset, inc, length, n)
    requires forall k :: 0 <= k < n ==> 0 <= base + DstAfter(start, dstInc, len, k) < |dst|
    ensures var after := Scattered(dst, base, start, dstInc, len, Gathered(ring, offset, inc, length, n));
            && (forall k :: 0 <= k < n && LastLanding(start, dstInc, len, n, k) ==>
                  after[base + DstAfter(start, dstInc, len, k)] == ring[OffsetAfter(offset, inc, length, k)])
            && (forall b :: 0 <= b < |dst| && Unvisited(start, dstInc, len, n, b - base) ==> after[b] == dst[b])
  {
    hide Scattered, Gathered, DstAfter, OffsetAfter;
    var values := Gathered(ring, offset, inc, length, n);
    GatheredAre(ring, offset, inc, length, n);
    forall k | 0 <= k < n && LastLanding(start, dstInc, len, n, k)
      ensures Scattered(dst, base, start, dstInc, len, values)[base + DstAfter(start, dstInc, len, k)] ==
              ring[OffsetAfter(offset, inc, length, k)]
    {
      ScatteredStays(dst, base, start, dstInc, len, values, k);
    }
    forall b | 0 <= b < |dst| && Unvisited(start, dstInc, len, n, b - base)
      ensures Scattered(dst, base, start, dstInc, len, values)[b] == dst[b]
    {
      ScatteredSpares(dst, base, start, dstInc, len, values, b);
    }
  }

  method CircularRead<T>(circBuffer: array<T>, length: i32, readOffset: i32, bufferInc: i32,
                         dst: array<T>, dstStart: int, dstBase: int, dstLength: int, dstInc: int, blockSize: nat)
      returns (readOffset': i32)
    requires Inside(circBuffer.Length, readOffset, bufferInc, length, blockSize)
    requires circBuffer != dst
    requires forall k :: 0 <= k < blockSize ==> 0 <= dstBase + DstAfter(dstStart, dstInc, dstLength, k) < dst.Length
    modifies dst
    ensures dst[..] == Scattered(old(dst[..]), dstBase, dstStart, dstInc, dstLength,
                                 Gathered(circBuffer[..], readOffset, bufferInc, length, blockSize))
    ensures forall k :: 0 <= k < blockSize && LastLanding(dstStart, dstInc, dstLength, blockSize, k) ==>
              dst[..][dstBase + DstAfter(dstStart, dstInc, dstLength, k)] ==
              circBuffer[..][OffsetAfter(readOffset, bufferInc, length, k)]
    ensures forall b :: 0 <= b < dst.Length && Unvisited(dstStart, dstInc, dstLength, blockSize, b - dstBase) ==>
              dst[..][b] == old(dst[..])[b]
    ensures readOffset' == OffsetAfter(readOffset, bufferInc, length, blockSize)
  {
    hide Scattered, Gathered, OffsetAfter, DstAfter, ToI32;
    OffsetNext(readOffset, bufferInc, length, 0);
    DstNext(dstStart, dstInc, dstLength, 0);
    ghost var ring, before := circBuffer[..], dst[..];
    NothingMoved(ring, readOffset, bufferInc, length, before, dstBase, dstStart, dstInc, dstLength);
    ghost var values := Gathered(ring, readOffset, bufferInc, length, 0);
    var rOffset := readOffset;
    var p := dstBase + dstStart;
    var dstEnd := dstBase + dstLength;
    var i := blockSize;
    while i > 0
      invariant 0 <= i <= blockSize
      invariant rOffset == OffsetAfter(readOffset, bufferInc, length, blockSize - i)
      invariant p == dstBase + DstAfter(dstStart, dstInc, dstLength, blockSize - i)
      invariant values == Gathered(ring, readOffset, bufferInc, length, blockSize - i)
      invariant circBuffer[..] == ring
      invariant dst[..] == Scattered(before, dstBase, dstStart, dstInc, dstLength, values)
    {
      ghost var next := Gathered(ring, readOffset, bufferInc, length, blockSize - i + 1);
      OneMoved(ring, readOffset, bufferInc, length, before, dstBase, dstStart, dstInc, dstLength, blockSize - i);
      OffsetNext(readOffset, bufferInc, length, blockSize - i);
      DstNext(dstStart, dstInc, dstLength, blockSize - i);
      dst[p] := circBuffer[rOffset];
      values := next;
      p := p + dstInc;
      if p == dstEnd {
        p := dstBase;
      }
      rOffset := ToI32(rOffset + bufferInc);
      if rOffset >= length {
        rOffset := ToI32(rOffset - length);
      }
      i := i - 1;
    }
    BlockMoved(ring, readOffset, bufferInc, length, before, dstBase, dstStart, dstInc, dstLength, blockSize);
    readOffset' := rOffset;
  }

  lemma PositionsInside(start: int, inc: int, len: int, n: nat)
    requires 0 <= start < len && 0 < inc && len % inc == 0 && start % inc == 0
    ensures forall k :: 0 <= k < n ==> 0 <= DstAfter(start, inc, len, k) < len
  {
    forall k | 0 <= k < n
      ensures 0 <= DstAfter(start, inc, len, k) < len
    {
      DstStays(start, inc, len, k);
    }
  }

  lemma PositionsDiffer(start: int, inc: int, len: int, k: nat, n: nat)
    requires 0 <= start < len && 0 < inc && len % inc == 0 && start % inc == 0
    requires k < n && (n + 1) * inc <= len
    ensures DstAfter(start, inc, len, k) != DstAfter(start, inc, len, n)
  {
    DstIsModulo(start, inc, len, k);
    DstIsModulo(start, inc, len, n);
    hide DstAfter;
    Spread(inc, k, n, len);
    OffsetsDiffer(start + k * inc, start + n * inc, len);
  }

  /** A block no longer than the destination lands without overwriting itself. */
  lemma {:induction false} ScatteredKeeps<T>(dst: seq<T>, base: int, start: int, inc: int, len: int, values: seq<T>, k: nat)
    requires 0 <= base && base + len <= |dst| && k < |values|
    requires 0 <= start < len && 0 < inc && len % inc == 0 && start % inc == 0 && |values| * inc <= len
    requires forall j :: 0 <= j < |values| ==> 0 <= DstAfter(start, inc, len, j) < len
    ensures Scattered(dst, base, start, inc, len, values)[base + DstAfter(start, inc, len, k)] == values[k]
    decreases |values|
  {
    var n := |values| - 1;
    if k < n {
      hide DstAfter;
      assert n * inc <= |values| * inc by { MulMono(n, |values|, inc); }
      ScatteredKeeps(dst, base, start, inc, len, values[..n], k);
      PositionsDiffer(start, inc, len, k, n);
    }
  }

  /** The destination geometry under which n values stay inside and do not overwrite each other. */
  predicate LandsInside(start: int, inc: int, len: int, n: nat)
    ensures LandsInside(start, inc, len, n) ==> 0 <= start < len
  {
    0 <= start < len && 0 < inc && len % inc == 0 && start % inc == 0 && n * inc <= len
  }

  /** Then the k-th value is found k increments after the start, modulo the length. */
  lemma ScatteredBlock<T>(dst: seq<T>, base: int, start: int, inc: int, len: int, values: seq<T>)
    requires 0 <= base && base + len <= |dst|
    requires LandsInside(start, inc, len, |values|)
    ensures forall k :: 0 <= k < |values| ==> 0 <= DstAfter(start, inc, len, k) < len
    ensures forall k :: 0 <= k < |values| ==>
              var place := base + (start + k * inc) % len;
              Scattered(dst, base, start, inc, len, values)[place] == values[k]
  {
    PositionsInside(start, inc, len, |values|);
    forall k | 0 <= k < |values|
      ensures var place := base + (start + k * inc) % len;
              Scattered(dst, base, start, inc, len, values)[place] == values[k]
    {
      ScatteredKeeps(dst, base, start, inc, len, values, k);
      DstIsModulo(start, inc, len, k);
    }
  }

  // ---- A delay line: unit increments on a ring that survives the 16-bit offset ----

  function Ring(x: int, length: i32): (r: int)
    requires 0 < length
    ensures 0 <= r < length
  {
    x % length
  }

  /** The ring holds the last length samples, each at its position modulo length. */
  predicate HoldsLast<T(==)>(buf: seq<T>, origin: nat, length: i32, stream: seq<T>)
    requires 0 < length <= |buf|
  {
    forall j :: 0 <= j < |stream| && |stream| - length <= j ==> buf[Ring(origin + j, length)] == stream[j]
  }

  lemma HoldsNext<T>(buf: seq<T>, origin: nat, length: i32, stream: seq<T>, sample: T)
    requires 0 < length <= |buf| && HoldsLast(buf, origin, length, stream)
    ensures HoldsLast(buf[Ring(origin + |stream|, length) := sample], origin, length, stream + [sample])
  {
    var buf', stream' := buf[Ring(origin + |stream|, length) := sample], stream + [sample];
    forall j | 0 <= j < |stream'| && |stream'| - length <= j
      ensures buf'[Ring(origin + j, length)] == stream'[j]
    {
      if j < |stream| {
        OffsetsDiffer(origin + j, origin + |stream|, length);
      }
    }
  }

  lemma {:induction false} HoldsAfterBlock<T>(buf: seq<T>, origin: nat, length: i32, stream: seq<T>, samples: seq<T>)
    requires 0 < length <= |buf| && HoldsLast(buf, origin, length, stream)
    ensures Inside(|buf|, Ring(origin + |stream|, length), 1, length, |samples|)
    ensures HoldsLast(Stored(buf, Ring(origin + |stream|, length), 1, length, samples), origin, length, stream + samples)
    decreases |samples|
  {
    OffsetsInside(|buf|, Ring(origin + |stream|, length), 1, length, |samples|);
    if samples == [] {
      assert stream + samples == stream;
    } else {
      var n := |samples| - 1;
      var offset := Ring(origin + |stream|, length);
      HoldsAfterBlock(buf, origin, length, stream, samples[..n]);
      HoldsNext(Stored(buf, offset, 1, length, samples[..n]), origin, length, stream + samples[..n], samples[n]);
      assert stream + samples[..n] + [samples[n]] == stream + samples;
      OffsetAdds(origin + |stream|, length, n);
    }
  }

  /** Stepping n times by one from a reduced position is reducing the stepped position. */
  lemma OffsetAdds(x: nat, length: i32, n: nat)
    requires 0 < length
    ensures OffsetAfter(Ring(x, length), 1, length, n) == Ring(x + n, length)
  {
    hide OffsetAfter;
    var q, o := x / length, x % length;
    OffsetIsModulo(o, 1, length, n);
    ModShift(o + n, q, length);
    assert x + n == o + n + q * length;
  }

  lemma RingAdds(x: nat, length: i32, n: nat)
    requires 0 < length
    ensures Ring(Ring(x, length) + n, length) == Ring(x + n, length)
  {
    var q, o := x / length, x % length;
    ModShift(o + n, q, length);
    assert x + n == o + n + q * length;
  }

  /** An offset in a ring of at most 2^16 survives the 16-bit store. */
  lemma RingFits(x: int, length: i32)
    requires 0 < length <= 0x1_0000
    ensures Ring(x, length) % 0x1_0000 == Ring(x, length)
  {
    hide Ring;
  }

  /** Reading n samples from d behind the writer gives the samples written d ago, in order. */
  lemma {:induction false} GatheredIsDelayed<T>(buf: seq<T>, origin: nat, length: i32, stream: seq<T>, d: nat, n: nat)
    requires 0 < length <= |buf| && HoldsLast(buf, origin, length, stream)
    requires n <= d <= length && d <= |stream|
    ensures Inside(|buf|, Ring(origin + |stream| - d, length), 1, length, n)
    ensures Gathered(buf, Ring(origin + |stream| - d, length), 1, length, n) == stream[|stream| - d..|stream| - d + n]
  {
    OffsetsInside(|buf|, Ring(origin + |stream| - d, length), 1, length, n);
    if n != 0 {
      GatheredIsDelayed(buf, origin, length, stream, d, n - 1);
      OffsetAdds(origin + |stream| - d, length, n - 1);
      var from := |stream| - d;
      assert buf[Ring(origin + (from + n - 1), length)] == stream[from + n - 1];
      assert stream[from..from + n] == stream[from..from + n - 1] + [stream[from + n - 1]];
    }
  }

  class Line<T(==)> {
    const circBuffer: array<T>
    const length: i32
    var writeOffset: u16
    ghost const origin: nat
    ghost var stream: seq<T>

    ghost predicate Valid()
      reads this, circBuffer
    {
      && 0 < length <= circBuffer.Length && length <= 0x1_0000
      && writeOffset == Ring(origin + |stream|, length)
      && HoldsLast(circBuffer[..], origin, length, stream)
    }

    constructor (circBuffer: array<T>, length: i32, writeOffset: u16)
      requires 0 <= writeOffset < length <= circBuffer.Length && length <= 0x1_0000
      ensures Valid() && this.circBuffer == circBuffer && this.length == length
      ensures this.writeOffset == writeOffset && stream == []
    {
      this.circBuffer, this.length, this.writeOffset := circBuffer, length, writeOffset;
      origin, stream := writeOffset, [];
      DivModUnique(writeOffset, length, 0, writeOffset);
    }

    /** Any sequence of block writes keeps the last length samples and an offset that fits 16 bits. */
    method Write(src: array<T>, srcStart: int, srcInc: int, blockSize: nat)
      requires Valid() && src != circBuffer
      requires forall k :: 0 <= k < blockSize ==> 0 <= Place(srcStart, srcInc, k) < src.Length
      modifies circBuffer, `writeOffset, `stream
      ensures Valid()
      ensures stream == old(stream) + Strided(src[..], srcStart, srcInc, blockSize)
      ensures |stream| == |old(stream)| + blockSize && stream[..|old(stream)|] == old(stream)
      ensures forall k :: 0 <= k < blockSize ==>
                var i := srcStart + k * srcInc;
                0 <= i < src.Length && stream[|old(stream)| + k] == src[i]
      ensures writeOffset == (old(writeOffset) + blockSize) % length
      ensures forall j :: 0 <= j < |stream| && |stream| - length <= j ==> circBuffer[(origin + j) % length] == stream[j]
    {
      hide Stored, OffsetAfter, Inside, Strided, Place;
      ghost var samples := Strided(src[..], srcStart, srcInc, blockSize);
      HoldsAfterBlock(circBuffer[..], origin, length, stream, samples);
      OffsetAdds(origin + |stream|, length, blockSize);
      RingAdds(origin + |stream|, length, blockSize);
      RingFits(origin + |stream| + blockSize, length);
      writeOffset := CircularWrite(circBuffer, length, writeOffset, 1, src, srcStart, srcInc, blockSize);
      stream := stream + samples;
      forall k | 0 <= k < blockSize
        ensures var i := srcStart + k * srcInc;
                0 <= i < src.Length && stream[|old(stream)| + k] == src[i]
      {
        StridedIs(src[..], srcStart, srcInc, blockSize, k);
      }
    }

    /** A block read started d behind the writer delivers the samples written d ago, in order;
        the offset it leaves is d - blockSize behind. */
    method Read(readOffset: int, d: nat, dst: array<T>, dstStart: int, dstBase: int, dstLength: int, dstInc: int,
                blockSize: nat)
        returns (readOffset': i32)
      requires Valid() && dst != circBuffer
      requires blockSize <= d <= length && d <= |stream| && readOffset == Ring(origin + |stream| - d, length)
      requires forall k :: 0 <= k < blockSize ==> 0 <= dstBase + DstAfter(dstStart, dstInc, dstLength, k) < dst.Length
      modifies dst
      ensures Valid()
      ensures dst[..] == Scattered(old(dst[..]), dstBase, dstStart, dstInc, dstLength,
                                   stream[|stream| - d..|stream| - d + blockSize])
      ensures 0 <= dstBase && dstBase + dstLength <= dst.Length && 0 <= dstStart < dstLength
              && 0 < dstInc && dstLength % dstInc == 0 && dstStart % dstInc == 0 && blockSize * dstInc <= dstLength ==>
                forall k :: 0 <= k < blockSize ==>
                  var place := dstBase + (dstStart + k * dstInc) % dstLength;
                  dst[place] == stream[|stream| - d + k]
      ensures readOffset' == (origin + |stream| - d + blockSize) % length
    {
      hide Scattered, Gathered, OffsetAfter, DstAfter, HoldsLast, Inside;
      ghost var before, values := dst[..], stream[|stream| - d..|stream| - d + blockSize];
      GatheredIsDelayed(circBuffer[..], origin, length, stream, d, blockSize);
      OffsetAdds(origin + |stream| - d, length, blockSize);
      readOffset' := CircularRead(circBuffer, length, readOffset, 1, dst, dstStart, dstBase, dstLength, dstInc, blockSize);
      if 0 <= dstBase && dstBase + dstLength <= dst.Length && LandsInside(dstStart, dstInc, dstLength, blockSize) {
        ScatteredBlock(before, dstBase, dstStart, dstInc, dstLength, values);
      }
    }
  }
}
