/** Reading integers and byte strings back from arbitrary bit offsets. `None` stands for Python's `IndexError`. */
module Reading {
  import opened PyInt
  import opened BitBuffer
  import opened Converter

  // ---------- integers ----------

  /** `array[pos] | array[pos + 1] << 8 | ...` over `n` bytes. */
  function Join(buffer: seq<byte>, pos: nat, n: nat): int
    requires n >= 1 && pos + n <= |buffer|
    decreases n
  {
    if n == 1 then buffer[pos] else Or(Join(buffer, pos, n - 1), Shl(buffer[pos + n - 1], 8 * (n - 1)))
  }

  /** The common shape of `byteFromBits`, `ushortFromBits`, `uintFromBits` and `ulongFromBits`: `n` bytes are
      joined and shifted down, and an unaligned read takes its top bits from one more byte. */
  function IntFromBits(buffer: seq<byte>, n: nat, startBit: nat): Option<int>
    requires n >= 1
  {
    var pos, bit := startBit / 8, startBit % 8;
    if pos + n > |buffer| then None
    else if bit == 0 then Some(Join(buffer, pos, n))
    else if pos + n == |buffer| then None
    else Some(Or(Shr(Join(buffer, pos, n), bit), Shl(buffer[pos + n], 8 * n - bit)))
  }

  function ByteFromBits(buffer: seq<byte>, startBit: nat): Option<int> {
    IntFromBits(buffer, 1, startBit)
  }

  function UshortFromBits(buffer: seq<byte>, startBit: nat): Option<int> {
    match IntFromBits(buffer, 2, startBit)
    case None => None
    case Some(v) => Some(And(v, 0xffff))
  }

  function GetBits(amount: nat, buffer: seq<byte>, startBit: nat): Option<int> {
    var bitfield :=
      if amount <= 8 then ByteFromBits(buffer, startBit)
      else if amount <= 16 then UshortFromBits(buffer, startBit)
      else if amount <= 32 then IntFromBits(buffer, 4, startBit)
      else if amount <= 64 then IntFromBits(buffer, 8, startBit)
      else Some(0);
    match bitfield
    case None => None
    case Some(v) => Some(And(v, Pow2(amount) - 1))
  }

  lemma {:induction false} JoinBit(buffer: seq<byte>, pos: nat, n: nat, t: nat)
    requires n >= 1 && pos + n <= |buffer|
    ensures Bit(Join(buffer, pos, n), t) == (t < 8 * n && Bits(buffer)[8 * pos + t])
    decreases n
  {
    hide Bit, Or, Shl;
    var top := pos + n - 1;
    if t >= 8 * n {
      BitHigh(buffer[top], t - 8 * (n - 1));
    } else if t >= 8 * (n - 1) {
      BitsAt(buffer, top, t - 8 * (n - 1));
    }
    if n > 1 {
      JoinBit(buffer, pos, n - 1, t);
      BitOr(Join(buffer, pos, n - 1), Shl(buffer[top], 8 * (n - 1)), t);
      BitShl(buffer[top], 8 * (n - 1), t);
    }
  }

  /** A read of `n` bytes at `startBit` succeeds exactly when the bytes it touches exist, and its low `8 * n`
      bits are the buffer's. */
  lemma IntFromBitsBit(buffer: seq<byte>, n: nat, startBit: nat, t: nat)
    requires n >= 1
    ensures IntFromBits(buffer, n, startBit).Some? <==> CeilBytes(startBit + 8 * n) <= |buffer|
    ensures IntFromBits(buffer, n, startBit).Some? && t < 8 * n ==>
              Bit(IntFromBits(buffer, n, startBit).value, t) == Bits(buffer)[startBit + t]
  {
    hide Bit, And, Or, Shl, Shr, Join;
    var pos, bit := startBit / 8, startBit % 8;
    if IntFromBits(buffer, n, startBit).Some? && t < 8 * n {
      if bit == 0 {
        JoinBit(buffer, pos, n, t);
      } else {
        var j := Join(buffer, pos, n);
        BitOr(Shr(j, bit), Shl(buffer[pos + n], 8 * n - bit), t);
        BitShr(j, bit, t);
        BitShl(buffer[pos + n], 8 * n - bit, t);
        JoinBit(buffer, pos, n, t + bit);
        if t >= 8 * n - bit {
          BitsAt(buffer, pos + n, t + bit - 8 * n);
        }
      }
    }
  }

  lemma IntFromBitsLow(buffer: seq<byte>, n: nat, startBit: nat, k: nat)
    requires n >= 1 && k <= 8 * n
    ensures IntFromBits(buffer, n, startBit).Some? <==> CeilBytes(startBit + 8 * n) <= |buffer|
    ensures IntFromBits(buffer, n, startBit).Some? ==>
              Low(IntFromBits(buffer, n, startBit).value, k) == Val(Bits(buffer)[startBit..startBit + k])
  {
    hide Bit, And, Or, Shl, Shr, Low, Val, IntFromBits;
    IntFromBitsBit(buffer, n, startBit, 0);
    if IntFromBits(buffer, n, startBit).Some? {
      var v := IntFromBits(buffer, n, startBit).value;
      forall t: nat | t < k
        ensures Bit(v, t) == Bits(buffer)[startBit..startBit + k][t]
      {
        IntFromBitsBit(buffer, n, startBit, t);
      }
      LowFromBits(v, Bits(buffer)[startBit..startBit + k]);
    }
  }

  /** `ushortFromBits` reads the 16 bits at its position. */
  lemma UshortValue(buffer: seq<byte>, startBit: nat)
    ensures UshortFromBits(buffer, startBit).Some? <==> CeilBytes(startBit + 16) <= |buffer|
    ensures UshortFromBits(buffer, startBit).Some? ==>
              UshortFromBits(buffer, startBit).value == Val(Bits(buffer)[startBit..startBit + 16])
  {
    IntFromBitsLow(buffer, 2, startBit, 16);
    if UshortFromBits(buffer, startBit).Some? {
      Pow2Values();
      AndMask(IntFromBits(buffer, 2, startBit).value, 16);
    }
  }

  lemma UshortLow(buffer: seq<byte>, startBit: nat, k: nat)
    requires k <= 16 && UshortFromBits(buffer, startBit).Some?
    ensures startBit + 16 <= 8 * |buffer|
    ensures Low(UshortFromBits(buffer, startBit).value, k) == Val(Bits(buffer)[startBit..startBit + k])
  {
    var v := IntFromBits(buffer, 2, startBit).value;
    IntFromBitsLow(buffer, 2, startBit, k);
    Pow2Values();
    AndMask(v, 16);
    LowLow(v, 16, k);
  }

  /** `getBits` reads a field of up to 64 bits, provided the whole width of the routine it picks is there. Of a wider
      field it makes zero, whatever the buffer. */
  lemma GetBitsValue(amount: nat, buffer: seq<byte>, startBit: nat)
    ensures amount <= 64 ==>
      (GetBits(amount, buffer, startBit).Some? <==> CeilBytes(startBit + RoutineWidth(amount)) <= |buffer|)
    ensures amount <= 64 && GetBits(amount, buffer, startBit).Some? ==>
              GetBits(amount, buffer, startBit).value == Val(Bits(buffer)[startBit..startBit + amount])
    ensures amount > 64 ==> GetBits(amount, buffer, startBit) == Some(0)
  {
    hide Bit, And, Or, Shl, Shr, Join, Low, Val;
    if amount > 64 {
      AndMask(0, amount);
      LowSmallZero(amount);
      return;
    }
    var n := RoutineWidth(amount) / 8;
    IntFromBitsLow(buffer, n, startBit, amount);
    if GetBits(amount, buffer, startBit).Some? {
      if n == 2 {
        UshortLow(buffer, startBit, amount);
        AndMask(UshortFromBits(buffer, startBit).value, amount);
      } else {
        AndMask(IntFromBits(buffer, n, startBit).value, amount);
      }
    }
  }

  lemma LowSmallZero(n: nat)
    ensures Low(0, n) == 0
  {
    Pow2Step(n);
    LowSmall(0, n);
  }

  lemma {:induction false} LowLow(x: int, m: nat, n: nat)
    requires n <= m
    ensures Low(Low(x, m), n) == Low(x, n)
    decreases n
  {
    if n > 0 {
      assert Low(x, m) / 2 == Low(x / 2, m - 1);
      LowLow(x / 2, m - 1, n - 1);
    }
  }

  /** Reading undoes the 16-bit write, modulo 65536, wherever the bits that shine through are zero; the write needs just
      the bytes that the read touches. */
  lemma UshortRoundTrip(before: seq<byte>, after: seq<byte>, startBit: nat, value: int)
    requires UshortEnd(startBit) <= |before| && Bits(after) == UshortWritten(before, startBit, value)
    requires startBit % 8 > 0 ==> forall i | startBit <= i < 8 * (startBit / 8 + 1) :: !Bits(before)[i]
    ensures UshortEnd(startBit) == CeilBytes(startBit + 16)
    ensures UshortFromBits(after, startBit) == Some(value % 0x1_0000)
    ensures forall i | 0 <= i < startBit :: Bits(after)[i] == Bits(before)[i]
  {
    hide Bit, Bits, UshortField, UshortFromBits, Low, Val;
    if startBit % 8 > 0 {
      UshortOverZeros(before, startBit, value);
    }
    assert 8 * |after| == |Bits(after)|;
    UshortValue(after, startBit);
    assert Bits(after)[startBit..startBit + 16] == Field(value, 16);
    ValField(value, 16);
    LowIsMod(value, 16);
    Pow2Values();
  }

  // ---------- byte strings ----------

  /** The two bytes an unaligned read combines: `(low >> bit) | (high << (8 - bit)) & 0xff`. */
  function Straddle(low: byte, high: byte, bit: nat): byte
    requires 0 < bit < 8
  {
    StraddleRange(low, high, bit);
    Or(Shr(low, bit), And(Shl(high, 8 - bit), 255))
  }

  lemma StraddleBit(low: byte, high: byte, bit: nat, j: nat)
    requires 0 < bit < 8
    ensures Bit(Or(Shr(low, bit), And(Shl(high, 8 - bit), 255)), j) ==
            (j < 8 && if j + bit < 8 then Bit(low, j + bit) else Bit(high, j + bit - 8))
  {
    BitOr(Shr(low, bit), And(Shl(high, 8 - bit), 255), j);
    BitShr(low, bit, j);
    BitByte(Shl(high, 8 - bit), j);
    BitShl(high, 8 - bit, j);
    if j + bit >= 8 {
      BitHigh(low, j + bit);
    }
  }

  lemma StraddleRange(low: byte, high: byte, bit: nat)
    requires 0 < bit < 8
    ensures 0 <= Or(Shr(low, bit), And(Shl(high, 8 - bit), 255)) < 256
  {
    var r := Or(Shr(low, bit), And(Shl(high, 8 - bit), 255));
    forall j: nat
      ensures Bit(r, j) == Bit(Low(r, 8), j)
    {
      StraddleBit(low, high, bit, j);
      BitLow(r, 8, j);
    }
    SameBits(r, Low(r, 8));
    assert Pow2(8) == 256;
    LowRange(r, 8);
  }

  /** `n` bytes from bit `startBit` on, the missing bits past the end of the buffer read as zeros. */
  ghost predicate BytesRead(buffer: seq<byte>, n: nat, startBit: nat, r: seq<byte>) {
    && |r| == n
    && startBit <= 8 * |buffer|
    && Bits(r) == (Bits(buffer)[startBit..] + Zeros(8 * n))[..8 * n]
  }

  /** The byte an unaligned read of nothing returns: the one up to the position, filled up with what follows, where
      what comes before the first byte is the last one. */
  function ByteAround(buffer: seq<byte>, startBit: nat): byte
    requires startBit % 8 > 0 && |buffer| > 0 && startBit / 8 <= |buffer|
  {
    var p := startBit / 8;
    Straddle(if p == 0 then buffer[|buffer| - 1] else buffer[p - 1],
             if p < |buffer| then buffer[p] else 0, startBit % 8)
  }

  /** `count` is in bits. Aligned reads are slices and never fail. */
  method BytesFromBits(buffer: seq<byte>, count: nat, startBit: nat) returns (r: Option<seq<byte>>)
    ensures startBit % 8 == 0 && startBit / 8 + CeilBytes(count) <= |buffer| ==>
              r.Some? && BytesRead(buffer, CeilBytes(count), startBit, r.value)
    ensures startBit % 8 == 0 && startBit / 8 + CeilBytes(count) > |buffer| ==>
              r == Some(if startBit / 8 <= |buffer| then buffer[startBit / 8..] else [])
    ensures startBit % 8 > 0 && count > 0 ==> (r.Some? <==> startBit / 8 + CeilBytes(count) <= |buffer|)
    ensures startBit % 8 > 0 && count > 0 && r.Some? ==> BytesRead(buffer, CeilBytes(count), startBit, r.value)
    ensures startBit % 8 > 0 && count == 0 ==> (r.Some? <==> |buffer| > 0 && startBit / 8 <= |buffer|)
    ensures startBit % 8 > 0 && count == 0 && r.Some? ==> r.value == [ByteAround(buffer, startBit)]
  {
    hide Bit, And, Or, Shl, Shr;
    var pos, bit := startBit / 8, startBit % 8;
    var byteCount := CeilBytes(count);
    if bit == 0 {
      var lo := if pos < |buffer| then pos else |buffer|;
      var hi := if pos + byteCount < |buffer| then pos + byteCount else |buffer|;
      SliceRead(buffer, byteCount, startBit, buffer[lo..hi]);
      assert pos + byteCount > |buffer| ==> buffer[lo..hi] == if pos <= |buffer| then buffer[pos..] else [];
      return Some(buffer[lo..hi]);
    }
    var val: seq<byte> := [];
    var i := 0;
    while i + 1 < byteCount
      invariant if byteCount > 0 then i < byteCount else i == 0
      invariant |val| == i
      invariant i > 0 ==> pos + i < |buffer|
      invariant forall k | 0 <= k < i ::
        pos + k + 1 < |buffer| && val[k] == Straddle(buffer[pos + k], buffer[pos + k + 1], bit)
    {
      if pos + i + 1 >= |buffer| {
        return None;
      }
      val := val + [Straddle(buffer[pos + i], buffer[pos + i + 1], bit)];
      i := i + 1;
    }
    // With no byte asked for at position 0, Python's index -1 is the last byte.
    var last := if pos + byteCount == 0 then |buffer| - 1 else pos + byteCount - 1;
    if last < 0 || last >= |buffer| {
      return None;
    }
    if |buffer| > pos + byteCount {
      val := val + [Straddle(buffer[last], buffer[pos + byteCount], bit)];
    } else {
      LastStraddle(buffer[last], bit);
      val := val + [And(Shr(buffer[last], bit), 255)];
    }
    if byteCount > 0 {
      StraddledBits(buffer, byteCount, startBit, val);
    }
    return Some(val);
  }

  /** It is made of the eight bits before the position; within the first byte, of the upper bits of the last byte and
      the bits before the position. */
  lemma ByteAroundBits(buffer: seq<byte>, startBit: nat, j: nat)
    requires startBit % 8 > 0 && |buffer| > 0 && startBit / 8 <= |buffer| && j < 8
    ensures startBit > 8 ==>
      Bit(ByteAround(buffer, startBit), j) == (startBit - 8 + j < 8 * |buffer| && Bits(buffer)[startBit - 8 + j])
    ensures startBit < 8 ==>
      Bit(ByteAround(buffer, startBit), j) ==
      Bits(buffer)[if startBit + j < 8 then 8 * (|buffer| - 1) + startBit + j else startBit + j - 8]
  {
    hide Bit, Straddle;
    var p, bit := startBit / 8, startBit % 8;
    if p > 0 {
      StraddledBit(buffer, p - 1, bit, j, ByteAround(buffer, startBit));
    } else {
      StraddleIs(buffer[|buffer| - 1], buffer[0], bit, j);
      BitsAt(buffer, |buffer| - 1, if startBit + j < 8 then startBit + j else 0);
      BitsAt(buffer, 0, if startBit + j < 8 then 0 else startBit + j - 8);
    }
  }

  lemma StraddleIs(low: byte, high: byte, bit: nat, j: nat)
    requires 0 < bit < 8 && j < 8
    ensures Bit(Straddle(low, high, bit), j) == if j + bit < 8 then Bit(low, j + bit) else Bit(high, j + bit - 8)
  {
    hide Bit;
    StraddleBit(low, high, bit, j);
  }

  lemma LastStraddle(b: byte, bit: nat)
    requires 0 < bit < 8
    ensures And(Shr(b, bit), 255) == Straddle(b, 0, bit)
  {
    forall j: nat
      ensures Bit(And(Shr(b, bit), 255), j) == Bit(Straddle(b, 0, bit), j)
    {
      StraddleBit(b, 0, bit, j);
      BitByte(Shr(b, bit), j);
      BitShr(b, bit, j);
      if j + bit >= 8 {
        BitOfZero(j + bit - 8);
        BitHigh(b, j + bit);
      }
    }
    SameBits(And(Shr(b, bit), 255), Straddle(b, 0, bit));
  }

  lemma SliceRead(buffer: seq<byte>, n: nat, startBit: nat, r: seq<byte>)
    requires startBit % 8 == 0
    requires startBit / 8 + n <= |buffer| ==> r == buffer[startBit / 8..startBit / 8 + n]
    ensures startBit / 8 + n <= |buffer| ==> BytesRead(buffer, n, startBit, r)
  {
    var p := startBit / 8;
    if p + n <= |buffer| {
      BitsSlice(buffer, p, p + n);
      assert Bits(buffer)[8 * p..8 * (p + n)] == (Bits(buffer)[startBit..] + Zeros(8 * n))[..8 * n];
    }
  }

  lemma StraddledBit(buffer: seq<byte>, p: nat, bit: nat, j: nat, b: byte)
    requires p < |buffer| && 0 < bit < 8 && j < 8
    requires b == Straddle(buffer[p], if p + 1 < |buffer| then buffer[p + 1] else 0, bit)
    ensures Bit(b, j) == (8 * p + bit + j < 8 * |buffer| && Bits(buffer)[8 * p + bit + j])
  {
    StraddleBit(buffer[p], if p + 1 < |buffer| then buffer[p + 1] else 0, bit, j);
    if j + bit < 8 {
      BitsAt(buffer, p, j + bit);
    } else if p + 1 < |buffer| {
      BitsAt(buffer, p + 1, j + bit - 8);
    } else {
      BitOfZero(j + bit - 8);
    }
  }

  lemma StraddledBits(buffer: seq<byte>, n: nat, startBit: nat, r: seq<byte>)
    requires n > 0 && startBit % 8 > 0 && startBit / 8 + n <= |buffer| && |r| == n
    requires forall k | 0 <= k < n ::
      r[k] == Straddle(buffer[startBit / 8 + k],
                       if startBit / 8 + k + 1 < |buffer| then buffer[startBit / 8 + k + 1] else 0, startBit % 8)
    ensures BytesRead(buffer, n, startBit, r)
  {
    hide Bit, And, Or, Shl, Shr;
    var rest := (Bits(buffer)[startBit..] + Zeros(8 * n))[..8 * n];
    forall i | 0 <= i < 8 * n
      ensures Bits(r)[i] == rest[i]
    {
      StraddledBit(buffer, startBit / 8 + i / 8, startBit % 8, i % 8, r[i / 8]);
      assert 8 * (startBit / 8 + i / 8) + startBit % 8 + i % 8 == startBit + i;
    }
  }

  /** `bytesFromBits` undoes `bytesToBits` at every bit offset where there is room, except that nothing at all, read
      back off a byte boundary, comes back as one byte or fails. `None` where either of them fails. */
  method BytesRoundTrip(value: seq<byte>, target: ByteArray, startBit: nat) returns (r: Option<seq<byte>>)
    modifies target
    ensures |target.bytes| == |old(target.bytes)|
    ensures CeilBytes(startBit + 8 * |value|) <= |target.bytes| ==>
              Bits(target.bytes) == Splice(Bits(old(target.bytes)), startBit, Bits(value))
    ensures CeilBytes(startBit + 8 * |value|) <= |target.bytes| && (startBit % 8 == 0 || |value| > 0) ==>
      r == Some(value)
    ensures CeilBytes(startBit + 8 * |value|) > |target.bytes| && |value| > 0 ==> r == None
    ensures startBit % 8 > 0 && |value| == 0 ==> r != Some(value)
  {
    hide Bits, Splice;
    ghost var before := target.bytes;
    var ok := BytesToBits(value, target, startBit);
    if !ok {
      return None;
    }
    assert Bits(value)[..8 * |value|] == Bits(value);
    r := BytesFromBits(target.bytes, 8 * |value|, startBit);
    if CeilBytes(startBit + 8 * |value|) <= |before| && (startBit % 8 == 0 || |value| > 0) {
      WrittenReadsBack(before, target.bytes, value, startBit, r.value);
    }
  }

  lemma WrittenReadsBack(before: seq<byte>, after: seq<byte>, value: seq<byte>, startBit: nat, r: seq<byte>)
    requires startBit + 8 * |value| <= 8 * |before|
    requires Bits(after) == Splice(Bits(before), startBit, Bits(value))
    requires BytesRead(after, |value|, startBit, r)
    ensures r == value
  {
    hide Bit, Bits;
    assert (Bits(after)[startBit..] + Zeros(8 * |value|))[..8 * |value|] ==
        Bits(after)[startBit..startBit + 8 * |value|];
    SpliceWithin(Bits(before), startBit, Bits(value));
    BitsInjective(r, value);
  }

  // ---------- lists of fields ----------

  /** One component of a packed list: an integer and the number of bits it gets. */
  datatype Component = Component(value: int, width: nat)

  predicate Packable(components: seq<Component>) {
    forall c | c in components :: c.width <= 64
  }

  function Packed(components: seq<Component>): seq<bool> {
    if |components| == 0 then []
    else
      var last := components[|components| - 1];
      Packed(components[..|components| - 1]) + Field(last.value, last.width)
  }

  /** The bytes a buffer must have for every one of the components, packed from bit 0, to be readable. */
  function BytesToRead(components: seq<Component>): nat
    requires Packable(components)
  {
    if |components| == 0 then 0
    else
      var front, last := components[..|components| - 1], components[|components| - 1];
      var here := CeilBytes(|Packed(front)| + RoutineWidth(last.width));
      if here > BytesToRead(front) then here else BytesToRead(front)
  }

  lemma {:induction false} PackedPrefix(components: seq<Component>, i: nat)
    requires Packable(components) && i < |components|
    ensures |Packed(components[..i])| + components[i].width <= |Packed(components)|
    ensures Packed(components)[|Packed(components[..i])|..|Packed(components[..i])| + components[i].width] ==
            Field(components[i].value, components[i].width)
    ensures CeilBytes(|Packed(components[..i])| + RoutineWidth(components[i].width)) <= BytesToRead(components)
  {
    hide Field, RoutineWidth;
    var front := components[..|components| - 1];
    if i < |front| {
      PackedPrefix(front, i);
      assert front[..i] == components[..i];
    }
  }

  /** Whatever else a buffer holds, a packed list at its start reads back component by component, each
      modulo 2 to its width. */
  lemma PackedReadsBack(buffer: seq<byte>, components: seq<Component>, i: nat)
    requires Packable(components) && i < |components|
    requires BytesToRead(components) <= |buffer| && Packed(components) <= Bits(buffer)
    ensures GetBits(components[i].width, buffer, |Packed(components[..i])|) ==
            Some(Low(components[i].value, components[i].width))
  {
    hide GetBits, Field, Bits, Bit;
    var at, c := |Packed(components[..i])|, components[i];
    PackedPrefix(components, i);
    PrefixSlice(Packed(components), Bits(buffer), at, at + c.width);
    FieldReadsBack(buffer, at, c.value, c.width);
  }

  lemma FieldReadsBack(buffer: seq<byte>, at: nat, value: int, width: nat)
    requires width <= 64 && CeilBytes(at + RoutineWidth(width)) <= |buffer|
    requires Bits(buffer)[at..at + width] == Field(value, width)
    ensures GetBits(width, buffer, at) == Some(Low(value, width))
  {
    GetBitsValue(width, buffer, at);
    ValField(value, width);
  }

  /** All components through consecutive `setBits` calls on any array: the packed list, then what there was. */
  method Pack(components: seq<Component>, target: ByteArray)
    requires Packable(components)
    modifies target
    ensures BytesToRead(components) <= |target.bytes|
    ensures Packed(components) <= Bits(target.bytes)
    ensures KeptBehind(old(target.bytes), target.bytes, |Packed(components)|)
  {
    var bitCounter := 0;
    for i := 0 to |components|
      invariant bitCounter == |Packed(components[..i])|
      invariant BytesToRead(components[..i]) <= |target.bytes|
      invariant Packed(components[..i]) <= Bits(target.bytes)
      invariant KeptBehind(old(target.bytes), target.bytes, bitCounter)
    {
      var c := components[i];
      assert components[..i + 1][..i] == components[..i];
      ghost var before := target.bytes;
      SetBits(c.value, c.width, target, bitCounter);
      StoreAppends(before, target.bytes, Packed(components[..i]), Field(c.value, c.width), RoutineWidth(c.width));
      bitCounter := bitCounter + c.width;
    }
    assert components[..|components|] == components;
  }

  /** All components back through consecutive `getBits` calls. */
  method Unpack(components: seq<Component>, buffer: seq<byte>) returns (values: seq<int>)
    requires Packable(components)
    requires BytesToRead(components) <= |buffer| && Packed(components) <= Bits(buffer)
    ensures |values| == |components|
    ensures forall i | 0 <= i < |components| :: values[i] == Low(components[i].value, components[i].width)
  {
    values := [];
    var bitCounter := 0;
    for i := 0 to |components|
      invariant bitCounter == |Packed(components[..i])|
      invariant |values| == i
      invariant forall k | 0 <= k < i :: values[k] == Low(components[k].value, components[k].width)
    {
      assert components[..i + 1][..i] == components[..i];
      PackedReadsBack(buffer, components, i);
      values := values + [GetBits(components[i].width, buffer, bitCounter).value];
      bitCounter := bitCounter + components[i].width;
    }
  }

  /** From bit `at` on, a buffer that may have grown holds what it held, then zeros. */
  ghost predicate KeptBehind(before: seq<byte>, after: seq<byte>, at: nat) {
    && |before| <= |after|
    && forall k | at <= k < 8 * |after| :: Bits(after)[k] == (k < 8 * |before| && Bits(before)[k])
  }

  /** Storing right behind what a buffer starts with lengthens that start and leaves the rest alone. */
  lemma StoreAppends(before: seq<byte>, after: seq<byte>, front: seq<bool>, field: seq<bool>, room: nat)
    requires |field| <= room && front <= Bits(before)
    requires Bits(after) == Stored(before, |front|, field, room)
    ensures front + field <= Bits(after)
    ensures CeilBytes(|front| + room) <= |after|
    ensures KeptBehind(before, after, |front| + |field|)
  {
    hide Bit, Field;
    forall k | 0 <= k < |Bits(after)|
      ensures Bits(after)[k] ==
              if |front| <= k < |front| + |field| then field[k - |front|] else k < 8 * |before| && Bits(before)[k]
    {
      StoredBits(before, |front|, field, room, k);
    }
  }
}
