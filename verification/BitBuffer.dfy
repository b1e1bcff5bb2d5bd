/** Byte buffers seen as sequences of bits, least significant bit of each byte first. */
module BitBuffer {
  import opened PyInt

  type byte = x: int | 0 <= x < 256

  datatype Option<+T> = None | Some(value: T)

  function Bits(buffer: seq<byte>): (r: seq<bool>)
    ensures |r| == 8 * |buffer|
  {
    seq(8 * |buffer|, i requires 0 <= i < 8 * |buffer| => Bit(buffer[i / 8], i % 8))
  }

  /** The `n` low bits of `x`, lowest first; for a negative `x`, of its two's complement. */
  function Field(x: int, n: nat): (r: seq<bool>)
    ensures |r| == n
  {
    seq(n, i requires 0 <= i < n => Bit(x, i))
  }

  /** The natural number a bit string spells, lowest bit first. */
  function Val(bits: seq<bool>): nat {
    if |bits| == 0 then 0 else (if bits[0] then 1 else 0) + 2 * Val(bits[1..])
  }

  function Zeros(n: nat): (r: seq<bool>)
    ensures |r| == n
  {
    seq(n, _ => false)
  }

  function ZeroBytes(n: nat): (r: seq<byte>)
    ensures |r| == n
  {
    seq(n, _ => 0)
  }

  /** `bits` with `field` written over positions `[at, at + |field|)`. */
  function Splice(bits: seq<bool>, at: nat, field: seq<bool>): (r: seq<bool>)
    requires at + |field| <= |bits|
    ensures |r| == |bits|
  {
    bits[..at] + field + bits[at + |field|..]
  }

  /** Zero bytes appended until there are at least `n` bytes. */
  function Grown(buffer: seq<byte>, n: nat): (r: seq<byte>)
    ensures |r| == if n > |buffer| then n else |buffer|
  {
    if n > |buffer| then buffer + ZeroBytes(n - |buffer|) else buffer
  }

  function CeilBytes(bits: nat): nat {
    (bits + 7) / 8
  }

  function Min(a: nat, b: nat): nat {
    if a < b then a else b
  }

  // ---------- numbers and their bits ----------

  lemma {:induction false} ValField(x: int, n: nat)
    ensures Val(Field(x, n)) == Low(x, n)
    decreases n
  {
    if n > 0 {
      assert Field(x, n)[1..] == Field(x / 2, n - 1);
      ValField(x / 2, n - 1);
    }
  }

  lemma {:induction false} FieldVal(bits: seq<bool>)
    ensures Field(Val(bits), |bits|) == bits
  {
    if |bits| > 0 {
      FieldVal(bits[1..]);
      var v := Val(bits);
      assert v / 2 == Val(bits[1..]);
      forall i | 0 <= i < |bits|
        ensures Field(v, |bits|)[i] == bits[i]
      {
        if i > 0 {
          assert Field(v / 2, |bits| - 1)[i - 1] == bits[1..][i - 1];
        }
      }
    }
  }

  lemma ValRange(bits: seq<bool>)
    ensures Val(bits) < Pow2(|bits|)
  {
    FieldVal(bits);
    ValField(Val(bits), |bits|);
    LowRange(Val(bits), |bits|);
  }

  /** Reading any integer whose bits on `[0, n)` are known. */
  lemma LowFromBits(x: int, bits: seq<bool>)
    requires forall i: nat | i < |bits| :: Bit(x, i) == bits[i]
    ensures Low(x, |bits|) == Val(bits)
  {
    ValField(x, |bits|);
    assert Field(x, |bits|) == bits;
  }

  lemma FieldOfLow(x: int, n: nat)
    ensures Field(Low(x, n), n) == Field(x, n)
  {
    forall i: nat | i < n
      ensures Bit(Low(x, n), i) == Bit(x, i)
    {
      BitLow(x, n, i);
    }
  }

  // ---------- bytes and their bits ----------

  lemma BitsOfByte(b: byte)
    ensures Bits([b]) == Field(b, 8)
    ensures Val(Field(b, 8)) == b
  {
    hide Bit;
    assert Pow2(8) == 256;
    ValField(b, 8);
    LowSmall(b, 8);
  }

  lemma BitsConcat(a: seq<byte>, b: seq<byte>)
    ensures Bits(a + b) == Bits(a) + Bits(b)
  {
    hide Bit;
    forall i | 0 <= i < 8 * |a + b|
      ensures Bits(a + b)[i] == (Bits(a) + Bits(b))[i]
    {
    }
  }

  lemma BitsSlice(buffer: seq<byte>, lo: nat, hi: nat)
    requires lo <= hi <= |buffer|
    ensures Bits(buffer[lo..hi]) == Bits(buffer)[8 * lo..8 * hi]
  {
    hide Bit;
    forall i | 0 <= i < 8 * (hi - lo)
      ensures Bits(buffer[lo..hi])[i] == Bits(buffer)[8 * lo..8 * hi][i]
    {
      assert (8 * lo + i) / 8 == lo + i / 8;
    }
  }

  lemma BitsAt(buffer: seq<byte>, p: nat, j: nat)
    requires p < |buffer| && j < 8
    ensures Bits(buffer)[8 * p + j] == Bit(buffer[p], j)
  {
    assert (8 * p + j) / 8 == p;
  }

  lemma BitsZero(n: nat)
    ensures Bits(ZeroBytes(n)) == Zeros(8 * n)
  {
    forall i | 0 <= i < 8 * n
      ensures !Bits(ZeroBytes(n))[i]
    {
      BitOfZero(i % 8);
    }
  }

  lemma BitsGrown(buffer: seq<byte>, n: nat)
    ensures Bits(Grown(buffer, n)) == Bits(buffer) + Zeros(8 * (|Grown(buffer, n)| - |buffer|))
  {
    if n > |buffer| {
      BitsConcat(buffer, ZeroBytes(n - |buffer|));
      BitsZero(n - |buffer|);
    }
  }

  /** A buffer is determined by its bits. */
  lemma BitsInjective(a: seq<byte>, b: seq<byte>)
    requires Bits(a) == Bits(b)
    ensures a == b
  {
    assert 8 * |a| == 8 * |b|;
    forall p | 0 <= p < |a|
      ensures a[p] == b[p]
    {
      BitsOfByte(a[p]);
      BitsOfByte(b[p]);
      forall j: nat | j < 8
        ensures Bit(a[p], j) == Bit(b[p], j)
      {
        BitsAt(a, p, j);
        BitsAt(b, p, j);
      }
      assert Field(a[p], 8) == Field(b[p], 8);
    }
  }

  // ---------- read-modify-write of single bytes ----------

  /** Byte `p` of a buffer after `field` was written from bit `start` of the buffer on. */
  ghost predicate ByteWritten(before: byte, after: byte, p: nat, start: nat, field: seq<bool>) {
    forall j: nat | j < 8 ::
      Bit(after, j) == if start <= 8 * p + j < start + |field| then field[8 * p + j - start] else Bit(before, j)
  }

  /** Byte by byte, a write amounts to one splice of the bit string. */
  lemma WrittenIsSplice(before: seq<byte>, after: seq<byte>, start: nat, field: seq<bool>)
    requires |before| == |after| && start + |field| <= 8 * |before|
    requires forall p | 0 <= p < |before| :: ByteWritten(before[p], after[p], p, start, field)
    ensures Bits(after) == Splice(Bits(before), start, field)
  {
    hide Bit;
    forall i | 0 <= i < 8 * |before|
      ensures Bits(after)[i] == Splice(Bits(before), start, field)[i]
    {
      var p, j := i / 8, i % 8;
      assert ByteWritten(before[p], after[p], p, start, field);
      assert 8 * p + j == i;
    }
  }

  lemma Untouched(b: byte, p: nat, start: nat, field: seq<bool>)
    requires 8 * p + 8 <= start || start + |field| <= 8 * p
    ensures ByteWritten(b, b, p, start, field)
  {
  }

  // ---------- splices ----------

  lemma SpliceWithin(bits: seq<bool>, at: nat, field: seq<bool>)
    requires at + |field| <= |bits|
    ensures Splice(bits, at, field)[at..at + |field|] == field
    ensures Splice(bits, at, field)[..at] == bits[..at]
    ensures Splice(bits, at, field)[at + |field|..] == bits[at + |field|..]
  {
  }

  /** Two adjacent splices are one. */
  lemma SpliceTwice(bits: seq<bool>, at: nat, a: seq<bool>, b: seq<bool>)
    requires at + |a| + |b| <= |bits|
    ensures Splice(Splice(bits, at, a), at + |a|, b) == Splice(bits, at, a + b)
  {
  }

  lemma PrefixSlice(front: seq<bool>, whole: seq<bool>, lo: nat, hi: nat)
    requires front <= whole && lo <= hi <= |front|
    ensures whole[lo..hi] == front[lo..hi]
  {
  }
}
