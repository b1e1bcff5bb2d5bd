/** Reading and writing integers and byte strings at arbitrary bit offsets of a growing byte array. */
module Converter {
  import opened PyInt
  import opened BitBuffer

  /** Python's `bytearray`: mutable, growing at the end. */
  class ByteArray {
    var bytes: seq<byte>

    constructor (contents: seq<byte>)
      ensures bytes == contents
    {
      bytes := contents;
    }
  }

  // ---------- specification ----------

  /** The bits of `buffer` after `field` was stored from bit `start` on, the buffer first having been
      grown so that `room` bits fit there. */
  function Stored(buffer: seq<byte>, start: nat, field: seq<bool>, room: nat): (r: seq<bool>)
    requires |field| <= room
    ensures |r| == 8 * |Grown(buffer, CeilBytes(start + room))|
  {
    Splice(Bits(Grown(buffer, CeilBytes(start + room))), start, field)
  }

  /** The width of the fixed-size routine that handles a field of `amount` bits. */
  function RoutineWidth(amount: nat): (w: nat)
    requires amount <= 64
    ensures amount <= w <= 64
  {
    if amount <= 8 then 8 else if amount <= 16 then 16 else if amount <= 32 then 32 else 64
  }

  /** What a store changes: the field's own bits become the field, every bit there was before keeps its
      value, every bit gained is zero. */
  lemma StoredBits(buffer: seq<byte>, start: nat, field: seq<bool>, room: nat, i: nat)
    requires |field| <= room && i < |Stored(buffer, start, field, room)|
    ensures Stored(buffer, start, field, room)[i] ==
            if start <= i < start + |field| then field[i - start]
            else i < 8 * |buffer| && Bits(buffer)[i]
  {
    hide Bit;
    BitsGrown(buffer, CeilBytes(start + room));
  }

  // ---------- byte-level facts ----------

  /** The byte a read-modify-write line leaves: `(x | (was & keep)) & 0xff`. */
  function Merged(was: byte, x: int, keep: int): byte {
    AndByte(Or(x, And(was, keep)));
    And(Or(x, And(was, keep)), 255)
  }

  lemma BitByte(x: int, j: nat)
    ensures Bit(And(x, 255), j) == (j < 8 && Bit(x, j))
  {
    hide Bit, And;
    assert Pow2(8) == 256;
    BitAnd(x, 255, j);
    BitMask(8, j);
  }

  lemma BitHigh(b: byte, j: nat)
    requires j >= 8
    ensures !Bit(b, j)
  {
    assert Pow2(8) == 256;
    LowSmall(b, 8);
    BitLow(b, 8, j);
  }

  lemma MergedBit(was: byte, x: int, keep: int, j: nat)
    ensures Bit(Merged(was, x, keep), j) == (j < 8 && (Bit(x, j) || (Bit(was, j) && Bit(keep, j))))
  {
    hide And, Or, Shl, Shr, Bit;
    BitByte(Or(x, And(was, keep)), j);
    BitOr(x, And(was, keep), j);
    BitAnd(was, keep, j);
  }

  /** One line of `setBits8` to `setBits64`, for byte `p` of the array: the masked value and the inverted
      mask, both moved to that byte, merge the field in and keep everything else. */
  lemma MergedByte(was: byte, value: int, mask: int, amount: nat, start: nat, p: nat, x: int, keep: int)
    requires forall t: nat :: Bit(mask, t) == (t < amount)
    requires 8 * p >= start ==> x == Shr(And(value, mask), 8 * p - start) && keep == Not(Shr(mask, 8 * p - start))
    requires 8 * p < start ==> x == Shl(And(value, mask), start - 8 * p) && keep == Not(Shl(mask, start - 8 * p))
    ensures ByteWritten(was, Merged(was, x, keep), p, start, Field(value, amount))
  {
    hide And, Or, Shl, Shr, Bit, Merged;
    forall j: nat | j < 8
      ensures Bit(Merged(was, x, keep), j) ==
              if start <= 8 * p + j < start + amount then Field(value, amount)[8 * p + j - start] else Bit(was, j)
    {
      MergedBit(was, x, keep, j);
      if 8 * p >= start {
        var s := 8 * p - start;
        BitShr(And(value, mask), s, j);
        BitShr(mask, s, j);
        BitNot(Shr(mask, s), j);
        BitAnd(value, mask, j + s);
      } else {
        var s := start - 8 * p;
        BitShl(And(value, mask), s, j);
        BitShl(mask, s, j);
        BitNot(Shl(mask, s), j);
        if j >= s {
          BitAnd(value, mask, j - s);
        }
      }
    }
  }

  /** `((1 << amount) - 1) & 0xff`, and likewise for the wider routines. */
  function FieldMask(amount: nat, width: nat): int {
    And(Pow2(amount) - 1, Pow2(width) - 1)
  }

  lemma MaskBits(amount: nat, width: nat)
    ensures forall t: nat :: Bit(FieldMask(amount, width), t) == (t < Min(amount, width))
  {
    forall t: nat
      ensures Bit(FieldMask(amount, width), t) == (t < Min(amount, width))
    {
      BitAnd(Pow2(amount) - 1, Pow2(width) - 1, t);
      BitMask(amount, t);
      BitMask(width, t);
    }
  }

  /** What the fixed-width routines merge into their `k`-th byte: the value's share ... */
  function Share(value: int, bit: nat, k: nat): int
    requires bit < 8
  {
    if bit == 0 then Shr(value, 8 * k)
    else if k == 0 then Shl(value, bit)
    else Shr(Shr(value, 8 - bit), 8 * (k - 1))
  }

  /** ... and the mask of what that byte keeps. */
  function Keep(mask: int, bit: nat, k: nat): int
    requires bit < 8
  {
    if bit == 0 then Shr(Not(mask), 8 * k)
    else if k == 0 then Not(Shl(mask, bit))
    else Shr(Shr(Not(mask), 8 - bit), 8 * (k - 1))
  }

  lemma SharedByte(was: byte, value: int, mask: int, amount: nat, start: nat, k: nat)
    requires forall t: nat :: Bit(mask, t) == (t < amount)
    ensures ByteWritten(was, Merged(was, Share(And(value, mask), start % 8, k), Keep(mask, start % 8, k)),
                        start / 8 + k, start, Field(value, amount))
  {
    hide And, Or, Shl, Shr, Bit, Merged;
    var bit := start % 8;
    var v := And(value, mask);
    if bit == 0 {
      ShrNot(mask, 8 * k);
    } else if k > 0 {
      ShrShr(v, 8 - bit, 8 * (k - 1));
      ShrShr(Not(mask), 8 - bit, 8 * (k - 1));
      ShrNot(mask, 8 * k - bit);
    }
    MergedByte(was, value, mask, amount, start, start / 8 + k, Share(v, bit, k), Keep(mask, bit, k));
  }

  /** A fixed-width write under way: what the array held, the value and mask being merged in, and where. */
  datatype Job = Job(before: seq<byte>, value: int, mask: int, amount: nat, start: nat)

  /** The bytes from the first touched one up to the `k`-th after it have received their share of the field. */
  ghost predicate Progress(job: Job, now: seq<byte>, k: nat) {
    && |now| == |job.before|
    && (forall t: nat :: Bit(job.mask, t) == (t < job.amount))
    && (forall p | 0 <= p < |now| && p < job.start / 8 + k ::
          ByteWritten(job.before[p], now[p], p, job.start, Field(job.value, job.amount)))
    && (forall p | job.start / 8 + k <= p < |now| :: now[p] == job.before[p])
  }

  lemma Begin(job: Job, amount: nat, width: nat)
    requires job.amount == Min(amount, width) && job.mask == FieldMask(amount, width)
    ensures Progress(job, job.before, 0)
  {
    hide Bit, And;
    MaskBits(amount, width);
    forall p | 0 <= p < |job.before| && p < job.start / 8
      ensures ByteWritten(job.before[p], job.before[p], p, job.start, Field(job.value, job.amount))
    {
      Untouched(job.before[p], p, job.start, Field(job.value, job.amount));
    }
  }

  lemma Finish(job: Job, now: seq<byte>, k: nat, original: seq<byte>, room: nat)
    requires Progress(job, now, k) && job.start / 8 + k <= |now| && job.start % 8 + job.amount <= 8 * k
    requires job.before == Grown(original, CeilBytes(job.start + room)) && job.amount <= room
    ensures Bits(now) == Stored(original, job.start, Field(job.value, job.amount), room)
  {
    hide Bit, And, Field, Bits, Splice, ByteWritten, Grown;
    forall p | 0 <= p < |now|
      ensures ByteWritten(job.before[p], now[p], p, job.start, Field(job.value, job.amount))
    {
      if p >= job.start / 8 + k {
        Untouched(job.before[p], p, job.start, Field(job.value, job.amount));
      }
    }
    WrittenIsSplice(job.before, now, job.start, Field(job.value, job.amount));
  }

  /** `target[p] = (x | (target[p] & keep)) & 0xff`, the `k`-th such line of a write. */
  method Merge(target: ByteArray, p: nat, x: int, keep: int, ghost job: Job, ghost k: nat)
    requires p == job.start / 8 + k && p < |target.bytes|
    requires Progress(job, target.bytes, k)
    requires x == Share(And(job.value, job.mask), job.start % 8, k) && keep == Keep(job.mask, job.start % 8, k)
    modifies target
    ensures |target.bytes| == |old(target.bytes)|
    ensures Progress(job, target.bytes, k + 1)
  {
    hide Bit, And, Or, Shl, Shr;
    ghost var was := target.bytes[p];
    target.bytes := target.bytes[p := Merged(target.bytes[p], x, keep)];
    SharedByte(was, job.value, job.mask, job.amount, job.start, k);
  }

  /** Four such lines in a row: `value` and `inv` go in shifted right by `s`, `s + 8`, `s + 16` and `s + 24`. */
  method MergeFour(target: ByteArray, p: nat, value: int, inv: int, s: nat, ghost job: Job, ghost k: nat)
    requires p == job.start / 8 + k && p + 4 <= |target.bytes|
    requires Progress(job, target.bytes, k)
    requires job.start % 8 == 0 ==> s == 8 * k && value == And(job.value, job.mask) && inv == Not(job.mask)
    requires job.start % 8 > 0 ==>
      s + 8 == 8 * k && value == Shr(And(job.value, job.mask), 8 - job.start % 8) &&
          inv == Shr(Not(job.mask), 8 - job.start % 8)
    modifies target
    ensures |target.bytes| == |old(target.bytes)|
    ensures Progress(job, target.bytes, k + 4)
  {
    hide And, Bit, Progress;
    Merge(target, p, Shr(value, s), Shr(inv, s), job, k);
    Merge(target, p + 1, Shr(value, s + 8), Shr(inv, s + 8), job, k + 1);
    Merge(target, p + 2, Shr(value, s + 16), Shr(inv, s + 16), job, k + 2);
    Merge(target, p + 3, Shr(value, s + 24), Shr(inv, s + 24), job, k + 3);
  }

  // ---------- writing fixed-width fields ----------

  method EnsureSpaceAvailable(target: ByteArray, bitpos: nat, amount: nat)
    modifies target
    ensures target.bytes == Grown(old(target.bytes), CeilBytes(bitpos + amount))
  {
    var missing := (bitpos + amount + 7) / 8 - |target.bytes|;
    if missing > 0 {
      target.bytes := target.bytes + ZeroBytes(missing);
    }
  }

  /** The four fixed-size routines: of a field that is wider, they store their own width. */
  method SetBits8(bitfield: int, amount: nat, target: ByteArray, startBit: nat)
    modifies target
    ensures Bits(target.bytes) == Stored(old(target.bytes), startBit, Field(bitfield, Min(amount, 8)), 8)
  {
    hide Bit, And, Progress;
    var mask := FieldMask(amount, 8);
    var value := And(bitfield, mask);
    var inv := Not(mask);
    var pos, bit := startBit / 8, startBit % 8;
    EnsureSpaceAvailable(target, startBit, 8);
    ghost var job := Job(target.bytes, bitfield, mask, Min(amount, 8), startBit);
    Begin(job, amount, 8);
    if bit == 0 {
      Merge(target, pos, value, inv, job, 0);
      Finish(job, target.bytes, 1, old(target.bytes), 8);
    } else {
      Merge(target, pos, Shl(value, bit), Not(Shl(mask, bit)), job, 0);
      value, inv := Shr(value, 8 - bit), Shr(inv, 8 - bit);
      Merge(target, pos + 1, value, inv, job, 1);
      Finish(job, target.bytes, 2, old(target.bytes), 8);
    }
  }

  method SetBits16(bitfield: int, amount: nat, target: ByteArray, startBit: nat)
    modifies target
    ensures Bits(target.bytes) == Stored(old(target.bytes), startBit, Field(bitfield, Min(amount, 16)), 16)
  {
    hide Bit, And, Progress;
    var mask := FieldMask(amount, 16);
    var value := And(bitfield, mask);
    var inv := Not(mask);
    var pos, bit := startBit / 8, startBit % 8;
    EnsureSpaceAvailable(target, startBit, 16);
    ghost var job := Job(target.bytes, bitfield, mask, Min(amount, 16), startBit);
    Begin(job, amount, 16);
    if bit == 0 {
      Merge(target, pos, value, inv, job, 0);
      Merge(target, pos + 1, Shr(value, 8), Shr(inv, 8), job, 1);
      Finish(job, target.bytes, 2, old(target.bytes), 16);
    } else {
      Merge(target, pos, Shl(value, bit), Not(Shl(mask, bit)), job, 0);
      value, inv := Shr(value, 8 - bit), Shr(inv, 8 - bit);
      Merge(target, pos + 1, value, inv, job, 1);
      Merge(target, pos + 2, Shr(value, 8), Shr(inv, 8), job, 2);
      Finish(job, target.bytes, 3, old(target.bytes), 16);
    }
  }

  method SetBits32(bitfield: int, amount: nat, target: ByteArray, startBit: nat)
    modifies target
    ensures Bits(target.bytes) == Stored(old(target.bytes), startBit, Field(bitfield, Min(amount, 32)), 32)
  {
    hide Bit, And, Progress;
    var mask := FieldMask(amount, 32);
    var value := And(bitfield, mask);
    var inv := Not(mask);
    var pos, bit := startBit / 8, startBit % 8;
    EnsureSpaceAvailable(target, startBit, 32);
    ghost var job := Job(target.bytes, bitfield, mask, Min(amount, 32), startBit);
    Begin(job, amount, 32);
    if bit == 0 {
      MergeFour(target, pos, value, inv, 0, job, 0);
      Finish(job, target.bytes, 4, old(target.bytes), 32);
    } else {
      Merge(target, pos, Shl(value, bit), Not(Shl(mask, bit)), job, 0);
      value, inv := Shr(value, 8 - bit), Shr(inv, 8 - bit);
      MergeFour(target, pos + 1, value, inv, 0, job, 1);
      Finish(job, target.bytes, 5, old(target.bytes), 32);
    }
  }

  method SetBits64(bitfield: int, amount: nat, target: ByteArray, startBit: nat)
    modifies target
    ensures Bits(target.bytes) == Stored(old(target.bytes), startBit, Field(bitfield, Min(amount, 64)), 64)
  {
    hide Bit, And, Progress;
    var mask := FieldMask(amount, 64);
    var value := And(bitfield, mask);
    var inv := Not(mask);
    var pos, bit := startBit / 8, startBit % 8;
    EnsureSpaceAvailable(target, startBit, 64);
    ghost var job := Job(target.bytes, bitfield, mask, Min(amount, 64), startBit);
    Begin(job, amount, 64);
    if bit == 0 {
      MergeFour(target, pos, value, inv, 0, job, 0);
      MergeFour(target, pos + 4, value, inv, 32, job, 4);
      Finish(job, target.bytes, 8, old(target.bytes), 64);
    } else {
      Merge(target, pos, Shl(value, bit), Not(Shl(mask, bit)), job, 0);
      value, inv := Shr(value, 8 - bit), Shr(inv, 8 - bit);
      MergeFour(target, pos + 1, value, inv, 0, job, 1);
      MergeFour(target, pos + 5, value, inv, 32, job, 5);
      Finish(job, target.bytes, 9, old(target.bytes), 64);
    }
  }

  /** The dispatch on the field's width; above 64 bits nothing happens at all. */
  method SetBits(bitfield: int, amount: nat, target: ByteArray, startBit: nat)
    modifies target
    ensures amount <= 64 ==>
              Bits(target.bytes) == Stored(old(target.bytes), startBit, Field(bitfield, amount), RoutineWidth(amount))
    ensures amount > 64 ==> target.bytes == old(target.bytes)
  {
    if amount <= 8 {
      SetBits8(bitfield, amount, target, startBit);
    } else if amount <= 16 {
      SetBits16(bitfield, amount, target, startBit);
    } else if amount <= 32 {
      SetBits32(bitfield, amount, target, startBit);
    } else if amount <= 64 {
      SetBits64(bitfield, amount, target, startBit);
    }
  }

  // ---------- writing byte strings ----------

  lemma MaskAt(j: nat, off: nat)
    ensures Bit(255, j) == (j < 8)
    ensures off <= 8 ==> Bit(Shr(255, 8 - off), j) == (j < off)
    ensures Bit(Shl(255, off), j) == (off <= j < off + 8)
  {
    assert Pow2(8) == 256;
    BitMask(8, j);
    if off <= 8 {
      BitShr(255, 8 - off, j);
      BitMask(8, j + 8 - off);
    }
    BitShl(255, off, j);
    if j >= off {
      BitMask(8, j - off);
    }
  }

  /** `r` bits that spill from byte `p` into the next one. */
  lemma Spilled(before: seq<byte>, p: nat, m: int, r: nat, off: nat)
    requires p + 1 < |before| && 0 < off < 8 && 8 < off + r && r <= 8
    requires forall t: nat | t >= r :: !Bit(m, t)
    ensures
      var after := before[p := Merged(before[p], Shl(m, off), Shr(255, 8 - off))]
                         [p + 1 := Merged(before[p + 1], Shr(m, 8 - off), Shl(255, off + r - 8))];
      Bits(after) == Splice(Bits(before), 8 * p + off, Field(m, r))
  {
    hide Bit, And, Or, Shl, Shr, Merged;
    var a := Merged(before[p], Shl(m, off), Shr(255, 8 - off));
    var b := Merged(before[p + 1], Shr(m, 8 - off), Shl(255, off + r - 8));
    var after := before[p := a][p + 1 := b];
    forall j: nat | j < 8
      ensures Bit(a, j) == (if j < off then Bit(before[p], j) else Bit(m, j - off))
      ensures Bit(b, j) == (if j < off + r - 8 then Bit(m, j + 8 - off) else Bit(before[p + 1], j))
    {
      MergedBit(before[p], Shl(m, off), Shr(255, 8 - off), j);
      MergedBit(before[p + 1], Shr(m, 8 - off), Shl(255, off + r - 8), j);
      MaskAt(j, off);
      MaskAt(j, off + r - 8);
      BitShl(m, off, j);
      BitShr(m, 8 - off, j);
    }
    Reaches(before, after, p, 2, 8 * p + off, Field(m, r));
  }

  /** What `setBitsFromBytes` keeps of a byte that takes `r` bits from bit `off` on. */
  function Around(off: nat, r: nat): int
    requires off <= 8
  {
    And(Or(Shr(255, 8 - off), Shl(255, off + r)), 255)
  }

  lemma FittedBit(was: byte, m: int, r: nat, off: nat, j: nat)
    requires off + r <= 8 && j < 8
    requires forall t: nat | t >= r :: !Bit(m, t)
    ensures Bit(Merged(was, Shl(m, off), Around(off, r)), j) ==
      (if off <= j < off + r then Bit(m, j - off) else Bit(was, j))
  {
    hide Bit, And, Or, Shl, Shr, Merged;
    MergedBit(was, Shl(m, off), Around(off, r), j);
    BitByte(Or(Shr(255, 8 - off), Shl(255, off + r)), j);
    BitOr(Shr(255, 8 - off), Shl(255, off + r), j);
    MaskAt(j, off);
    MaskAt(j, off + r);
    BitShl(m, off, j);
  }

  lemma FittedByte(was: byte, m: int, r: nat, off: nat, p: nat)
    requires off + r <= 8
    requires forall t: nat | t >= r :: !Bit(m, t)
    ensures ByteWritten(was, Merged(was, Shl(m, off), Around(off, r)), p, 8 * p + off, Field(m, r))
  {
    hide Bit, And, Or, Shl, Shr, Merged, Around;
    var b := Merged(was, Shl(m, off), Around(off, r));
    forall j: nat | j < 8
      ensures Bit(b, j) ==
              if 8 * p + off <= 8 * p + j < 8 * p + off + r then Field(m, r)[8 * p + j - (8 * p + off)] else Bit(was, j)
    {
      FittedBit(was, m, r, off, j);
    }
  }

  /** `r` bits that fit into byte `p` from bit `off` on. */
  lemma Fitted(before: seq<byte>, p: nat, m: int, r: nat, off: nat)
    requires p < |before| && off + r <= 8
    requires forall t: nat | t >= r :: !Bit(m, t)
    ensures Bits(before[p := Merged(before[p], Shl(m, off), Around(off, r))]) ==
            Splice(Bits(before), 8 * p + off, Field(m, r))
  {
    hide Bit, And, Or, Shl, Shr, Around, Merged;
    FittedByte(before[p], m, r, off, p);
    Reaches(before, before[p := Merged(before[p], Shl(m, off), Around(off, r))], p, 1, 8 * p + off, Field(m, r));
  }

  /** A write confined to the bytes `[pos, pos + n)`. */
  lemma Reaches(before: seq<byte>, after: seq<byte>, pos: nat, n: nat, start: nat, field: seq<bool>)
    requires |before| == |after| && pos + n <= |before|
    requires 8 * pos <= start && start + |field| <= 8 * (pos + n)
    requires forall p | 0 <= p < |before| && (p < pos || pos + n <= p) :: after[p] == before[p]
    requires forall p | pos <= p < pos + n :: ByteWritten(before[p], after[p], p, start, field)
    ensures Bits(after) == Splice(Bits(before), start, field)
  {
    forall p | 0 <= p < |before|
      ensures ByteWritten(before[p], after[p], p, start, field)
    {
      if p < pos || pos + n <= p {
        Untouched(before[p], p, start, field);
      }
    }
    WrittenIsSplice(before, after, start, field);
  }

  /** The whole-byte loop of `setBitsFromBytes`: `count` bytes of `source` go to bit `startBit` of an array that has
      room for them. */
  method PutWholeBytes(source: seq<byte>, count: nat, target: ByteArray, startBit: nat)
    requires count <= |source| && CeilBytes(startBit + 8 * count) <= |target.bytes|
    modifies target
    ensures |target.bytes| == |old(target.bytes)|
    ensures Bits(target.bytes) == Splice(Bits(old(target.bytes)), startBit, Bits(source)[..8 * count])
  {
    var pos, bit := startBit / 8, startBit % 8;
    ghost var before := target.bytes;
    assert Splice(Bits(before), startBit, []) == Bits(before);
    for i := 0 to count
      invariant |target.bytes| == |before|
      invariant Bits(target.bytes) == Splice(Bits(before), startBit, Bits(source)[..8 * i])
    {
      PutWholeByte(source[i], target, pos + i, bit);
      NextBits(source, i, 8);
      SpliceTwice(Bits(before), startBit, Bits(source)[..8 * i], Field(source[i], 8));
    }
  }

  /** One turn of that loop. */
  method PutWholeByte(b: byte, target: ByteArray, p: nat, bit: nat)
    requires bit < 8 && CeilBytes(8 * p + bit + 8) <= |target.bytes|
    modifies target
    ensures |target.bytes| == |old(target.bytes)|
    ensures Bits(target.bytes) == Splice(Bits(old(target.bytes)), 8 * p + bit, Field(b, 8))
  {
    ghost var before := target.bytes;
    forall t: nat | t >= 8
      ensures !Bit(b, t)
    {
      BitHigh(b, t);
    }
    if bit == 0 {
      target.bytes := target.bytes[p := b];
      Reaches(before, target.bytes, p, 1, 8 * p, Field(b, 8));
    } else {
      Spilled(before, p, b, 8, bit);
      target.bytes := target.bytes[p := Merged(target.bytes[p], Shl(b, bit), Shr(255, 8 - bit))];
      target.bytes := target.bytes[p + 1 := Merged(target.bytes[p + 1], Shr(b, 8 - bit), Shl(255, bit))];
    }
  }

  /** The bits of `value` go to bit `startBit`. `false` for the `IndexError` of an array without room for them, into
      which as many of them were written as fit. */
  method BytesToBits(value: seq<byte>, target: ByteArray, startBit: nat) returns (ok: bool)
    modifies target
    ensures ok == (value == [] || CeilBytes(startBit + 8 * |value|) <= |target.bytes|)
    ensures |target.bytes| == |old(target.bytes)|
    ensures startBit <= 8 * |target.bytes| ==>
              Bits(target.bytes) ==
                  Splice(Bits(old(target.bytes)), startBit, Fitting(value, 8 * |target.bytes| - startBit))
    ensures startBit > 8 * |target.bytes| ==> target.bytes == old(target.bytes)
  {
    hide Bits, Field, Splice;
    var pos, bit := startBit / 8, startBit % 8;
    ghost var before := target.bytes;
    EmptySplice(Bits(before), startBit);
    for i := 0 to |value|
      invariant |target.bytes| == |before|
      invariant i > 0 ==> CeilBytes(startBit + 8 * i) <= |before|
      invariant startBit <= 8 * |before| ==> Bits(target.bytes) == Splice(Bits(before), startBit, Bits(value)[..8 * i])
      invariant startBit > 8 * |before| ==> target.bytes == before
    {
      ghost var room := 8 * |before| - (startBit + 8 * i);
      ok := TryPutByte(value[i], target, pos + i, bit);
      if room >= 0 {
        NextBits(value, i, Min(8, room));
        SpliceTwice(Bits(before), startBit, Bits(value)[..8 * i], Field(value[i], Min(8, room)));
      }
      if !ok {
        return false;
      }
    }
    return true;
  }

  /** As many bits as there is room for. */
  function Fitting(value: seq<byte>, room: nat): (r: seq<bool>)
    ensures |r| <= room
  {
    Bits(value)[..Min(8 * |value|, room)]
  }

  lemma EmptySplice(bits: seq<bool>, at: nat)
    ensures at <= |bits| ==> Splice(bits, at, []) == bits
  {
  }

  /** One turn of that loop; an unaligned byte may fail half way. */
  method TryPutByte(b: byte, target: ByteArray, p: nat, bit: nat) returns (ok: bool)
    requires bit < 8
    modifies target
    ensures ok == (CeilBytes(8 * p + bit + 8) <= |target.bytes|)
    ensures |target.bytes| == |old(target.bytes)|
    ensures 8 * p + bit <= 8 * |target.bytes| ==>
              Bits(target.bytes) ==
              Splice(Bits(old(target.bytes)), 8 * p + bit, Field(b, Min(8, 8 * |target.bytes| - (8 * p + bit))))
    ensures 8 * p + bit > 8 * |target.bytes| ==> target.bytes == old(target.bytes)
  {
    hide Bits, Field, Splice, Bit, And, Or, Shl, Shr;
    if p >= |target.bytes| {
      EmptyField(b);
      EmptySplice(Bits(target.bytes), 8 * p + bit);
      return false;
    }
    if bit > 0 && p + 1 >= |target.bytes| {
      EdgeByte(target.bytes, p, b, bit);
      target.bytes := target.bytes[p := Merged(target.bytes[p], Shl(b, bit), Shr(255, 8 - bit))];
      return false;
    }
    PutWholeByte(b, target, p, bit);
    return true;
  }

  lemma EmptyField(b: byte)
    ensures Field(b, 0) == []
  {
  }

  /** The first half of an unaligned byte. */
  lemma EdgeByte(before: seq<byte>, p: nat, b: byte, bit: nat)
    requires p < |before| && 0 < bit < 8
    ensures Bits(before[p := Merged(before[p], Shl(b, bit), Shr(255, 8 - bit))]) ==
            Splice(Bits(before), 8 * p + bit, Field(b, 8 - bit))
  {
    hide Bit, And, Or, Shl, Shr, Merged;
    var after := before[p := Merged(before[p], Shl(b, bit), Shr(255, 8 - bit))];
    forall j: nat | j < 8
      ensures Bit(after[p], j) == (if j < bit then Bit(before[p], j) else Bit(b, j - bit))
    {
      MergedBit(before[p], Shl(b, bit), Shr(255, 8 - bit), j);
      MaskAt(j, bit);
      BitShl(b, bit, j);
    }
    Reaches(before, after, p, 1, 8 * p + bit, Field(b, 8 - bit));
  }

  /** The first `amount` bits of `bitfield` go to bit `startBit`; the array grows by itself. `false` for the
      `IndexError` of a source that has fewer, after all it has was written. */
  method SetBitsFromBytes(bitfield: seq<byte>, amount: nat, target: ByteArray, startBit: nat) returns (ok: bool)
    modifies target
    ensures ok == (CeilBytes(amount) <= |bitfield|)
    ensures Bits(target.bytes) == Stored(old(target.bytes), startBit, Fitting(bitfield, amount), amount)
  {
    hide Bits, Field, Splice, Grown;
    var pos, bitoffset := startBit / 8, startBit % 8;
    var byteCount, remaining := amount / 8, amount % 8;
    EnsureSpaceAvailable(target, startBit, amount);
    ghost var before := target.bytes;
    PutWholeBytes(bitfield, Min(byteCount, |bitfield|), target, startBit);
    if byteCount > |bitfield| {
      return false;
    }
    if remaining != 0 {
      if byteCount >= |bitfield| {
        return false;
      }
      PutLastBits(bitfield[byteCount], remaining, target, pos + byteCount, bitoffset);
      NextBits(bitfield, byteCount, remaining);
      SpliceTwice(Bits(before), startBit, Bits(bitfield)[..8 * byteCount], Field(bitfield[byteCount], remaining));
    }
    return true;
  }

  /** The last part of `setBitsFromBytes`: the low `r` bits of `b`, into one byte or across two. */
  method PutLastBits(b: byte, r: nat, target: ByteArray, p: nat, off: nat)
    requires 0 < r < 8 && off < 8 && CeilBytes(8 * p + off + r) <= |target.bytes|
    modifies target
    ensures |target.bytes| == |old(target.bytes)|
    ensures Bits(target.bytes) == Splice(Bits(old(target.bytes)), 8 * p + off, Field(b, r))
  {
    var m := And(b, Pow2(r) - 1);
    MaskedBits(b, r, m);
    if r + off <= 8 {
      Fitted(target.bytes, p, m, r, off);
      target.bytes := target.bytes[p := Merged(target.bytes[p], Shl(m, off), Around(off, r))];
    } else {
      Spilled(target.bytes, p, m, r, off);
      target.bytes := target.bytes[p := Merged(target.bytes[p], Shl(m, off), Shr(255, 8 - off))];
      target.bytes := target.bytes[p + 1 := Merged(target.bytes[p + 1], Shr(m, 8 - off), Shl(255, off + r - 8))];
    }
  }

  lemma MaskedBits(b: byte, r: nat, m: int)
    requires m == And(b, Pow2(r) - 1)
    ensures forall t: nat | t >= r :: !Bit(m, t)
    ensures Field(m, r) == Field(b, r)
  {
    forall t: nat
      ensures Bit(m, t) == (t < r && Bit(b, t))
    {
      BitAnd(b, Pow2(r) - 1, t);
      BitMask(r, t);
    }
  }

  lemma NextBits(source: seq<byte>, i: nat, r: nat)
    requires i < |source| && r <= 8
    ensures Bits(source)[..8 * i] + Field(source[i], r) == Bits(source)[..8 * i + r]
  {
    forall j | 0 <= j < r
      ensures Bits(source)[8 * i + j] == Field(source[i], r)[j]
    {
      BitsAt(source, i, j);
    }
  }

  /** What an unaligned 16-bit write leaves from its position on: the value, down to the end of the third byte, so
      that `8 - bit` more of its bits are written; in the first byte what was there shines through. */
  function UshortField(buffer: seq<byte>, startBit: nat, value: int): (r: seq<bool>)
    requires startBit % 8 > 0 && startBit / 8 < |buffer|
    ensures |r| == 24 - startBit % 8
  {
    var bit := startBit % 8;
    seq(24 - bit, j requires 0 <= j < 24 - bit => Bit(value, j) || (j < 8 - bit && Bits(buffer)[startBit + j]))
  }

  /** The bytes that a 16-bit write touches end here. */
  function UshortEnd(startBit: nat): (r: nat)
    ensures startBit / 8 + 1 < r
  {
    startBit / 8 + if startBit % 8 == 0 then 2 else 3
  }

  /** What a 16-bit write makes of an array that is long enough. */
  function UshortWritten(buffer: seq<byte>, startBit: nat, value: int): (r: seq<bool>)
    requires UshortEnd(startBit) <= |buffer|
    ensures |r| == 8 * |buffer|
  {
    Splice(Bits(buffer), startBit, if startBit % 8 == 0 then Field(value, 16) else UshortField(buffer, startBit, value))
  }

  /** `ok` is false where the array ends before the write does; what lies inside the array is written nevertheless. */
  method UshortToBits(value: int, target: ByteArray, startBit: nat) returns (ok: bool)
    modifies target
    ensures ok <==> UshortEnd(startBit) <= |old(target.bytes)|
    ensures |target.bytes| == |old(target.bytes)|
    ensures Bits(target.bytes) ==
            UshortWritten(Grown(old(target.bytes), UshortEnd(startBit)), startBit, value)[..8 * |target.bytes|]
  {
    hide And, Or, Shl, Shr, Bit, Bits, Splice, Field, Grown, UshortField;
    ghost var before := target.bytes;
    ghost var full := Grown(before, UshortEnd(startBit));
    GrownAt(before, UshortEnd(startBit));
    var pos, bit := startBit / 8, startBit % 8;
    AndByte(value);
    AndByte(Shr(value, 8));
    if bit == 0 {
      full := full[pos := And(value, 255)][pos + 1 := And(Shr(value, 8), 255)];
      UshortAligned(Grown(before, pos + 2), full, value, pos);
      BitsPart(full, |before|);
      if pos >= |target.bytes| {
        assert before == full[..|before|];
        return false;
      }
      target.bytes := target.bytes[pos := And(value, 255)];
      if pos + 1 >= |target.bytes| {
        assert target.bytes == full[..|before|];
        return false;
      }
      target.bytes := target.bytes[pos + 1 := And(Shr(value, 8), 255)];
      assert target.bytes == full[..|before|];
    } else {
      var rest := Shr(value, 8 - bit);
      OrByte(full[pos], Shl(value, bit));
      AndByte(rest);
      AndByte(Shr(rest, 8));
      ghost var first := Or(full[pos], And(Shl(value, bit), 255));
      full := full[pos := first][pos + 1 := And(rest, 255)][pos + 2 := And(Shr(rest, 8), 255)];
      UshortUnaligned(Grown(before, pos + 3), full, value, pos, bit);
      BitsPart(full, |before|);
      if pos >= |target.bytes| {
        assert before == full[..|before|];
        return false;
      }
      target.bytes := target.bytes[pos := Or(target.bytes[pos], And(Shl(value, bit), 255))];
      if pos + 1 >= |target.bytes| {
        assert target.bytes == full[..|before|];
        return false;
      }
      target.bytes := target.bytes[pos + 1 := And(rest, 255)];
      if pos + 2 >= |target.bytes| {
        assert target.bytes == full[..|before|];
        return false;
      }
      target.bytes := target.bytes[pos + 2 := And(Shr(rest, 8), 255)];
      assert target.bytes == full[..|before|];
    }
    return true;
  }

  lemma GrownAt(buffer: seq<byte>, n: nat)
    ensures n <= |Grown(buffer, n)| && Grown(buffer, n)[..|buffer|] == buffer
    ensures forall i | 0 <= i < |buffer| :: Grown(buffer, n)[i] == buffer[i]
    ensures n <= |buffer| ==> Grown(buffer, n) == buffer
  {
  }

  lemma BitsPart(buffer: seq<byte>, n: nat)
    requires n <= |buffer|
    ensures Bits(buffer[..n]) == Bits(buffer)[..8 * n]
  {
    assert buffer == buffer[..n] + buffer[n..];
    BitsConcat(buffer[..n], buffer[n..]);
  }

  /** Over free bits that are zero, it is the value alone. */
  lemma UshortOverZeros(buffer: seq<byte>, startBit: nat, value: int)
    requires startBit % 8 > 0 && startBit / 8 < |buffer|
    requires forall i | startBit <= i < 8 * (startBit / 8 + 1) :: !Bits(buffer)[i]
    ensures UshortField(buffer, startBit, value) == Field(value, 24 - startBit % 8)
  {
    hide Bit, Bits;
  }

  lemma OrByte(b: byte, x: int)
    ensures 0 <= Or(b, And(x, 255)) < 256
  {
    hide And, Or, Bit;
    var r := Or(b, And(x, 255));
    forall j: nat
      ensures Bit(r, j) == Bit(Low(r, 8), j)
    {
      BitOr(b, And(x, 255), j);
      BitByte(x, j);
      BitLow(r, 8, j);
      if j >= 8 {
        BitHigh(b, j);
      }
    }
    SameBits(r, Low(r, 8));
    assert Pow2(8) == 256;
    LowRange(r, 8);
  }

  lemma UshortAligned(before: seq<byte>, after: seq<byte>, value: int, pos: nat)
    requires pos + 1 < |before| && 0 <= And(value, 255) < 256 && 0 <= And(Shr(value, 8), 255) < 256
    requires after == before[pos := And(value, 255)][pos + 1 := And(Shr(value, 8), 255)]
    ensures Bits(after) == Splice(Bits(before), 8 * pos, Field(value, 16))
  {
    hide And, Or, Shl, Shr, Bit;
    var second := after[pos + 1];
    forall j: nat | j < 8
      ensures Bit(after[pos], j) == Bit(value, j)
    {
      BitByte(value, j);
    }
    forall j: nat | j < 8
      ensures Bit(second, j) == Bit(value, 8 + j)
    {
      BitByte(Shr(value, 8), j);
      BitShr(value, 8, j);
    }
    Reaches(before, after, pos, 2, 8 * pos, Field(value, 16));
  }

  lemma UshortUnaligned(before: seq<byte>, after: seq<byte>, value: int, pos: nat, bit: nat)
    requires 0 < bit < 8 && pos + 2 < |before| == |after|
    requires after[pos] == Or(before[pos], And(Shl(value, bit), 255))
    requires after[pos + 1] == And(Shr(value, 8 - bit), 255)
    requires after[pos + 2] == And(Shr(Shr(value, 8 - bit), 8), 255)
    requires forall p | 0 <= p < |before| && (p < pos || pos + 3 <= p) :: after[p] == before[p]
    ensures Bits(after) == Splice(Bits(before), 8 * pos + bit, UshortField(before, 8 * pos + bit, value))
  {
    hide And, Or, Shl, Shr, Bit, Bits;
    var start := 8 * pos + bit;
    var field := UshortField(before, start, value);
    var second, third := after[pos + 1], after[pos + 2];
    forall j: nat | j < 8
      ensures Bit(after[pos], j) == (if j < bit then Bit(before[pos], j) else field[j - bit])
    {
      BitsAt(before, pos, j);
      BitOr(before[pos], And(Shl(value, bit), 255), j);
      BitByte(Shl(value, bit), j);
      BitShl(value, bit, j);
    }
    forall j: nat | j < 8
      ensures Bit(second, j) == Bit(value, 8 - bit + j)
    {
      BitByte(Shr(value, 8 - bit), j);
      BitShr(value, 8 - bit, j);
    }
    forall j: nat | j < 8
      ensures Bit(third, j) == Bit(value, 16 - bit + j)
    {
      BitByte(Shr(Shr(value, 8 - bit), 8), j);
      BitShr(Shr(value, 8 - bit), 8, j);
      BitShr(value, 8 - bit, 8 + j);
    }
    Reaches(before, after, pos, 3, start, field);
  }
}
