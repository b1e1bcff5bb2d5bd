/** The typed values a message carries, as bits, and reading them back. */
module Typed {
  import opened PyInt
  import opened BitBuffer
  import opened Reading
  import opened VarInt

  datatype Kind = Int8 | UInt8 | Int16 | UInt16 | Int32 | UInt32 | Int64 | UInt64

  function Size(kind: Kind): (n: nat)
    ensures n >= 1
  {
    match kind
    case Int8 => 1 case UInt8 => 1
    case Int16 => 2 case UInt16 => 2
    case Int32 => 4 case UInt32 => 4
    case Int64 => 8 case UInt64 => 8
  }

  predicate Signed(kind: Kind) {
    kind.Int8? || kind.Int16? || kind.Int32? || kind.Int64?
  }

  function BitWidth(kind: Kind): (n: nat)
    ensures n >= 8 && n % 8 == 0
  {
    8 * Size(kind)
  }

  /** The integers `to_bytes` accepts for this kind; it raises on all others. */
  predicate Fits(kind: Kind, v: int) {
    FitsIn(BitWidth(kind), Signed(kind), v)
  }

  predicate FitsIn(w: nat, signed: bool, v: int)
    requires w >= 1
  {
    if signed then -Pow2(w - 1) <= v < Pow2(w - 1) else 0 <= v < Pow2(w)
  }

  /** `to_bytes`, little-endian, two's complement for negative integers. */
  function ToBytes(v: int, n: nat): (r: seq<byte>)
    ensures |r| == n
    decreases n
  {
    if n == 0 then [] else [v % 256] + ToBytes(v / 256, n - 1)
  }

  /** `from_bytes`, little-endian, on the bits of the bytes. */
  function IntOf(bits: seq<bool>, signed: bool): int {
    if signed && |bits| > 0 && bits[|bits| - 1] then Val(bits) - Pow2(|bits|) else Val(bits)
  }

  lemma {:induction false} BitsOfToBytes(v: int, n: nat)
    ensures Bits(ToBytes(v, n)) == Field(v, 8 * n)
    decreases n
  {
    if n > 0 {
      BitsConcat([v % 256], ToBytes(v / 256, n - 1));
      BitsOfToBytes(v / 256, n - 1);
      BitsOfByte(v % 256);
      LowByte(v);
      FieldOfLow(v, 8);
      forall i | 0 <= i < 8 * (n - 1)
        ensures Bit(v, 8 + i) == Bit(v / 256, i)
      {
        BitShr(v, 8, i);
      }
      assert Field(v, 8 * n) == Field(v, 8) + Field(v / 256, 8 * (n - 1));
    }
  }

  lemma LowByte(v: int)
    ensures Low(v, 8) == v % 256 && Shr(v, 8) == v / 256
  {
    assert Pow2(8) == 256;
    LowIsMod(v, 8);
    LowCongruent(v, 8);
  }

  /** `from_bytes` undoes `to_bytes` on every integer it accepts. */
  lemma IntOfField(w: nat, signed: bool, v: int)
    requires w >= 1 && FitsIn(w, signed, v)
    ensures IntOf(Field(v, w), signed) == v
  {
    ValField(v, w);
    if signed {
      ShiftedOut(v, w - 1);
      BitShr(v, w - 1, 0);
      Pow2Step(w - 1);
      ShiftedOut(v, w);
      LowCongruent(v, w);
    } else {
      LowSmall(v, w);
    }
  }

  /** The kinds, in numbers: which integers each takes, and in how many bits. */
  lemma KindRanges(v: int)
    ensures BitWidth(Int8) == 8 && (Fits(Int8, v) <==> -0x80 <= v < 0x80)
    ensures BitWidth(UInt8) == 8 && (Fits(UInt8, v) <==> 0 <= v < 0x100)
    ensures BitWidth(Int16) == 16 && (Fits(Int16, v) <==> -0x8000 <= v < 0x8000)
    ensures BitWidth(UInt16) == 16 && (Fits(UInt16, v) <==> 0 <= v < 0x1_0000)
    ensures BitWidth(Int32) == 32 && (Fits(Int32, v) <==> -0x8000_0000 <= v < 0x8000_0000)
    ensures BitWidth(UInt32) == 32 && (Fits(UInt32, v) <==> 0 <= v < 0x1_0000_0000)
    ensures BitWidth(Int64) == 64 && (Fits(Int64, v) <==> -0x8000_0000_0000_0000 <= v < 0x8000_0000_0000_0000)
    ensures BitWidth(UInt64) == 64 && (Fits(UInt64, v) <==> 0 <= v < 0x1_0000_0000_0000_0000)
  {
    hide Pow2;
    KindPowers();
  }

  lemma KindPowers()
    ensures Pow2(7) == 0x80 && Pow2(8) == 0x100 && Pow2(15) == 0x8000 && Pow2(16) == 0x1_0000
    ensures Pow2(31) == 0x8000_0000 && Pow2(32) == 0x1_0000_0000
    ensures Pow2(63) == 0x8000_0000_0000_0000 && Pow2(64) == 0x1_0000_0000_0000_0000
  {
    assert Pow2(8) == 0x100;
    Pow2Add(8, 8);
    Pow2Add(16, 16);
    Pow2Add(32, 32);
    Pow2Step(7);
    Pow2Step(15);
    Pow2Step(31);
    Pow2Step(63);
  }

  /** What a read of each kind makes of the number in its bits: that number, or for the signed kinds, from the half
      on, that number less the whole range. */
  lemma KindReads(bits: seq<bool>, pos: nat)
    ensures ReadsAs(bits, pos, Int8, 8, 0x80, 0x100) && ReadsAs(bits, pos, UInt8, 8, 0x100, 0x100)
    ensures ReadsAs(bits, pos, Int16, 16, 0x8000, 0x1_0000) && ReadsAs(bits, pos, UInt16, 16, 0x1_0000, 0x1_0000)
    ensures ReadsAs(bits, pos, Int32, 32, 0x8000_0000, 0x1_0000_0000)
    ensures ReadsAs(bits, pos, UInt32, 32, 0x1_0000_0000, 0x1_0000_0000)
    ensures ReadsAs(bits, pos, Int64, 64, 0x8000_0000_0000_0000, 0x1_0000_0000_0000_0000)
    ensures ReadsAs(bits, pos, UInt64, 64, 0x1_0000_0000_0000_0000, 0x1_0000_0000_0000_0000)
  {
    hide Pow2, ReadsAs;
    KindPowers();
    SignedRead(bits, pos, Int8);
    SignedRead(bits, pos, UInt8);
    SignedRead(bits, pos, Int16);
    SignedRead(bits, pos, UInt16);
    SignedRead(bits, pos, Int32);
    SignedRead(bits, pos, UInt32);
    SignedRead(bits, pos, Int64);
    SignedRead(bits, pos, UInt64);
  }

  /** A read takes `w` bits, and its result is their number, less `range` from `half` on. */
  predicate ReadsAs(bits: seq<bool>, pos: nat, kind: Kind, w: nat, half: int, range: int) {
    IntIn(bits, pos, BitWidth(kind), Signed(kind)) ==
    if pos + w > |bits| then None
    else
      var n := Val(bits[pos..pos + w]);
      Some(if n >= half then n - range else n)
  }

  lemma SignedRead(bits: seq<bool>, pos: nat, kind: Kind)
    ensures
      var w := BitWidth(kind);
      ReadsAs(bits, pos, kind, w, if Signed(kind) then Pow2(w - 1) else Pow2(w), Pow2(w))
  {
    hide Pow2;
    var w := BitWidth(kind);
    if pos + w <= |bits| {
      TopBit(bits[pos..pos + w]);
    }
  }

  /** The top bit says whether the number is in the upper half. */
  lemma {:induction false} TopBit(bits: seq<bool>)
    requires |bits| > 0
    ensures bits[|bits| - 1] <==> Val(bits) >= Pow2(|bits| - 1)
    ensures 0 <= Val(bits) < Pow2(|bits|)
  {
    if |bits| > 1 {
      TopBit(bits[1..]);
      Pow2Step(|bits| - 1);
      Pow2Step(|bits| - 2);
    } else {
      assert bits[1..] == [];
    }
  }

  datatype Value = Flag(b: bool) | Number(kind: Kind, v: int) | Numbers(kind: Kind, vs: seq<int>)

  predicate Representable(value: Value) {
    match value
    case Flag(_) => true
    case Number(kind, v) => Fits(kind, v)
    case Numbers(kind, vs) => forall v | v in vs :: Fits(kind, v)
  }

  /** The bits a value is written as. */
  function Coded(value: Value): seq<bool> {
    match value
    case Flag(b) => [b]
    case Number(kind, v) => Field(v, BitWidth(kind))
    case Numbers(kind, vs) => Bits(VarBytes(|vs|)) + CodedInts(BitWidth(kind), vs)
  }

  function CodedInts(w: nat, vs: seq<int>): (r: seq<bool>)
    ensures |r| == w * |vs|
  {
    if |vs| == 0 then []
    else
      OneMore(w, |vs|);
      CodedInts(w, vs[..|vs| - 1]) + Field(vs[|vs| - 1], w)
  }

  lemma OneMore(w: nat, n: nat)
    ensures n > 0 ==> w * n == w * (n - 1) + w
    ensures w * n >= 0
  {
  }

  function CodedAll(values: seq<Value>): seq<bool> {
    if |values| == 0 then [] else CodedAll(values[..|values| - 1]) + Coded(values[|values| - 1])
  }

  // ---------- reading ----------

  datatype Shape = FlagShape | NumberShape(kind: Kind) | NumbersShape(kind: Kind)

  function ShapeOf(value: Value): Shape {
    match value
    case Flag(_) => FlagShape
    case Number(kind, _) => NumberShape(kind)
    case Numbers(kind, _) => NumbersShape(kind)
  }

  function Shapes(values: seq<Value>): (r: seq<Shape>)
    ensures |r| == |values|
  {
    seq(|values|, i requires 0 <= i < |values| => ShapeOf(values[i]))
  }

  /** A flag at bit `pos` of a buffer of whole bytes with these bits. `getBits` reads a byte's width from `pos`
      on, so that for a flag off a byte boundary one more byte must be there; `None` is the `IndexError`. */
  function FlagIn(bits: seq<bool>, pos: nat): Option<bool> {
    if 8 * CeilBytes(pos + 8) > |bits| then None else Some(bits[pos])
  }

  /** An integer of `w` bits; `None` when fewer bits are left. */
  function IntIn(bits: seq<bool>, pos: nat, w: nat, signed: bool): Option<int> {
    if pos + w > |bits| then None else Some(IntOf(bits[pos..pos + w], signed))
  }

  /** `n` integers of `w` bits in a row, given that they are there. */
  function IntsIn(bits: seq<bool>, pos: nat, w: nat, signed: bool, n: nat): (r: seq<int>)
    requires pos + w * n <= |bits|
    ensures |r| == n
    decreases n
  {
    if n == 0 then []
    else
      OneMore(w, n);
      OneMore(w, n - 1);
      var at := pos + w * (n - 1);
      IntsIn(bits, pos, w, signed, n - 1) + [IntOf(bits[at..at + w], signed)]
  }

  function ValueIn(bits: seq<bool>, pos: nat, shape: Shape): Option<(Value, nat)> {
    match shape
    case FlagShape =>
      (match FlagIn(bits, pos)
       case None => None
       case Some(b) => Some((Flag(b), pos + 1)))
    case NumberShape(kind) =>
      (match IntIn(bits, pos, BitWidth(kind), Signed(kind))
       case None => None
       case Some(v) => Some((Number(kind, v), pos + BitWidth(kind))))
    case NumbersShape(kind) =>
      (match VarIn(bits, pos)
       case None => None
       case Some((n, length)) =>
         OneMore(BitWidth(kind), n);
         if pos + length + BitWidth(kind) * n > |bits| then None
         else Some((Numbers(kind, IntsIn(bits, pos + length, BitWidth(kind), Signed(kind), n)),
             pos + length + BitWidth(kind) * n)))
  }

  /** Values of the given shapes in a row, from the first bit on, and where they end. */
  function ValuesIn(bits: seq<bool>, shapes: seq<Shape>): Option<(seq<Value>, nat)> {
    if |shapes| == 0 then Some(([], 0))
    else OneMoreIn(bits, ValuesIn(bits, shapes[..|shapes| - 1]), shapes[|shapes| - 1])
  }

  function OneMoreIn(bits: seq<bool>, front: Option<(seq<Value>, nat)>, shape: Shape): Option<(seq<Value>, nat)> {
    match front
    case None => None
    case Some((vs, pos)) =>
      match ValueIn(bits, pos, shape)
      case None => None
      case Some((v, end)) => Some((vs + [v], end))
  }

  /** The bits, in whole bytes, that must be there for every flag among the values to be readable. */
  function FlagRoom(values: seq<Value>): nat {
    if |values| == 0 then 0
    else
      var front := FlagRoom(values[..|values| - 1]);
      var here := 8 * CeilBytes(|CodedAll(values[..|values| - 1])| + 8);
      if values[|values| - 1].Flag? && here > front then here else front
  }

  lemma {:induction false} IntsReadBack(bits: seq<bool>, pos: nat, w: nat, signed: bool, vs: seq<int>)
    requires w >= 1 && forall v | v in vs :: FitsIn(w, signed, v)
    requires pos + w * |vs| <= |bits|
    requires bits[pos..pos + w * |vs|] == CodedInts(w, vs)
    ensures IntsIn(bits, pos, w, signed, |vs|) == vs
  {
    hide Bit, Field, FitsIn;
    if |vs| > 0 {
      var front, last := vs[..|vs| - 1], vs[|vs| - 1];
      OneMore(w, |vs|);
      OneMore(w, |front|);
      Halves(bits, pos, CodedInts(w, front), Field(last, w));
      IntsReadBack(bits, pos, w, signed, front);
      IntOfField(w, signed, last);
    }
  }

  /** Where `a + b` lies in a bit string, `a` lies first and `b` behind it. */
  lemma Halves(bits: seq<bool>, pos: nat, a: seq<bool>, b: seq<bool>)
    requires pos + |a| + |b| <= |bits| && bits[pos..pos + |a| + |b|] == a + b
    ensures bits[pos..pos + |a|] == a
    ensures bits[pos + |a|..pos + |a| + |b|] == b
  {
    assert bits[pos..pos + |a|] == bits[pos..pos + |a| + |b|][..|a|];
    assert bits[pos + |a|..pos + |a| + |b|] == bits[pos..pos + |a| + |b|][|a|..];
  }

  lemma NumbersReadBack(bits: seq<bool>, pos: nat, kind: Kind, vs: seq<int>)
    requires Representable(Numbers(kind, vs))
    requires pos + |Coded(Numbers(kind, vs))| <= |bits|
    requires bits[pos..pos + |Coded(Numbers(kind, vs))|] == Coded(Numbers(kind, vs))
    ensures ValueIn(bits, pos, NumbersShape(kind)) == Some((Numbers(kind, vs), pos + |Coded(Numbers(kind, vs))|))
  {
    hide VarBytes, Bits, IntsIn, CodedInts, Field;
    var front := Bits(VarBytes(|vs|));
    Halves(bits, pos, front, CodedInts(BitWidth(kind), vs));
    VarRoundTrip(bits, pos, |vs|);
    IntsReadBack(bits, pos + |front|, BitWidth(kind), Signed(kind), vs);
  }

  /** One value at any bit position: everything but a flag only needs its own bits to be there. */
  lemma ValueReadsBack(bits: seq<bool>, pos: nat, value: Value)
    requires Representable(value)
    requires pos + |Coded(value)| <= |bits|
    requires bits[pos..pos + |Coded(value)|] == Coded(value)
    ensures ValueIn(bits, pos, ShapeOf(value)) ==
            if value.Flag? && 8 * CeilBytes(pos + 8) > |bits| then None else Some((value, pos + |Coded(value)|))
  {
    match value
    case Flag(b) =>
      assert bits[pos..pos + 1][0] == bits[pos];
    case Number(kind, v) =>
      IntOfField(BitWidth(kind), Signed(kind), v);
    case Numbers(kind, vs) =>
      NumbersReadBack(bits, pos, kind, vs);
  }

  /** Any sequence of values at the start of a buffer reads back in order, exactly when every flag has the
      byte its read needs; otherwise the reads end in an `IndexError`. */
  lemma {:induction false} ValuesReadBack(bits: seq<bool>, values: seq<Value>)
    requires forall v | v in values :: Representable(v)
    requires CodedAll(values) <= bits
    ensures ValuesIn(bits, Shapes(values)) ==
            if FlagRoom(values) <= |bits| then Some((values, |CodedAll(values)|)) else None
  {
    hide ValueIn, Coded, Representable;
    if |values| > 0 {
      var front, last := values[..|values| - 1], values[|values| - 1];
      assert values == front + [last];
      ValuesReadBack(bits, front);
      ValuesStep(bits, front, last);
      OneMoreReadsBack(bits, front, last, CodedAll(front));
    }
  }

  lemma OneMoreReadsBack(bits: seq<bool>, front: seq<Value>, last: Value, coded: seq<bool>)
    requires Representable(last) && coded + Coded(last) <= bits
    ensures OneMoreIn(bits, Some((front, |coded|)), ShapeOf(last)) ==
            if last.Flag? && 8 * CeilBytes(|coded| + 8) > |bits| then None
            else Some((front + [last], |coded + Coded(last)|))
  {
    hide ValueIn, Coded, Field, Bits, VarBytes;
    LastCoded(bits, coded, last);
    ValueReadsBack(bits, |coded|, last);
  }

  lemma LastCoded(bits: seq<bool>, front: seq<bool>, last: Value)
    requires front + Coded(last) <= bits
    ensures bits[|front|..|front| + |Coded(last)|] == Coded(last)
  {
    PrefixSlice(front + Coded(last), bits, |front|, |front| + |Coded(last)|);
    assert (front + Coded(last))[|front|..|front| + |Coded(last)|] == Coded(last);
  }

  lemma ValuesStep(bits: seq<bool>, front: seq<Value>, last: Value)
    ensures ValuesIn(bits, Shapes(front + [last])) == OneMoreIn(bits, ValuesIn(bits, Shapes(front)), ShapeOf(last))
  {
    var all := Shapes(front + [last]);
    assert all[..|all| - 1] == Shapes(front);
    assert all[|all| - 1] == ShapeOf(last);
  }

  /** The flag read of the code agrees with `FlagIn`. */
  lemma FlagRead(buffer: seq<byte>, pos: nat)
    ensures FlagIn(Bits(buffer), pos) ==
            match GetBits(1, buffer, pos) case None => None case Some(v) => Some(v != 0)
  {
    GetBitsValue(1, buffer, pos);
    if GetBits(1, buffer, pos).Some? {
      var one := Bits(buffer)[pos..pos + 1];
      assert Val(one[1..]) == 0;
      assert one[0] == Bits(buffer)[pos];
    }
  }
}
