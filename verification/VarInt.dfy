/** Variable-length integers: unsigned LEB128 (section 7.6 of the DWARF 5 standard) at any bit position, and the
    zigzag mapping of signed integers to unsigned ones. */
module VarInt {
  import opened PyInt
  import opened BitBuffer
  import opened Reading

  // ---------- unsigned LEB128 ----------

  /** Groups of seven bits, lowest first; every byte but the last carries the continuation bit. */
  function VarBytes(value: nat): (r: seq<byte>)
    ensures |r| >= 1
  {
    if value < 128 then [value] else [128 + value % 128] + VarBytes(value / 128)
  }

  /** `None` for the exception on a negative value. */
  method ToVarULong(value: int) returns (r: Option<seq<byte>>)
    ensures r == if value < 0 then None else Some(VarBytes(value))
  {
    hide And, Or, Shr;
    if value < 0 {
      return None;
    }
    var data: seq<byte> := [];
    var rest := value;
    while true
      invariant rest >= 0 && VarBytes(value) == data + VarBytes(rest)
      decreases rest
    {
      GroupOf(rest);
      var b := And(rest, 127);
      var next := Shr(rest, 7);
      if next != 0 {
        data := data + [Or(b, 128)];
        rest := next;
      } else {
        data := data + [b];
        break;
      }
    }
    return Some(data);
  }

  lemma GroupOf(value: nat)
    ensures And(value, 127) == value % 128
    ensures Shr(value, 7) == value / 128
    ensures Or(value % 128, 128) == value % 128 + 128
  {
    Pow2Values();
    AndMask(value, 7);
    LowIsMod(value, 7);
    LowCongruent(value, 7);
    OrIsPlus(value % 128, 1, 7);
  }

  /** What `fromVarULong` decodes at position `pos` of a bit string: the value and the number of bits it took.
      `None` when the bits end before a group without continuation bit. */
  function VarIn(bits: seq<bool>, pos: nat): (r: Option<(nat, nat)>)
    decreases |bits| - pos
  {
    if pos + 8 > |bits| then None
    else
      var g := Val(bits[pos..pos + 8]);
      if g < 128 then Some((g, 8))
      else
        match VarIn(bits, pos + 8)
        case None => None
        case Some((v, length)) => Some((g - 128 + 128 * v, length + 8))
  }

  /** An unaligned read of a byte may carry further bits above bit 7; the masks of the loop drop them. */
  lemma ByteParts(b: int)
    ensures 0 <= Low(b, 8) < 256
    ensures And(b, 127) == Low(b, 8) % 128
    ensures And(b, 128) == 0 <==> Low(b, 8) < 128
  {
    Pow2Values();
    AndMask(b, 7);
    LowRange(b, 8);
    LowLow(b, 8, 7);
    LowIsMod(Low(b, 8), 7);
    TopBit(b);
  }

  lemma TopBit(b: int)
    ensures And(b, 128) == 0 <==> Low(b, 8) < 128
  {
    Pow2Values();
    if Bit(b, 7) {
      BitAnd(b, 128, 7);
      BitShl(1, 7, 7);
      BitOfZero(7);
      if Low(b, 8) < 128 {
        LowRange(b, 8);
        LowSmall(Low(b, 8), 7);
        BitLow(Low(b, 8), 7, 7);
        BitLow(b, 8, 7);
      }
    } else {
      forall k: nat
        ensures Bit(And(b, 128), k) == Bit(0, k)
        ensures Bit(Low(b, 8), k) == Bit(Low(b, 7), k)
      {
        BitAnd(b, 128, k);
        BitShl(1, 7, k);
        if k > 7 {
          BitOne(k - 7);
        }
        BitOfZero(k);
        BitLow(b, 8, k);
        BitLow(b, 7, k);
      }
      SameBits(And(b, 128), 0);
      SameBits(Low(b, 8), Low(b, 7));
      LowRange(b, 7);
    }
  }

  lemma BitOne(k: nat)
    requires k > 0
    ensures !Bit(1, k)
  {
    BitOfZero(k - 1);
  }

  method FromVarULong(data: seq<byte>, pos: nat) returns (r: Option<(nat, nat)>)
    ensures r == VarIn(Bits(data), pos)
  {
    hide And, Or, Bit, Low, VarIn;
    var shift, val, bytesRead := 0, 0, 0;
    ghost var whole := VarIn(Bits(data), pos);
    assert whole == Shifted(whole, val, shift, 0);
    while true
      invariant 0 <= val < Pow2(shift)
      invariant whole == Shifted(VarIn(Bits(data), pos + 8 * bytesRead), val, shift, 8 * bytesRead)
      decreases 8 * |data| - pos - 8 * bytesRead
    {
      var at := pos + 8 * bytesRead;
      Turn(data, at, val, shift, 8 * bytesRead);
      var b := ByteFromBits(data, at);
      if b.None? {
        return None;
      }
      val := Or(val, Shl(And(b.value, 127), shift));
      bytesRead := bytesRead + 1;
      shift := shift + 7;
      if And(b.value, 128) == 0 {
        return Some((val, bytesRead * 8));
      }
    }
  }

  /** One turn of the loop. */
  lemma Turn(data: seq<byte>, at: nat, val: nat, shift: nat, length: nat)
    requires val < Pow2(shift)
    ensures ByteFromBits(data, at).None? ==> VarIn(Bits(data), at) == None
    ensures ByteFromBits(data, at).Some? ==>
              var b := ByteFromBits(data, at).value;
              var next := Or(val, Shl(And(b, 127), shift));
              && at + 8 <= 8 * |data|
              && 0 <= next < Pow2(shift + 7)
              && Shifted(VarIn(Bits(data), at), val, shift, length) ==
                 if And(b, 128) == 0 then Some((next, length + 8))
                 else Shifted(VarIn(Bits(data), at + 8), next, shift + 7, length + 8)
  {
    hide And, Or, Shl, Bit, Low, VarBytes;
    IntFromBitsLow(data, 1, at, 8);
    if ByteFromBits(data, at).Some? {
      var b := ByteFromBits(data, at).value;
      ByteParts(b);
      OneGroup(VarIn(Bits(data), at + 8), Low(b, 8), val, shift, length);
    }
  }

  /** A group goes above the bits read so far. */
  lemma OneGroup(rest: Option<(nat, nat)>, group: byte, val: nat, shift: nat, bits: nat)
    requires val < Pow2(shift)
    ensures 0 <= Or(val, Shl(group % 128, shift)) < Pow2(shift + 7)
    ensures group < 128 ==>
              Shifted(Some((group, 8)), val, shift, bits) == Some((Or(val, Shl(group % 128, shift)), bits + 8))
    ensures group >= 128 ==>
              Shifted(match rest case None => None case Some((v, more)) => Some((group - 128 + 128 * v, more + 8)),
                  val, shift, bits)
              == Shifted(rest, Or(val, Shl(group % 128, shift)), shift + 7, bits + 8)
  {
    hide And, Or, Shl, Bit;
    AddGroup(val, group % 128, shift);
    if group >= 128 {
      ShiftedTwice(rest, group % 128, val, shift, bits);
    }
  }

  function Shifted(r: Option<(nat, nat)>, val: nat, shift: nat, bits: nat): Option<(nat, nat)> {
    Pow2Step(shift);
    match r
    case None => None
    case Some((v, more)) => Some((val + Pow2(shift) * v, bits + more))
  }

  lemma AddGroup(val: nat, group: nat, shift: nat)
    requires val < Pow2(shift) && group < 128
    ensures Or(val, Shl(group, shift)) == val + Pow2(shift) * group
    ensures 0 <= val + Pow2(shift) * group < Pow2(shift + 7)
  {
    OrIsPlus(val, group, shift);
    ShlIsTimes(group, shift);
    GroupBound(Pow2(shift), val, group);
    NextPower(shift);
  }

  lemma NextPower(shift: nat)
    ensures Pow2(shift + 7) == Pow2(shift) * 128
  {
    assert Pow2(7) == 128;
    Pow2Add(shift, 7);
  }

  lemma GroupBound(p: int, val: int, group: int)
    requires 0 <= val < p && 0 <= group < 128
    ensures 0 <= val + p * group < p * 128
  {
    TimesMonotone(p, 0, group);
    TimesMonotone(p, group, 127);
  }

  lemma ShiftedTwice(r: Option<(nat, nat)>, group: nat, val: nat, shift: nat, bits: nat)
    requires val < Pow2(shift) && group < 128
    ensures val + Pow2(shift) * group >= 0
    ensures
      Shifted(match r case None => None case Some((v, more)) => Some((group + 128 * v, more + 8)), val, shift, bits) ==
      Shifted(r, val + Pow2(shift) * group, shift + 7, bits + 8)
  {
    GroupBound(Pow2(shift), val, group);
    NextPower(shift);
    match r
    case None =>
    case Some((v, more)) =>
      assert Pow2(shift) * (group + 128 * v) == Pow2(shift) * group + Pow2(shift) * 128 * v;
  }

  /** The first group of an encoding, and the rest. */
  lemma FirstGroup(bits: seq<bool>, pos: nat, coded: seq<byte>)
    requires |coded| >= 1 && pos + 8 * |coded| <= |bits|
    requires bits[pos..pos + 8 * |coded|] == Bits(coded)
    ensures Val(bits[pos..pos + 8]) == coded[0]
    ensures bits[pos + 8..pos + 8 * |coded|] == Bits(coded[1..])
  {
    BitsOfByte(coded[0]);
    BitsConcat([coded[0]], coded[1..]);
    assert coded == [coded[0]] + coded[1..];
    assert bits[pos..pos + 8] == Bits(coded)[..8];
    assert bits[pos + 8..pos + 8 * |coded|] == Bits(coded)[8..];
  }

  /** Decoding undoes encoding for every natural number, at every bit position, whatever comes before and after. */
  lemma {:induction false} VarRoundTrip(bits: seq<bool>, pos: nat, value: nat)
    requires pos + 8 * |VarBytes(value)| <= |bits|
    requires bits[pos..pos + 8 * |VarBytes(value)|] == Bits(VarBytes(value))
    ensures VarIn(bits, pos) == Some((value, 8 * |VarBytes(value)|))
    decreases value
  {
    var coded := VarBytes(value);
    FirstGroup(bits, pos, coded);
    if value >= 128 {
      assert coded[1..] == VarBytes(value / 128);
      VarRoundTrip(bits, pos + 8, value / 128);
    }
  }

  /** The encoding takes as many bytes as the value has groups of seven bits, zero counting as one group. */
  lemma {:induction false} VarLength(value: nat)
    ensures value < Pow2(7 * |VarBytes(value)|)
    ensures |VarBytes(value)| > 1 ==> value >= Pow2(7 * (|VarBytes(value)| - 1))
  {
    Pow2Values();
    if value >= 128 {
      var n := |VarBytes(value / 128)|;
      VarLength(value / 128);
      Pow2Add(7, 7 * n);
      if n > 1 {
        Pow2Add(7, 7 * (n - 1));
      }
    }
  }

  lemma {:induction false} VarInBound(bits: seq<bool>, pos: nat)
    requires VarIn(bits, pos).Some?
    ensures
      var (v, length) := VarIn(bits, pos).value;
      length % 8 == 0 && length >= 8 && v < Pow2(7 * (length / 8))
    decreases |bits| - pos
  {
    var g := Val(bits[pos..pos + 8]);
    if g < 128 {
      assert Pow2(7) == 128;
    } else {
      assert Pow2(8) == 256;
      ValRange(bits[pos..pos + 8]);
      VarInBound(bits, pos + 8);
      var (v, length) := VarIn(bits, pos + 8).value;
      assert (length + 8) / 8 == length / 8 + 1;
      NextPower(7 * (length / 8));
    }
  }

  /** No bit string that decodes to the same value is shorter than the encoding. */
  lemma VarShortest(bits: seq<bool>, pos: nat)
    requires VarIn(bits, pos).Some?
    ensures VarIn(bits, pos).value.1 >= 8 * |VarBytes(VarIn(bits, pos).value.0)|
  {
    var (v, length) := VarIn(bits, pos).value;
    var n := |VarBytes(v)|;
    VarInBound(bits, pos);
    VarLength(v);
    if length / 8 < n {
      Pow2Monotone(7 * (length / 8), 7 * (n - 1));
    }
  }

  lemma {:induction false} Pow2Monotone(a: nat, b: nat)
    requires a <= b
    ensures Pow2(a) <= Pow2(b)
    decreases b
  {
    if a < b {
      Pow2Step(b - 1);
      Pow2Monotone(a, b - 1);
    }
  }

  // ---------- zigzag ----------

  function ZigzagEncode(value: int, bitcount: nat): int
    requires bitcount >= 1
  {
    Xor(Shr(value, bitcount - 1), Shl(value, 1))
  }

  function ZigzagDecode(value: int): int {
    Xor(Shr(value, 1), -And(value, 1))
  }

  lemma DecodedBit(value: int, bitcount: nat, k: nat)
    requires bitcount >= 1
    ensures
      var top := Shr(value, bitcount - 1);
      Bit(ZigzagDecode(ZigzagEncode(value, bitcount)), k) == ((Bit(top, k + 1) != Bit(value, k)) != Bit(top, 0))
  {
    hide And, Or, Xor;
    var top, e := Shr(value, bitcount - 1), ZigzagEncode(value, bitcount);
    BitXor(top, Shl(value, 1), k + 1);
    BitXor(top, Shl(value, 1), 0);
    BitShl(value, 1, k + 1);
    BitShl(value, 1, 0);
    BitXor(Shr(e, 1), -And(e, 1), k);
    BitShr(e, 1, k);
    MinusLowest(e, k);
  }

  lemma MinusLowest(e: int, k: nat)
    ensures Bit(-And(e, 1), k) == Bit(e, 0)
  {
    assert Pow2(1) == 2;
    AndMask(e, 1);
    assert Low(e, 1) == e % 2 + 2 * Low(e / 2, 0);
    BitOfZero(k);
  }

  /** Zigzag of `bitcount` bits round-trips exactly the signed integers of that width. */
  lemma ZigzagRoundTrip(value: int, bitcount: nat)
    requires bitcount >= 1
    ensures ZigzagDecode(ZigzagEncode(value, bitcount)) == value <==>
            -Pow2(bitcount - 1) <= value < Pow2(bitcount - 1)
  {
    var top := Shr(value, bitcount - 1);
    var d := ZigzagDecode(ZigzagEncode(value, bitcount));
    ShiftedOut(value, bitcount - 1);
    forall k: nat
      ensures Bit(d, k) == ((Bit(top, k + 1) != Bit(value, k)) != Bit(top, 0))
    {
      DecodedBit(value, bitcount, k);
    }
    if d == value {
      forall k: nat
        ensures Bit(top, k) == Bit(top, 0)
      {
        if k > 0 {
          assert Bit(d, k - 1) == Bit(value, k - 1);
        }
      }
      Uniform(top);
    } else if top == 0 || top == -1 {
      forall k: nat
        ensures Bit(d, k) == Bit(value, k)
      {
        BitOfZero(k + 1);
      }
      SameBits(d, value);
    }
  }

  lemma Uniform(x: int)
    requires forall k: nat :: Bit(x, k) == Bit(x, 0)
    ensures x == 0 || x == -1
  {
    var u := if Bit(x, 0) then -1 else 0;
    forall k: nat
      ensures Bit(u, k) == Bit(x, k)
    {
      BitOfZero(k);
    }
    SameBits(u, x);
  }

  /** Signed 64-bit integers become small unsigned ones: 0, -1, 1, -2, ... to 0, 1, 2, 3, ... */
  lemma ZigzagValue(value: int, bitcount: nat)
    requires bitcount >= 1 && -Pow2(bitcount - 1) <= value < Pow2(bitcount - 1)
    ensures ZigzagEncode(value, bitcount) == if value >= 0 then 2 * value else -2 * value - 1
  {
    var top := Shr(value, bitcount - 1);
    ShiftedOut(value, bitcount - 1);
    assert Shl(value, 1) == 2 * value;
    var e := if value >= 0 then 2 * value else Not(2 * value);
    forall k: nat
      ensures Bit(ZigzagEncode(value, bitcount), k) == Bit(e, k)
    {
      BitXor(top, 2 * value, k);
      BitOfZero(k);
      BitNot(2 * value, k);
    }
    SameBits(ZigzagEncode(value, bitcount), e);
  }

  lemma {:induction false} AndSign(x: int, y: int)
    ensures And(x, y) < 0 <==> x < 0 && y < 0
    decreases Magnitude(x) + Magnitude(y)
  {
    if x != 0 && y != 0 && x != -1 && y != -1 {
      AndSign(x / 2, y / 2);
    }
  }

  /** Zigzag makes a natural number of every integer, however large. */
  lemma ZigzagNatural(value: int, bitcount: nat)
    requires bitcount >= 1
    ensures ZigzagEncode(value, bitcount) >= 0
  {
    hide And, Shr;
    var x, y := Shr(value, bitcount - 1), Shl(value, 1);
    ShiftedOut(value, bitcount - 1);
    assert Shl(value, 1) == 2 * value;
    AndSign(x, Not(y));
    AndSign(Not(x), y);
    AndSign(Not(And(x, Not(y))), Not(And(Not(x), y)));
  }

  /** The encoding of a signed integer. */
  function SignedBytes(value: int): seq<byte> {
    ZigzagNatural(value, 64);
    VarBytes(ZigzagEncode(value, 64))
  }

  method ToVarLong(value: int) returns (r: Option<seq<byte>>)
    ensures r == Some(SignedBytes(value))
  {
    r := ToVarULong(ZigzagEncode(value, 64));
    ZigzagNatural(value, 64);
  }

  method FromVarLong(data: seq<byte>, pos: nat) returns (r: Option<(int, nat)>)
    ensures r.None? <==> VarIn(Bits(data), pos).None?
    ensures r.Some? ==> r.value == (ZigzagDecode(VarIn(Bits(data), pos).value.0), VarIn(Bits(data), pos).value.1)
  {
    var unsigned := FromVarULong(data, pos);
    if unsigned.None? {
      return None;
    }
    return Some((ZigzagDecode(unsigned.value.0), unsigned.value.1));
  }

  /** Exactly the signed 64-bit integers survive zigzag and LEB128 together, at every bit position. */
  lemma SignedVarRoundTrip(bits: seq<bool>, pos: nat, value: int)
    requires pos + 8 * |SignedBytes(value)| <= |bits|
    requires bits[pos..pos + 8 * |SignedBytes(value)|] == Bits(SignedBytes(value))
    ensures VarIn(bits, pos).Some? && VarIn(bits, pos).value.1 == 8 * |SignedBytes(value)|
    ensures ZigzagDecode(VarIn(bits, pos).value.0) == value <==> -Pow2(63) <= value < Pow2(63)
  {
    hide ZigzagEncode, ZigzagDecode;
    ZigzagNatural(value, 64);
    VarRoundTrip(bits, pos, ZigzagEncode(value, 64));
    ZigzagRoundTrip(value, 64);
  }
}
