/** A message: its typed payload, and the byte stream it is sent as. */
module MessageFormat {
  import opened PyInt
  import opened BitBuffer
  import opened Converter
  import opened Reading
  import opened VarInt
  import opened Typed

  const MAX_SIZE := 6 + 1225
  const MAX_BIT_COUNT := 8 * MAX_SIZE

  const NOTIFY := 6
  const RELIABLE := 7

  predicate HasMessageID(header: int) {
    header == 0 || header == RELIABLE
  }

  // ---------- the wire format ----------

  /** Four header bits, then 40 notify bits or a 16-bit sequence ID, by header. */
  function HeaderBits(header: int, seqID: int, notifyBits: int): seq<bool> {
    Field(header, 4) +
    (if header < NOTIFY then [] else if header < RELIABLE then Field(notifyBits, 40) else Field(seqID, 16))
  }

  function IDBits(header: int, msgID: nat): seq<bool> {
    if HasMessageID(header) then Bits(VarBytes(msgID)) else []
  }

  function WireBits(header: int, seqID: int, notifyBits: int, msgID: nat, payload: seq<bool>): seq<bool> {
    HeaderBits(header, seqID, notifyBits) + IDBits(header, msgID) + payload
  }

  /** Bytes on the wire for that many bits; the 64-bit store of the notify bits reserves nine bytes. */
  function WireBytes(header: int, bits: nat): nat {
    if header == NOTIFY && CeilBytes(bits) < 9 then 9 else CeilBytes(bits)
  }

  /** What a receiver makes of a byte stream, up to the payload: `field` is the sequence ID or the notify bits. */
  datatype Head = Head(header: int, field: int, msgID: int, bitpos: nat)

  function ParseFixed(bits: seq<bool>): Option<(int, int, nat)> {
    if |bits| < 8 then None
    else
      var header := Val(bits[..4]);
      if header < NOTIFY then Some((header, 0, 4))
      else if header < RELIABLE then
        if |bits| < 72 then None else Some((header, Val(bits[4..44]), 44))
      else
        if |bits| < 24 then None else Some((header, Val(bits[4..20]), 20))
  }

  /** `None` is the `IndexError` of a stream that ends too early; -1 stands for "no message ID". */
  function ParseHead(bits: seq<bool>): Option<Head> {
    match ParseFixed(bits)
    case None => None
    case Some((header, field, pos)) =>
      if !HasMessageID(header) then Some(Head(header, field, -1, pos))
      else
        match VarIn(bits, pos)
        case None => None
        case Some((id, length)) => Some(Head(header, field, id, pos + length))
  }

  /** The layout, header by header: what follows the four header bits. Only headers 0 and 7 carry a message ID. */
  lemma WireLayout(seqID: int, notifyBits: int, msgID: nat, payload: seq<bool>)
    ensures WireBits(0, seqID, notifyBits, msgID, payload) == Field(0, 4) + Bits(VarBytes(msgID)) + payload
    ensures forall h | 1 <= h <= 5 :: WireBits(h, seqID, notifyBits, msgID, payload) == Field(h, 4) + payload
    ensures WireBits(6, seqID, notifyBits, msgID, payload) == Field(6, 4) + Field(notifyBits, 40) + payload
    ensures WireBits(7, seqID, notifyBits, msgID, payload) ==
            Field(7, 4) + Field(seqID, 16) + Bits(VarBytes(msgID)) + payload
    ensures forall h | 8 <= h <= 10 ::
      WireBits(h, seqID, notifyBits, msgID, payload) == Field(h, 4) + Field(seqID, 16) + payload
  {
    hide Field, Bits, VarBytes;
    forall h: int
      ensures Field(h, 4) + [] == Field(h, 4)
      ensures Field(h, 4) + Field(seqID, 16) + [] == Field(h, 4) + Field(seqID, 16)
    {
    }
    assert Field(6, 4) + Field(notifyBits, 40) + [] == Field(6, 4) + Field(notifyBits, 40);
  }

  /** How many bytes a stream has: with nine at least for notify messages, of which eight are reserved for the bits. */
  lemma StreamLength(header: int, seqID: int, notifyBits: int, msgID: nat, payload: seq<bool>)
    ensures
      var bytes, n := WireBytes(header, |WireBits(header, seqID, notifyBits, msgID, payload)|), |payload|;
      && (header == 0 ==> bytes == CeilBytes(4 + 8 * |VarBytes(msgID)| + n))
      && (1 <= header <= 5 ==> bytes == CeilBytes(4 + n))
      && (header == 6 ==> bytes == if n > 28 then CeilBytes(44 + n) else 9)
      && (header == 7 ==> bytes == CeilBytes(20 + 8 * |VarBytes(msgID)| + n))
      && (8 <= header <= 10 ==> bytes == CeilBytes(20 + n))
  {
    hide Field, Bits, VarBytes;
  }

  /** Where the payload begins in a stream, header by header, and when it is too short for that. */
  lemma PayloadStart(bits: seq<bool>)
    ensures ParseHead(bits).None? <==>
            || |bits| < 8
            || (Val(bits[..4]) == 0 && VarIn(bits, 4).None?)
            || (Val(bits[..4]) == 6 && |bits| < 72)
            || (Val(bits[..4]) >= 7 && |bits| < 24)
            || (Val(bits[..4]) == 7 && VarIn(bits, 20).None?)
    ensures
      var head := ParseHead(bits);
      head.Some? ==>
        var header, start := head.value.header, head.value.bitpos;
        && header == Val(bits[..4])
        && (header == 0 ==> start == 4 + VarIn(bits, 4).value.1 && head.value.msgID == VarIn(bits, 4).value.0)
        && (1 <= header <= 5 ==> start == 4)
        && (header == 6 ==> start == 44 && head.value.field == Val(bits[4..44]))
        && (header == 7 ==> start == 20 + VarIn(bits, 20).value.1 && head.value.msgID == VarIn(bits, 20).value.0)
        && (header >= 8 ==> start == 20)
        && (header >= 7 ==> head.value.field == Val(bits[4..20]))
  {
    hide Val, VarIn;
  }

  /** Parsing undoes printing: the header, the sequence ID modulo 65536 or the 40 notify bits, and the message
      ID come back, and the payload starts where it was written. */
  lemma ParsePrinted(bits: seq<bool>, header: int, seqID: int, notifyBits: int, msgID: nat, payload: seq<bool>)
    requires 0 <= header <= 10
    requires WireBits(header, seqID, notifyBits, msgID, payload) <= bits
    requires |bits| == 8 * WireBytes(header, |WireBits(header, seqID, notifyBits, msgID, payload)|)
    ensures ParseHead(bits) ==
            Some(Head(header,
                      if header < NOTIFY then 0 else if header < RELIABLE then Low(notifyBits, 40) else Low(seqID, 16),
                      if HasMessageID(header) then msgID else -1,
                      |HeaderBits(header, seqID, notifyBits)| + |IDBits(header, msgID)|))
  {
    hide VarBytes, Bits, Field, Val, VarIn;
    var h, id := HeaderBits(header, seqID, notifyBits), IDBits(header, msgID);
    assert Pow2(4) == 16;
    PrefixSlice(WireBits(header, seqID, notifyBits, msgID, payload), bits, 0, 4);
    PrefixSlice(WireBits(header, seqID, notifyBits, msgID, payload), bits, 4, |h|);
    PrefixSlice(WireBits(header, seqID, notifyBits, msgID, payload), bits, |h|, |h| + |id|);
    var wire := WireBits(header, seqID, notifyBits, msgID, payload);
    assert wire[0..4] == Field(header, 4);
    assert wire[4..|h|] == h[4..];
    assert wire[|h|..|h| + |id|] == id;
    assert bits[..4] == bits[0..4];
    ValField(header, 4);
    LowSmall(header, 4);
    ValField(notifyBits, 40);
    ValField(seqID, 16);
    if HasMessageID(header) {
      VarRoundTrip(bits, |h|, msgID);
    }
  }

  /** Whether an element of an array goes in when this many bits are written. */
  predicate Goes(kind: Kind, value: int, written: nat) {
    Fits(kind, value) && (BitWidth(kind) == 8 || written + BitWidth(kind) <= MAX_BIT_COUNT)
  }

  /** What is left behind bit `at` is zero. */
  ghost predicate ZeroBehind(buffer: seq<byte>, at: nat) {
    forall k | at <= k < 8 * |buffer| :: !Bits(buffer)[k]
  }

  /** A stream under construction: `front` has been written, all is zero from bit `zero` on, and it is no longer
      than it has to be. */
  ghost predicate Built(header: int, buffer: seq<byte>, front: seq<bool>, zero: nat) {
    && front <= Bits(buffer)
    && ZeroBehind(buffer, zero)
    && |buffer| == WireBytes(header, |front|)
  }

  /** The three bytes of a reliable header: of the sequence ID there are 20 bits, not 16. */
  ghost predicate Leaky(header: int, seqID: int, buffer: seq<byte>) {
    Bits(buffer) == Field(header, 4) + Field(seqID, 20)
  }

  lemma Leaks(header: int, seqID: int, before: seq<byte>, after: seq<byte>, payload: seq<bool>)
    requires Leaky(header, seqID, before) && |payload| < 4
    requires Bits(after) == Stored(before, 20, payload, |payload|)
    ensures |after| == 3 && Bits(after)[20 + |payload|..] == Field(seqID, 20)[16 + |payload|..]
  {
    hide Bit, Bits, Field;
    var n := 20 + |payload|;
    assert |Bits(before)| == 24;
    assert Bits(after)[n..] == Bits(before)[n..];
    assert (Field(header, 4) + Field(seqID, 20))[n..] == Field(seqID, 20)[n - 4..];
  }

  /** A store right behind the front lengthens the front. */
  lemma Lengthened(header: int, before: seq<byte>, after: seq<byte>, front: seq<bool>, field: seq<bool>, zero: nat)
    requires Built(header, before, front, zero)
    requires Bits(after) == Stored(before, |front|, field, |field|)
    ensures Built(header, after, front + field, if zero > |front| + |field| then zero else |front| + |field|)
  {
    hide Bits, Stored;
    StoreAppends(before, after, front, field, |field|);
  }

  lemma AllFits(value: seq<byte>, room: nat)
    requires 8 * |value| <= room
    ensures Fitting(value, room) == Bits(value)
  {
  }

  /** Bits written at the end of the written part. */
  lemma Appended(before: seq<byte>, n: nat, written: nat, field: seq<bool>, after: seq<byte>)
    requires written <= 8 * |before| && written + |field| <= 8 * |Grown(before, n)|
    requires Bits(after) == Splice(Bits(Grown(before, n)), written, field)
    ensures |after| == |Grown(before, n)|
    ensures Bits(after)[..written + |field|] == Bits(before)[..written] + field
  {
    BitsGrown(before, n);
    assert Bits(Grown(before, n))[..written] == Bits(before)[..written];
  }

  class Message {
    var header: int
    var seqID: int
    var msgID: int
    var notifyBits: int
    var data: ByteArray
    var readBit: nat
    var writeBit: nat

    ghost predicate Valid()
      reads this, data
    {
      writeBit <= 8 * |data.bytes|
    }

    /** The bits written so far. */
    ghost function Payload(): (r: seq<bool>)
      requires Valid()
      reads this, data
      ensures |r| == writeBit
    {
      Bits(data.bytes)[..writeBit]
    }

    constructor (header: int)
      ensures Valid() && fresh(data) && data.bytes == []
      ensures this.header == header && readBit == 0 && writeBit == 0
      ensures seqID == -1 && msgID == -1 && notifyBits == -1
    {
      this.header := header;
      seqID, msgID, notifyBits := -1, -1, -1;
      data := new ByteArray([]);
      readBit, writeBit := 0, 0;
    }

    // ---------- appending ----------

    method AppendBits(value: seq<byte>)
      requires Valid()
      modifies this`writeBit, data
      ensures Valid() && writeBit == old(writeBit) + 8 * |value|
      ensures Payload() == old(Payload()) + Bits(value)
      ensures |data.bytes| >= |old(data.bytes)|
    {
      hide Bits, Splice;
      var required := CeilBytes(writeBit) + |value|;
      ghost var before := data.bytes;
      if |data.bytes| < required {
        data.bytes := data.bytes + ZeroBytes(required - |data.bytes|);
      }
      var _ := BytesToBits(value, data, writeBit);
      AllFits(value, 8 * |data.bytes| - writeBit);
      Appended(before, required, writeBit, Bits(value), data.bytes);
      writeBit := writeBit + 8 * |value|;
    }

    /** `false` for the exception that there is no room; the message is then unchanged. */
    method PutBool(value: bool) returns (ok: bool)
      requires Valid()
      modifies this`writeBit, data
      ensures Valid() && ok == (old(writeBit) + 1 <= MAX_BIT_COUNT)
      ensures ok ==> writeBit == old(writeBit) + 1 && Payload() == old(Payload()) + [value]
      ensures ok ==> |data.bytes| >= CeilBytes(old(writeBit) + 8)
      ensures !ok ==> writeBit == old(writeBit) && data.bytes == old(data.bytes)
      ensures |data.bytes| >= |old(data.bytes)|
    {
      if MAX_BIT_COUNT - writeBit < 1 {
        return false;
      }
      hide Bits, Splice, Bit;
      ghost var before := data.bytes;
      var bit := if value then 1 else 0;
      SetBits8(bit, 1, data, writeBit);
      OneBit(value);
      Appended(before, CeilBytes(writeBit + 8), writeBit, [value], data.bytes);
      writeBit := writeBit + 1;
      return true;
    }

    /** The eight fixed-width integer puts. `false` when there is no room or the integer does not fit its kind. */
    method PutInt(kind: Kind, value: int) returns (ok: bool)
      requires Valid()
      modifies this`writeBit, data
      ensures Valid() && ok == (old(writeBit) + BitWidth(kind) <= MAX_BIT_COUNT && Fits(kind, value))
      ensures
        var room := 9848 - old(writeBit);
        match kind
        case Int8 => ok == (room >= 8 && -0x80 <= value < 0x80)
        case UInt8 => ok == (room >= 8 && 0 <= value < 0x100)
        case Int16 => ok == (room >= 16 && -0x8000 <= value < 0x8000)
        case UInt16 => ok == (room >= 16 && 0 <= value < 0x1_0000)
        case Int32 => ok == (room >= 32 && -0x8000_0000 <= value < 0x8000_0000)
        case UInt32 => ok == (room >= 32 && 0 <= value < 0x1_0000_0000)
        case Int64 => ok == (room >= 64 && -0x8000_0000_0000_0000 <= value < 0x8000_0000_0000_0000)
        case UInt64 => ok == (room >= 64 && 0 <= value < 0x1_0000_0000_0000_0000)
      ensures ok ==> writeBit == old(writeBit) + BitWidth(kind)
      ensures ok ==> Payload() == old(Payload()) + Field(value, BitWidth(kind))
      ensures !ok ==> writeBit == old(writeBit) && data.bytes == old(data.bytes)
      ensures |data.bytes| >= |old(data.bytes)|
    {
      hide Bits, Field, Fits, ToBytes;
      KindRanges(value);
      if MAX_BIT_COUNT - writeBit < BitWidth(kind) {
        return false;
      }
      if !Fits(kind, value) {
        return false;
      }
      AppendBits(ToBytes(value, Size(kind)));
      BitsOfToBytes(value, Size(kind));
      return true;
    }

    /** Not checked against the maximum size; `false` for the exception on a negative value. */
    method PutVarULong(value: int) returns (ok: bool)
      requires Valid()
      modifies this`writeBit, data
      ensures Valid() && ok == (value >= 0)
      ensures ok ==> writeBit == old(writeBit) + 8 * |VarBytes(value)|
      ensures ok ==> Payload() == old(Payload()) + Bits(VarBytes(value))
      ensures !ok ==> writeBit == old(writeBit) && data.bytes == old(data.bytes)
      ensures |data.bytes| >= |old(data.bytes)|
    {
      var coded := ToVarULong(value);
      if coded.None? {
        return false;
      }
      AppendBits(coded.value);
      return true;
    }

    /** An array's element: one of the 8-bit kinds goes in unchecked. */
    method PutElement(kind: Kind, value: int) returns (ok: bool)
      requires Valid()
      modifies this`writeBit, data
      ensures Valid()
      ensures ok == Goes(kind, value, old(writeBit))
      ensures ok ==> writeBit == old(writeBit) + BitWidth(kind)
      ensures ok ==> Payload() == old(Payload()) + Field(value, BitWidth(kind))
      ensures !ok ==> writeBit == old(writeBit) && data.bytes == old(data.bytes)
      ensures |data.bytes| >= |old(data.bytes)|
    {
      hide Bits, Field, Fits, ToBytes;
      if Size(kind) == 1 {
        if !Fits(kind, value) {
          return false;
        }
        AppendBits(ToBytes(value, 1));
        BitsOfToBytes(value, 1);
        return true;
      }
      ok := PutInt(kind, value);
    }

    /** The length-prefixed integer arrays. The length goes out unchecked, then room for all elements is asked for
        (for 32-bit signed ones only for half of it), then the elements follow one by one: the 8-bit kinds without,
        the others with a check of their own. `false` for any exception on the way; what was appended until then
        stays. */
    method PutInts(kind: Kind, values: seq<int>) returns (ok: bool)
      requires Valid()
      modifies this`writeBit, data
      ensures Valid()
      ensures ok == (old(writeBit) + |Coded(Numbers(kind, values))| <= MAX_BIT_COUNT &&
        Representable(Numbers(kind, values)))
      ensures ok ==> Payload() == old(Payload()) + Coded(Numbers(kind, values))
      ensures ok ==> writeBit == old(writeBit) + |Coded(Numbers(kind, values))|
      ensures !ok ==> exists i: nat ::
        i <= |values| && Payload() == old(Payload()) + Bits(VarBytes(|values|)) + CodedInts(BitWidth(kind), values[..i])
        && (forall v | v in values[..i] :: Fits(kind, v))
        && (i == 0 || (i < |values| && !Goes(kind, values[i], writeBit)))
      ensures old(Payload()) <= Payload()
      ensures |data.bytes| >= |old(data.bytes)|
    {
      hide Bits, Field, Fits, VarBytes, ToBytes, CodedInts;
      var w, n := BitWidth(kind), |values|;
      var _ := PutVarULong(n);
      OneMore(w, n);
      Checked(kind, n);
      CodedInts0(w);
      assert values[..0] == [] && Payload() + CodedInts(w, values[..0]) == Payload();
      if MAX_BIT_COUNT - writeBit < (if kind.Int32? then 16 else w) * n {
        return false;
      }
      ok := PutElements(kind, values);
    }

    /** The loop over the elements. */
    method PutElements(kind: Kind, values: seq<int>) returns (ok: bool)
      requires Valid() && writeBit <= MAX_BIT_COUNT
      requires BitWidth(kind) == 8 ==> writeBit + BitWidth(kind) * |values| <= MAX_BIT_COUNT
      modifies this`writeBit, data
      ensures Valid()
      ensures ok == (old(writeBit) + BitWidth(kind) * |values| <= MAX_BIT_COUNT &&
        forall v | v in values :: Fits(kind, v))
      ensures ok ==> Payload() == old(Payload()) + CodedInts(BitWidth(kind), values)
      ensures ok ==> writeBit == old(writeBit) + BitWidth(kind) * |values|
      ensures !ok ==> exists i: nat ::
        i < |values| && Payload() == old(Payload()) + CodedInts(BitWidth(kind), values[..i])
        && (forall v | v in values[..i] :: Fits(kind, v)) && !Goes(kind, values[i], writeBit)
      ensures old(Payload()) <= Payload()
      ensures |data.bytes| >= |old(data.bytes)|
    {
      hide Bits, Field, Fits, CodedInts;
      var w, n := BitWidth(kind), |values|;
      ghost var start := writeBit;
      CodedInts0(w);
      for i := 0 to n
        invariant Valid() && writeBit == start + w * i && writeBit <= MAX_BIT_COUNT
        invariant Payload() == old(Payload()) + CodedInts(w, values[..i])
        invariant forall v | v in values[..i] :: Fits(kind, v)
        invariant |data.bytes| >= |old(data.bytes)|
      {
        CodedIntsStep(w, values, i);
        OneMore(w, i + 1);
        TimesMonotone(w, i + 1, n);
        var fits := PutElement(kind, values[i]);
        if !fits {
          return false;
        }
      }
      assert values[..n] == values;
      return true;
    }

    // ---------- reading ----------

    /** `None` is the `IndexError` of a flag whose read runs off the buffer. */
    method GetBool() returns (r: Option<bool>)
      modifies this`readBit
      ensures r == FlagIn(Bits(data.bytes), old(readBit))
      ensures readBit == old(readBit) + if r.Some? then 1 else 0
    {
      FlagRead(data.bytes, readBit);
      var v := GetBits(1, data.bytes, readBit);
      if v.None? {
        return None;
      }
      readBit := readBit + 1;
      return Some(v.value != 0);
    }

    /** `None` when not enough bits are left. No bytes at all are one byte off a byte boundary. */
    method GetBytes(length: nat) returns (r: Option<seq<byte>>)
      modifies this`readBit
      ensures r.Some? == (old(readBit) + 8 * length <= 8 * |data.bytes|)
      ensures r.Some? && (length > 0 || old(readBit) % 8 == 0) ==>
        |r.value| == length && Bits(r.value) == Bits(data.bytes)[old(readBit)..old(readBit) + 8 * length]
      ensures r.Some? && length == 0 && old(readBit) % 8 > 0 ==> r.value == [ByteAround(data.bytes, old(readBit))]
      ensures readBit == old(readBit) + if r.Some? then 8 * length else 0
    {
      hide Bits;
      if 8 * |data.bytes| - readBit < 8 * length {
        return None;
      }
      var pos := readBit;
      readBit := pos + 8 * length;
      r := BytesFromBits(data.bytes, 8 * length, pos);
      assert (Bits(data.bytes)[pos..] + Zeros(8 * length))[..8 * length] == Bits(data.bytes)[pos..pos + 8 * length];
    }

    method GetInt(kind: Kind) returns (r: Option<int>)
      modifies this`readBit
      ensures r == IntIn(Bits(data.bytes), old(readBit), BitWidth(kind), Signed(kind))
      ensures readBit == old(readBit) + if r.Some? then BitWidth(kind) else 0
    {
      hide Bits, IntOf;
      var bytes := GetBytes(Size(kind));
      if bytes.None? {
        return None;
      }
      return Some(IntOf(Bits(bytes.value), Signed(kind)));
    }

    method GetInts(kind: Kind) returns (r: Option<seq<int>>)
      modifies this`readBit
      ensures ValueIn(Bits(data.bytes), old(readBit), NumbersShape(kind)) ==
              if r.Some? then Some((Numbers(kind, r.value), readBit)) else None
      ensures r.None? ==> readBit == old(readBit)
    {
      hide Bits, IntOf, VarIn;
      var w := BitWidth(kind);
      var prefix := FromVarULong(data.bytes, readBit);
      if prefix.None? {
        return None;
      }
      var (n, length) := prefix.value;
      OneMore(w, n);
      if 8 * |data.bytes| - (readBit + length) < w * n {
        return None;
      }
      readBit := readBit + length;
      var start := readBit;
      var result: seq<int> := [];
      for i := 0 to n
        invariant readBit == start + w * i
        invariant start + w * i <= 8 * |data.bytes| && result == IntsIn(Bits(data.bytes), start, w, Signed(kind), i)
      {
        OneMore(w, i + 1);
        TimesMonotone(w, i + 1, n);
        var v := GetInt(kind);
        result := result + [v.value];
      }
      return Some(result);
    }

    // ---------- the byte stream ----------

    method MakeHeaderUnreliable(stream: ByteArray) returns (bitpos: nat)
      requires 0 <= header < NOTIFY && stream.bytes == [] && stream != data
      modifies stream
      ensures |stream.bytes| == 1 && bitpos == 4
      ensures HeaderBits(header, seqID, notifyBits) <= Bits(stream.bytes) && ZeroBehind(stream.bytes, 4)
    {
      stream.bytes := [header];
      assert stream.bytes == [header] + [];
      HeaderByte(header, []);
      return 4;
    }

    /** A sequence ID beyond 16 bits leaks into the four bits behind the header. */
    method MakeHeaderReliable(stream: ByteArray) returns (bitpos: nat)
      requires RELIABLE <= header <= 10 && stream.bytes == [] && stream != data
      modifies stream
      ensures |stream.bytes| == 3 && bitpos == 20
      ensures HeaderBits(header, seqID, notifyBits) <= Bits(stream.bytes)
      ensures ZeroBehind(stream.bytes, 24) && (0 <= seqID < 0x1_0000 ==> ZeroBehind(stream.bytes, 20))
      ensures Leaky(header, seqID, stream.bytes)
    {
      hide Bits, Bit;
      stream.bytes := [header, 0, 0];
      ghost var before := stream.bytes;
      assert before == [header] + [0, 0];
      HeaderByte(header, [0, 0]);
      var _ := UshortToBits(seqID, stream, 4);
      UshortOverZeros(before, 4, seqID);
      ReliableHeader(header, seqID, before, stream.bytes);
      return 20;
    }

    method MakeHeaderNotify(stream: ByteArray) returns (bitpos: nat)
      requires header == NOTIFY && stream.bytes == [] && stream != data
      modifies stream
      ensures |stream.bytes| == 9 && bitpos == 44
      ensures HeaderBits(header, seqID, notifyBits) <= Bits(stream.bytes) && ZeroBehind(stream.bytes, 44)
    {
      hide Bits, Bit, Field;
      stream.bytes := [header, 0, 0, 0, 0, 0];
      ghost var before := stream.bytes;
      assert before == [header] + [0, 0, 0, 0, 0];
      HeaderByte(header, [0, 0, 0, 0, 0]);
      SetBits64(notifyBits, 40, stream, 4);
      StoreAppends(before, stream.bytes, Field(header, 4), Field(notifyBits, 40), 64);
      return 44;
    }

    method MakeHeader(stream: ByteArray) returns (bitpos: nat)
      requires 0 <= header <= 10 && stream.bytes == [] && stream != data
      modifies stream
      ensures bitpos == |HeaderBits(header, seqID, notifyBits)|
      ensures Built(header, stream.bytes, HeaderBits(header, seqID, notifyBits),
                    if RELIABLE <= header && !(0 <= seqID < 0x1_0000) then 24 else bitpos)
      ensures RELIABLE <= header ==> Leaky(header, seqID, stream.bytes)
    {
      hide Bits, Leaky;
      if header < NOTIFY {
        bitpos := MakeHeaderUnreliable(stream);
      } else if header < RELIABLE {
        bitpos := MakeHeaderNotify(stream);
      } else {
        bitpos := MakeHeaderReliable(stream);
      }
    }

    /** `None` for the exception on a negative message ID. Behind the payload there are zeros, except that a sequence ID
        beyond 16 bits leaks into the four bits behind it, as far as nothing is written there. */
    method CreateBytestream() returns (r: Option<seq<byte>>)
      requires Valid() && 0 <= header <= 10
      ensures header in {1, 2, 3, 4, 5, 6, 8, 9, 10} ==> r.Some?
      ensures header in {0, 7} ==> (r.Some? <==> msgID >= 0)
      ensures header in {1, 2, 3, 4, 5} ==> |r.value| == CeilBytes(4 + writeBit)
      ensures header == 6 ==> |r.value| == if writeBit > 28 then CeilBytes(44 + writeBit) else 9
      ensures header in {8, 9, 10} ==> |r.value| == CeilBytes(20 + writeBit)
      ensures r.Some? ==>
                var wire := WireBits(header, seqID, notifyBits, if msgID < 0 then 0 else msgID, Payload());
                && |r.value| == WireBytes(header, |wire|)
                && wire <= Bits(r.value)
                && (header <= 7 || writeBit >= 4 || 0 <= seqID < 0x1_0000 ==> ZeroBehind(r.value, |wire|))
      ensures header in {8, 9, 10} && writeBit < 4 ==>
        |r.value| == 3 && Bits(r.value)[20 + writeBit..] == Field(seqID, 20)[16 + writeBit..]
    {
      hide Bits, Stored, Built, Field, HeaderBits, IDBits, ZeroBehind, Leaky;
      StreamLength(header, seqID, notifyBits, if msgID < 0 then 0 else msgID, Payload());
      var stream := new ByteArray([]);
      var ok, bitpos;
      ghost var zero;
      ok, bitpos, zero := MakeFront(stream);
      if !ok {
        return None;
      }
      ghost var front := HeaderBits(header, seqID, notifyBits) + IDBits(header, if msgID < 0 then 0 else msgID);
      ghost var before := stream.bytes;
      var _ := SetBitsFromBytes(data.bytes, writeBit, stream, bitpos);
      if header in {8, 9, 10} && writeBit < 4 {
        Leaks(header, seqID, before, stream.bytes, Payload());
      }
      Lengthened(header, before, stream.bytes, front, Payload(), zero);
      Finished(header, stream.bytes, front + Payload(), if zero > |front| + writeBit then zero else |front| + writeBit);
      return Some(stream.bytes);
    }

    /** The header and the message ID; `false` for the exception on a negative one. */
    method MakeFront(stream: ByteArray) returns (ok: bool, bitpos: nat, ghost zero: nat)
      requires Valid() && 0 <= header <= 10 && stream != data && stream.bytes == []
      modifies stream
      ensures ok == (HasMessageID(header) ==> msgID >= 0)
      ensures ok ==>
                var front := HeaderBits(header, seqID, notifyBits) + IDBits(header, if msgID < 0 then 0 else msgID);
                && |front| == bitpos <= zero && Built(header, stream.bytes, front, zero)
                && (header <= 7 || writeBit >= 4 || 0 <= seqID < 0x1_0000 ==> zero <= bitpos + writeBit)
                && (header in {8, 9, 10} ==> bitpos == 20 && Leaky(header, seqID, stream.bytes))
    {
      hide Bits, Stored, Built, Field, Leaky;
      bitpos := MakeHeader(stream);
      ghost var front := HeaderBits(header, seqID, notifyBits);
      zero := if RELIABLE <= header && !(0 <= seqID < 0x1_0000) then 24 else bitpos;
      if HasMessageID(header) {
        if msgID < 0 {
          return false, bitpos, zero;
        }
        bitpos := PutMessageID(stream, bitpos, front, zero);
      } else {
        assert front + [] == front;
      }
      zero := if zero > bitpos then zero else bitpos;
      return true, bitpos, zero;
    }

    method PutMessageID(stream: ByteArray, bitpos: nat, ghost front: seq<bool>, ghost zero: nat) returns (end: nat)
      requires HasMessageID(header) && msgID >= 0 && stream != data
      requires Built(header, stream.bytes, front, zero) && |front| == bitpos
      modifies stream
      ensures end == bitpos + |IDBits(header, msgID)|
      ensures Built(header, stream.bytes, front + IDBits(header, msgID), if zero > end then zero else end)
    {
      hide Bits, Stored, Built;
      var coded := ToVarULong(msgID);
      var idBytes := coded.value;
      ghost var before := stream.bytes;
      AllBits(idBytes);
      EnsureSpaceAvailable(stream, bitpos, 8 * |idBytes|);
      var _ := SetBitsFromBytes(idBytes, 8 * |idBytes|, stream, bitpos);
      StoredGrown(before, bitpos, Bits(idBytes), 8 * |idBytes|);
      Lengthened(header, before, stream.bytes, front, Bits(idBytes), zero);
      return bitpos + 8 * |idBytes|;
    }

    /** `false` for a stream that ends too early. The payload is whatever follows the head, to the last byte. */
    method FromBytestream(bytestream: seq<byte>) returns (ok: bool)
      modifies this
      ensures ok == ParseHead(Bits(bytestream)).Some?
      ensures ok && 1 <= header <= 5 ==> Bits(data.bytes) == Bits(bytestream)[4..] + Zeros(4)
      ensures ok && header == 6 ==> |bytestream| >= 9 && Bits(data.bytes) == Bits(bytestream)[44..] + Zeros(4)
      ensures ok && header >= 8 ==> |bytestream| >= 3 && Bits(data.bytes) == Bits(bytestream)[20..] + Zeros(4)
      ensures ok ==>
                var head := ParseHead(Bits(bytestream)).value;
                && header == head.header
                && (header >= 7 ==> seqID == head.field)
                && (header == 6 ==> notifyBits == head.field)
                && (header in {0, 7} ==> msgID == head.msgID)
                && fresh(data) && readBit == 0 && writeBit == 0
                && head.bitpos <= 8 * |bytestream|
                && Bits(data.bytes) == Bits(bytestream)[head.bitpos..] + Zeros(4)
    {
      hide Bits, ParseHead, BytesRead;
      PayloadStart(Bits(bytestream));
      var bitpos := 0;
      ok, bitpos := ReadHead(bytestream);
      if ok {
        var payload := BytesFromBits(bytestream, 8 * |bytestream| - bitpos, bitpos);
        ToTheEnd(bytestream, bitpos, payload.value);
        data := new ByteArray(payload.value);
        readBit, writeBit := 0, 0;
      }
    }

    method ReadHead(bytestream: seq<byte>) returns (ok: bool, bitpos: nat)
      modifies this`header, this`seqID, this`notifyBits, this`msgID
      ensures ok == ParseHead(Bits(bytestream)).Some?
      ensures ok ==>
                var head := ParseHead(Bits(bytestream)).value;
                && header == head.header && bitpos == head.bitpos
                && (RELIABLE <= header ==> seqID == head.field)
                && (header == NOTIFY ==> notifyBits == head.field)
                && (HasMessageID(header) ==> msgID == head.msgID)
                && bitpos % 8 == 4 && bitpos < 8 * |bytestream|
    {
      hide Bits, Val, VarIn;
      if bytestream == [] {
        return false, 0;
      }
      ok, bitpos := ReadHeader(bytestream);
      if ok && HasMessageID(header) {
        var id := FromVarULong(bytestream, bitpos);
        if id.None? {
          return false, 0;
        }
        msgID := id.value.0;
        VarInEnds(Bits(bytestream), bitpos);
        bitpos := bitpos + id.value.1;
      }
    }

    method ReadHeader(bytestream: seq<byte>) returns (ok: bool, bitpos: nat)
      requires bytestream != []
      modifies this`header, this`seqID, this`notifyBits
      ensures ok == ParseFixed(Bits(bytestream)).Some?
      ensures ok ==>
                var (h, field, pos) := ParseFixed(Bits(bytestream)).value;
                && header == h && bitpos == pos
                && (RELIABLE <= h ==> seqID == field)
                && (h == NOTIFY ==> notifyBits == field)
                && pos % 8 == 4 && pos < 8 * |bytestream|
    {
      hide Bits, Val, GetBits, UshortFromBits;
      FirstNibble(bytestream);
      header := And(bytestream[0], 15);
      if header < NOTIFY {
        return true, 4;
      } else if header < RELIABLE {
        GetBitsValue(40, bytestream, 4);
        var bits := GetBits(40, bytestream, 4);
        if bits.None? {
          return false, 0;
        }
        notifyBits := bits.value;
        return true, 44;
      } else {
        UshortValue(bytestream, 4);
        var id := UshortFromBits(bytestream, 4);
        if id.None? {
          return false, 0;
        }
        seqID := id.value;
        return true, 20;
      }
    }
  }

  lemma AllBits(bytes: seq<byte>)
    ensures Bits(bytes)[..8 * |bytes|] == Bits(bytes)
    ensures CeilBytes(8 * |bytes|) == |bytes|
  {
  }

  lemma FirstNibble(stream: seq<byte>)
    requires |stream| > 0
    ensures And(stream[0], 15) == Val(Bits(stream)[..4])
    ensures 0 <= And(stream[0], 15) < 16
  {
    hide Bit, And;
    assert Pow2(4) == 16;
    AndMask(stream[0], 4);
    LowRange(stream[0], 4);
    forall i: nat | i < 4
      ensures Bit(stream[0], i) == Bits(stream)[..4][i]
    {
      BitsAt(stream, 0, i);
    }
    LowFromBits(stream[0], Bits(stream)[..4]);
  }

  /** A variable-length integer ends within the bits, on the byte grid it started on. */
  lemma {:induction false} VarInEnds(bits: seq<bool>, pos: nat)
    requires VarIn(bits, pos).Some?
    ensures pos + VarIn(bits, pos).value.1 <= |bits| && VarIn(bits, pos).value.1 % 8 == 0
    decreases |bits| - pos
  {
    if Val(bits[pos..pos + 8]) >= 128 {
      VarInEnds(bits, pos + 8);
    }
  }

  lemma ToTheEnd(stream: seq<byte>, bitpos: nat, payload: seq<byte>)
    requires bitpos % 8 == 4 && bitpos < 8 * |stream|
    requires BytesRead(stream, |stream| - bitpos / 8, bitpos, payload)
    ensures Bits(payload) == Bits(stream)[bitpos..] + Zeros(4)
  {
    hide Bits;
    var n := |stream| - bitpos / 8;
    assert (Bits(stream)[bitpos..] + Zeros(8 * n))[..8 * n] == Bits(stream)[bitpos..] + Zeros(4);
  }

  lemma Finished(header: int, buffer: seq<byte>, wire: seq<bool>, zero: nat)
    requires Built(header, buffer, wire, zero)
    ensures wire <= Bits(buffer) && |buffer| == WireBytes(header, |wire|)
    ensures zero == |wire| ==> ZeroBehind(buffer, |wire|)
  {
  }

  /** Growing the array first makes no difference to what is stored. */
  lemma StoredGrown(buffer: seq<byte>, start: nat, field: seq<bool>, room: nat)
    requires |field| <= room
    ensures Stored(Grown(buffer, CeilBytes(start + room)), start, field, room) == Stored(buffer, start, field, room)
  {
    assert Grown(Grown(buffer, CeilBytes(start + room)), CeilBytes(start + room)) ==
        Grown(buffer, CeilBytes(start + room));
  }

  lemma OneBit(value: bool)
    ensures Field(if value then 1 else 0, 1) == [value]
  {
  }

  lemma CodedInts0(w: nat)
    ensures CodedInts(w, []) == []
  {
  }

  lemma CodedIntsStep(w: nat, values: seq<int>, i: nat)
    requires i < |values|
    ensures CodedInts(w, values[..i + 1]) == CodedInts(w, values[..i]) + Field(values[i], w)
    ensures values[..0] == []
  {
    assert values[..i + 1][..i] == values[..i];
  }

  lemma Checked(kind: Kind, n: nat)
    ensures 0 <= (if kind.Int32? then 16 else BitWidth(kind)) * n <= BitWidth(kind) * n
  {
    TimesMonotone(n, if kind.Int32? then 16 else BitWidth(kind), BitWidth(kind));
  }

  /** A stream that starts with the header byte and is zero otherwise. */
  lemma HeaderByte(header: int, rest: seq<byte>)
    requires 0 <= header <= 10 && forall i | 0 <= i < |rest| :: rest[i] == 0
    ensures Field(header, 4) <= Bits([header] + rest)
    ensures ZeroBehind([header] + rest, 4)
  {
    hide Bit, Bits;
    var buffer: seq<byte> := [header] + rest;
    assert Pow2(4) == 16;
    LowSmall(header, 4);
    forall k | 0 <= k < 8 * |buffer|
      ensures Bits(buffer)[k] == (k < 4 && Bit(header, k))
    {
      BitsAt(buffer, k / 8, k % 8);
      if k < 8 {
        BitLow(header, 4, k);
      } else {
        assert buffer[k / 8] == rest[k / 8 - 1];
        BitOfZero(k % 8);
      }
    }
  }

  lemma ReliableHeader(header: int, seqID: int, before: seq<byte>, after: seq<byte>)
    requires |before| == 3 && Field(header, 4) <= Bits(before) && ZeroBehind(before, 4)
    requires Bits(after) == Splice(Bits(before), 4, Field(seqID, 20))
    ensures Field(header, 4) + Field(seqID, 16) <= Bits(after) && Leaky(header, seqID, after)
    ensures ZeroBehind(after, 24) && (0 <= seqID < 0x1_0000 ==> ZeroBehind(after, 20))
  {
    hide Bits, Bit;
    Pow2Values();
    if 0 <= seqID < 0x1_0000 {
      LowSmall(seqID, 16);
      forall k | 20 <= k < 24
        ensures !Bits(after)[k]
      {
        BitLow(seqID, 16, k - 4);
      }
    }
  }
}
