/** Typed values through one message object, and through the wire. */
module Exchange {
  import opened PyInt
  import opened BitBuffer
  import opened VarInt
  import opened Typed
  import opened MessageFormat

  predicate AllRepresentable(values: seq<Value>) {
    forall v | v in values :: Representable(v)
  }

  // ---------- putting and getting ----------

  method Put(message: Message, value: Value) returns (ok: bool)
    requires message.Valid()
    modifies message`writeBit, message.data
    ensures message.Valid()
    ensures ok == (Representable(value) && old(message.writeBit) + |Coded(value)| <= MAX_BIT_COUNT)
    ensures ok ==> message.Payload() == old(message.Payload()) + Coded(value)
    ensures ok && value.Flag? ==> 8 * |message.data.bytes| >= 8 * CeilBytes(old(message.writeBit) + 8)
    ensures |message.data.bytes| >= |old(message.data.bytes)|
  {
    hide Bits, Field, CodedInts, VarBytes, Fits;
    match value
    case Flag(b) => ok := message.PutBool(b);
    case Number(kind, v) => ok := message.PutInt(kind, v);
    case Numbers(kind, vs) => ok := message.PutInts(kind, vs);
  }

  method Get(message: Message, shape: Shape) returns (r: Option<Value>)
    modifies message`readBit
    ensures ValueIn(Bits(message.data.bytes), old(message.readBit), shape) ==
            if r.Some? then Some((r.value, message.readBit)) else None
  {
    hide Bits, VarIn, IntOf, FlagIn;
    match shape
    case FlagShape =>
      var b := message.GetBool();
      r := if b.None? then None else Some(Flag(b.value));
    case NumberShape(kind) =>
      var v := message.GetInt(kind);
      r := if v.None? then None else Some(Number(kind, v.value));
    case NumbersShape(kind) =>
      var vs := message.GetInts(kind);
      r := if vs.None? then None else Some(Numbers(kind, vs.value));
  }

  /** Values put on a fresh message, in order: all go in exactly when each is representable and together they
      fit the maximum size, and then the payload is their bits in a row. */
  method PutAll(message: Message, values: seq<Value>) returns (ok: bool)
    requires message.Valid() && message.writeBit == 0
    modifies message`writeBit, message.data
    ensures message.Valid()
    ensures ok == (AllRepresentable(values) && |CodedAll(values)| <= MAX_BIT_COUNT)
    ensures ok ==> message.Payload() == CodedAll(values) && FlagRoom(values) <= 8 * |message.data.bytes|
  {
    hide Coded, Representable, Bits;
    for i := 0 to |values|
      invariant message.Valid()
      invariant AllRepresentable(values[..i]) && message.writeBit <= MAX_BIT_COUNT
      invariant message.Payload() == CodedAll(values[..i])
      invariant FlagRoom(values[..i]) <= 8 * |message.data.bytes|
    {
      CodedPrefix(values, i);
      PrefixStep(values, i);
      var fits := Put(message, values[i]);
      if !fits {
        return false;
      }
    }
    assert values[..|values|] == values;
    return true;
  }

  method GetAll(message: Message, shapes: seq<Shape>) returns (r: Option<seq<Value>>)
    requires message.readBit == 0
    modifies message`readBit
    ensures ValuesIn(Bits(message.data.bytes), shapes) ==
            if r.Some? then Some((r.value, message.readBit)) else None
  {
    hide Bits, ValueIn;
    var values: seq<Value> := [];
    for i := 0 to |shapes|
      invariant ValuesIn(Bits(message.data.bytes), shapes[..i]) == Some((values, message.readBit))
    {
      assert shapes[..i + 1][..i] == shapes[..i];
      var v := Get(message, shapes[i]);
      if v.None? {
        FailsForGood(Bits(message.data.bytes), shapes, i + 1);
        return None;
      }
      values := values + [v.value];
    }
    assert shapes[..|shapes|] == shapes;
    return Some(values);
  }

  lemma {:induction false} FailsForGood(bits: seq<bool>, shapes: seq<Shape>, i: nat)
    requires i <= |shapes| && ValuesIn(bits, shapes[..i]) == None
    ensures ValuesIn(bits, shapes) == None
  {
    if i == |shapes| {
      assert shapes[..i] == shapes;
    } else {
      var front := shapes[..|shapes| - 1];
      assert front[..i] == shapes[..i];
      FailsForGood(bits, front, i);
    }
  }

  lemma {:induction false} CodedPrefix(values: seq<Value>, i: nat)
    requires i < |values|
    ensures |CodedAll(values[..i])| + |Coded(values[i])| <= |CodedAll(values)|
  {
    hide Coded;
    var front := values[..|values| - 1];
    if i < |front| {
      CodedPrefix(front, i);
      assert front[..i] == values[..i];
    }
  }

  lemma PrefixStep(values: seq<Value>, i: nat)
    requires i < |values|
    ensures CodedAll(values[..i + 1]) == CodedAll(values[..i]) + Coded(values[i])
    ensures FlagRoom(values[..i + 1]) ==
            if values[i].Flag? && 8 * CeilBytes(|CodedAll(values[..i])| + 8) > FlagRoom(values[..i])
            then 8 * CeilBytes(|CodedAll(values[..i])| + 8) else FlagRoom(values[..i])
    ensures AllRepresentable(values[..i + 1]) == (AllRepresentable(values[..i]) && Representable(values[i]))
  {
    var next := values[..i + 1];
    assert next[..i] == values[..i];
    assert next == values[..i] + [values[i]];
  }

  /** On one message object, every sequence of values that fits is read back unchanged, in order, and the read
      position ends where the write position is. */
  method OnOneMessage(header: int, values: seq<Value>) returns (message: Message, r: Option<seq<Value>>)
    requires AllRepresentable(values) && |CodedAll(values)| <= MAX_BIT_COUNT
    ensures r == Some(values)
    ensures message.readBit == message.writeBit
  {
    hide Bits, ValuesIn, CodedAll, FlagRoom;
    message := new Message(header);
    var ok := PutAll(message, values);
    ValuesReadBack(Bits(message.data.bytes), values);
    r := GetAll(message, Shapes(values));
  }

  // ---------- over the wire ----------

  /** The bits a receiver holds for a payload of `n` bits: the header leaves four bits of padding behind. */
  function ReceivedBits(header: int, n: nat): nat {
    if header == NOTIFY && n < 28 then 32 else 8 * CeilBytes(n + 4)
  }

  /** What a receiver holds begins with the payload, and goes on with zeros where the stream does. */
  lemma Received(stream: seq<byte>, header: int, seqID: int, notifyBits: int, msgID: nat, payload: seq<bool>,
                 received: seq<byte>)
    requires 0 <= header <= 10
    requires
      var wire := WireBits(header, seqID, notifyBits, msgID, payload);
      wire <= Bits(stream) && |stream| == WireBytes(header, |wire|)
    requires
      var start := |HeaderBits(header, seqID, notifyBits)| + |IDBits(header, msgID)|;
      Bits(received) == Bits(stream)[start..] + Zeros(4)
    ensures payload <= Bits(received) && |Bits(received)| == ReceivedBits(header, |payload|)
    ensures ZeroBehind(stream, |WireBits(header, seqID, notifyBits, msgID, payload)|) ==>
      ZeroBehind(received, |payload|)
  {
    hide Bits, Field, VarBytes;
    var h := |HeaderBits(header, seqID, notifyBits)|;
    var start := h + |IDBits(header, msgID)|;
    var wire := WireBits(header, seqID, notifyBits, msgID, payload);
    assert h % 8 == 4 && |IDBits(header, msgID)| % 8 == 0;
    assert |wire| == start + |payload|;
    assert |Bits(received)| == ReceivedBits(header, |payload|);
    PrefixSlice(wire, Bits(stream), start, |wire|);
    assert wire[start..] == payload;
    assert Bits(received)[..|payload|] == payload;
    assert |Bits(received)| == 8 * |received|;
  }

  /** Sender to receiver: the head arrives as it was sent, and the values do exactly when no flag's read runs
      off the received payload; otherwise reading ends in an `IndexError`. */
  method OverTheWire(header: int, seqID: nat, notifyBits: int, msgID: nat, values: seq<Value>)
    returns (received: Message, r: Option<seq<Value>>)
    requires 0 <= header <= 10
    requires AllRepresentable(values) && |CodedAll(values)| <= MAX_BIT_COUNT
    ensures received.header == header
    ensures RELIABLE <= header ==> received.seqID == Low(seqID, 16)
    ensures header == NOTIFY ==> received.notifyBits == Low(notifyBits, 40)
    ensures HasMessageID(header) ==> received.msgID == msgID
    ensures r == if FlagRoom(values) <= ReceivedBits(header, |CodedAll(values)|) then Some(values) else None
    ensures r.Some? ==> received.readBit == |CodedAll(values)|
  {
    hide Bits, ValuesIn, CodedAll, FlagRoom, WireBits, HeaderBits, IDBits, ParseHead, AllRepresentable, WireBytes;
    hide ZeroBehind, Field, Low, Shapes, ReceivedBits;
    var message := new Message(header);
    message.seqID, message.notifyBits, message.msgID := seqID, notifyBits, msgID;
    var ok := PutAll(message, values);
    var stream := message.CreateBytestream();
    var payload := CodedAll(values);
    Delivered(stream.value, header, seqID, notifyBits, msgID, payload);
    received := new Message(-1);
    ok := received.FromBytestream(stream.value);
    Received(stream.value, header, seqID, notifyBits, msgID, payload, received.data.bytes);
    ReadBack(Bits(received.data.bytes), values);
    r := GetAll(received, Shapes(values));
  }

  lemma Delivered(stream: seq<byte>, header: int, seqID: int, notifyBits: int, msgID: nat, payload: seq<bool>)
    requires 0 <= header <= 10
    requires
      var wire := WireBits(header, seqID, notifyBits, msgID, payload);
      wire <= Bits(stream) && |stream| == WireBytes(header, |wire|)
    ensures ParseHead(Bits(stream)) ==
            Some(Head(header,
                      if header < NOTIFY then 0 else if header < RELIABLE then Low(notifyBits, 40) else Low(seqID, 16),
                      if HasMessageID(header) then msgID else -1,
                      |HeaderBits(header, seqID, notifyBits)| + |IDBits(header, msgID)|))
  {
    ParsePrinted(Bits(stream), header, seqID, notifyBits, msgID, payload);
  }

  lemma ReadBack(bits: seq<bool>, values: seq<Value>)
    requires AllRepresentable(values) && CodedAll(values) <= bits
    ensures ValuesIn(bits, Shapes(values)) ==
            if FlagRoom(values) <= |bits| then Some((values, |CodedAll(values)|)) else None
  {
    ValuesReadBack(bits, values);
  }

  /** The condition in terms of the message: a flag gets lost exactly when it is not at a byte boundary of the
      payload and the payload ends at most four bits into the flag's own byte; in a notify message of less than 28
      payload bits, of which 32 arrive in any case, exactly when it comes after the first 24 bits. */
  ghost predicate LateFlag(header: int, values: seq<Value>, i: nat)
    requires i < |values|
  {
    var at, n := |CodedAll(values[..i])|, |CodedAll(values)|;
    values[i].Flag? && if header == NOTIFY && n < 28 then at > 24 else at % 8 > 0 && n <= 8 * (at / 8) + 4
  }

  lemma {:induction false} FlagRoomIs(values: seq<Value>, room: nat)
    ensures FlagRoom(values) <= room <==>
            forall i: nat | i < |values| :: values[i].Flag? ==> 8 * CeilBytes(|CodedAll(values[..i])| + 8) <= room
  {
    hide Coded, CodedAll;
    if |values| > 0 {
      var front := values[..|values| - 1];
      FlagRoomIs(front, room);
      forall i: nat | i < |front|
        ensures front[..i] == values[..i]
      {
      }
    }
  }

  lemma WireReadableIff(header: int, values: seq<Value>)
    ensures FlagRoom(values) <= ReceivedBits(header, |CodedAll(values)|) <==>
            forall i: nat | i < |values| :: !LateFlag(header, values, i)
  {
    hide Coded, CodedAll, FlagRoom, CeilBytes;
    var n := |CodedAll(values)|;
    FlagRoomIs(values, ReceivedBits(header, n));
    forall i: nat | i < |values|
      ensures LateFlag(header, values, i) <==>
              values[i].Flag? && 8 * CeilBytes(|CodedAll(values[..i])| + 8) > ReceivedBits(header, n)
    {
      FlagWithin(values, i);
      LateAt(|CodedAll(values[..i])|, n);
    }
  }

  lemma FlagWithin(values: seq<Value>, i: nat)
    requires i < |values|
    ensures values[i].Flag? ==> |CodedAll(values[..i])| + 1 <= |CodedAll(values)|
  {
    CodedPrefix(values, i);
  }

  lemma LateAt(at: nat, n: nat)
    ensures at + 1 <= n ==> (8 * CeilBytes(at + 8) > 8 * CeilBytes(n + 4) <==> at % 8 > 0 && n <= 8 * (at / 8) + 4)
    ensures 8 * CeilBytes(at + 8) > 32 <==> at > 24
  {
  }

  /** Two flags in a message: the second one cannot be read by the receiver. */
  lemma TwoFlagsAreLate(a: bool, b: bool)
    ensures FlagRoom([Flag(a), Flag(b)]) > ReceivedBits(0, |CodedAll([Flag(a), Flag(b)])|)
    ensures LateFlag(0, [Flag(a), Flag(b)], 1)
  {
    var values := [Flag(a), Flag(b)];
    PrefixStep(values, 0);
    PrefixStep(values, 1);
    assert values[..0] == [] && values[..2] == values;
  }

  // ---------- acknowledgements ----------

  /** The fields of an ack message: a flag says whether an explicit ID follows. */
  function AckValues(last: int, first16: int, id: int): seq<Value> {
    if id == last then [Number(UInt16, last), Number(UInt16, first16), Flag(false)]
    else [Number(UInt16, last), Number(UInt16, first16), Flag(true), Number(UInt16, id)]
  }

  lemma AckRoom(last: int, first16: int, id: int)
    ensures |CodedAll(AckValues(last, first16, id))| == if id == last then 33 else 49
    ensures FlagRoom(AckValues(last, first16, id)) == 40
  {
    hide Field, CodedAll, FlagRoom;
    var vs := AckValues(last, first16, id);
    AckFront(vs);
    if id == last {
      assert vs[..3] == vs;
    } else {
      PrefixStep(vs, 3);
      assert vs[..4] == vs;
    }
  }

  lemma AckFront(vs: seq<Value>)
    requires |vs| >= 3 && vs[0].Number? && vs[0].kind == UInt16 && vs[1].Number? && vs[1].kind == UInt16 && vs[2].Flag?
    ensures |CodedAll(vs[..3])| == 33 && FlagRoom(vs[..3]) == 40
  {
    hide Field;
    PrefixStep(vs, 0);
    PrefixStep(vs, 1);
    PrefixStep(vs, 2);
    assert vs[..0] == [];
  }

  /** `sendAck` on one side, `handleAck`'s reads on the other: the three numbers arrive. The explicit ID starts
      one bit off a byte boundary. */
  method AckExchange(last: int, first16: int, id: int) returns (lastRead: int, bitsRead: int, idRead: int)
    requires 0 <= last < 0x1_0000 && 0 <= first16 < 0x1_0000 && 0 <= id < 0x1_0000
    ensures lastRead == last && bitsRead == first16 && idRead == id
  {
    hide Bits, Field, CodedAll, FlagRoom;
    AckFits(last, first16, id);
    AckRoom(last, first16, id);
    var received, values := OverTheWire(1, 0, 0, 0, AckValues(last, first16, id));
    var read := values.value;
    lastRead, bitsRead := read[0].v, read[1].v;
    idRead := if read[2].b then read[3].v else lastRead;
  }

  lemma AckFits(last: int, first16: int, id: int)
    requires 0 <= last < 0x1_0000 && 0 <= first16 < 0x1_0000 && 0 <= id < 0x1_0000
    ensures AllRepresentable(AckValues(last, first16, id))
  {
    Pow2Values();
  }
}
