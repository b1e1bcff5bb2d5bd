/** Notify messages: sequence IDs with an acknowledgement attached, reported as delivered or lost.

    The code keeps two fields where one was meant, twice: `_lastReceivedSeqId` beside `lastReceivedSeqId` and
    `_lastAckedSeqId` beside `lastAckedSeqId`. The underscored ones are not set by the constructor. */
module NotifySequencer {
  import opened PyInt
  import opened BitBuffer
  import opened SequenceGap
  import opened Bitfields
  import opened Reading
  import Wire = MessageFormat

  /** What a connection is told about one of its messages; `Dropped` is a loss that the metrics do not see. */
  datatype Outcome = Delivered | Lost | Dropped

  datatype Report = Report(id: int, outcome: Outcome)

  /** The values of the fields; `None` for a field that is not set yet. */
  datatype Notify = Notify(nextId: int, lastReceived: int, ownLastReceived: Option<int>, received: Marks,
                           lastAcked: int, ownLastAcked: Option<int>)

  const FRESH := Notify(1, 0, None, EMPTY, 0, None)

  // ---------- specification of the operations ----------

  function Handled(s: Notify, id: int): (Notify, bool) {
    var gap := GetSequenceGap(id, s.lastReceived);
    if gap <= 0 then (s, false)
    else
      var shifted := s.received.Shifted(gap);
      var seen := shifted.IsSet(gap);
      (s.(ownLastReceived := Some(id), received := if seen then shifted else shifted.With(gap)), !seen)
  }

  /** What the eight remote bits say about the ID `k` before the latest. */
  function OutcomeBefore(bits: int, k: int): Outcome
    requires k >= 1
  {
    if k > 8 then Dropped else if Bit(bits, k - 1) then Delivered else Lost
  }

  /** The reports on the first `n` IDs after `lastAcked`, the latest one being `gap` after it. */
  function GapReports(lastAcked: int, gap: int, bits: int, n: nat): seq<Report>
    requires n < gap
  {
    seq(n, i requires 0 <= i < n => Report(lastAcked + 1 + i, OutcomeBefore(bits, gap - 1 - i)))
  }

  lemma GapReportsStep(lastAcked: int, gap: int, bits: int, n: nat)
    requires n + 1 < gap
    ensures GapReports(lastAcked, gap, bits, n + 1) ==
            GapReports(lastAcked, gap, bits, n) + [Report(lastAcked + 1 + n, OutcomeBefore(bits, gap - 1 - n))]
  {
    hide OutcomeBefore;
  }

  function UpdateReports(lastAcked: int, gap: int, last: int, bits: int): seq<Report>
    requires gap > 0
  {
    GapReports(lastAcked, gap, bits, gap - 1) + [Report(last, Delivered)]
  }

  /** `updateReceivedAcks`: the new state and the reports, or `None` where the unset field raises. */
  function Updated(s: Notify, last: int, bits: int): Option<(Notify, seq<Report>)> {
    if s.ownLastReceived.None? then None
    else
      var gap := GetSequenceGap(last, s.ownLastReceived.value);
      if gap <= 0 then Some((s, []))
      else Some((s.(lastAcked := s.lastAcked + gap - 1, ownLastAcked := Some(last)),
          UpdateReports(s.lastAcked, gap, last, bits)))
  }

  // ---------- the class ----------

  class Sequencer {
    var nextSequenceId: int
    var lastReceivedSeqId: int
    var ownLastReceivedSeqId: Option<int>
    const receivedSeqIds: Bitfield
    var lastAckedSeqId: int
    var ownLastAckedSeqId: Option<int>
    var reports: seq<Report>

    ghost function State(): Notify
      reads this, receivedSeqIds
    {
      Notify(nextSequenceId, lastReceivedSeqId, ownLastReceivedSeqId, receivedSeqIds.State(), lastAckedSeqId,
          ownLastAckedSeqId)
    }

    constructor ()
      ensures State() == FRESH && reports == []
      ensures fresh(receivedSeqIds)
    {
      nextSequenceId, lastReceivedSeqId, ownLastReceivedSeqId := 1, 0, None;
      lastAckedSeqId, ownLastAckedSeqId, reports := 0, None, [];
      receivedSeqIds := new Bitfield();
    }

    /** The notify bits and the ID; the ID is used up even where the unset field raises. */
    method InsertHeader() returns (header: Option<(int, int)>)
      modifies this`nextSequenceId
      ensures nextSequenceId == old(nextSequenceId) + 1
      ensures header == if ownLastReceivedSeqId.None? then None
                        else
                          var first8 := receivedSeqIds.State().First8();
                          Some((NotifyBits(ownLastReceivedSeqId.value, first8, nextSequenceId), nextSequenceId))
    {
      nextSequenceId := nextSequenceId + And(1, 0xffff);
      if ownLastReceivedSeqId.None? {
        return None;
      }
      var first8 := And(receivedSeqIds.bits, 0xff);
      var bits := Or(Or(ownLastReceivedSeqId.value, Shl(first8, 16)), Shl(nextSequenceId, 24));
      return Some((bits, nextSequenceId));
    }

    method ShouldHandle(sequenceID: int) returns (doHandle: bool)
      modifies this`ownLastReceivedSeqId, receivedSeqIds
      ensures (State(), doHandle) == Handled(old(State()), sequenceID)
    {
      hide And, Or, Shl;
      var sequenceGap := GetSequenceGap(sequenceID, lastReceivedSeqId);
      if sequenceGap > 0 {
        receivedSeqIds.ShiftLeft(sequenceGap);
        ownLastReceivedSeqId := Some(sequenceID);
        var seen := receivedSeqIds.IsSet(sequenceGap);
        if seen.value {
          return false;
        }
        var _ := receivedSeqIds.Set(sequenceGap);
        return true;
      }
      return false;
    }

    /** `false` where the unset field raises. */
    method UpdateReceivedAcks(remoteLast: int, remoteBits: int) returns (ok: bool)
      modifies this`lastAckedSeqId, this`ownLastAckedSeqId, this`reports
      ensures
        var r := Updated(old(State()), remoteLast, remoteBits);
        && ok == r.Some?
        && State() == (if ok then r.value.0 else old(State()))
        && reports == old(reports) + (if ok then r.value.1 else [])
    {
      hide And, Or, Shl, Bit;
      if ownLastReceivedSeqId.None? {
        return false;
      }
      var sequenceGap := GetSequenceGap(remoteLast, ownLastReceivedSeqId.value);
      if sequenceGap > 0 {
        ReportGap(sequenceGap, remoteBits);
        ownLastAckedSeqId := Some(remoteLast);
        reports := reports + [Report(remoteLast, Delivered)];
      }
      return true;
    }

    /** The two loops: IDs more than eight behind the latest are dropped, the others are looked up. */
    method ReportGap(gap: int, remoteBits: int)
      requires gap > 0
      modifies this`lastAckedSeqId, this`reports
      ensures lastAckedSeqId == old(lastAckedSeqId) + gap - 1
      ensures reports == old(reports) + GapReports(old(lastAckedSeqId), gap, remoteBits, gap - 1)
    {
      hide And, Shl, Bit;
      var sequenceGap := gap;
      if sequenceGap > 1 {
        while sequenceGap > 9
          invariant 1 <= sequenceGap <= gap
          invariant lastAckedSeqId == old(lastAckedSeqId) + (gap - sequenceGap)
          invariant reports == old(reports) + GapReports(old(lastAckedSeqId), gap, remoteBits, gap - sequenceGap)
        {
          GapReportsStep(old(lastAckedSeqId), gap, remoteBits, gap - sequenceGap);
          lastAckedSeqId := lastAckedSeqId + 1;
          sequenceGap := sequenceGap - 1;
          reports := reports + [Report(lastAckedSeqId, Dropped)];
        }
        var bitCount := sequenceGap - 1;
        var bit := bitCount;
        for i := 0 to bitCount
          invariant bit == bitCount - i
          invariant lastAckedSeqId == old(lastAckedSeqId) + (gap - sequenceGap) + i
          invariant reports == old(reports) + GapReports(old(lastAckedSeqId), gap, remoteBits, gap - sequenceGap + i)
        {
          GapReportsStep(old(lastAckedSeqId), gap, remoteBits, gap - sequenceGap + i);
          lastAckedSeqId := lastAckedSeqId + 1;
          bit := bit - 1;
          AndOne(remoteBits, bit);
          var outcome := if And(remoteBits, Shl(1, bit)) == 0 then Lost else Delivered;
          reports := reports + [Report(lastAckedSeqId, outcome)];
        }
      }
    }

    /** `processNotify` on a received stream: `None` where it raises, otherwise whether the message is handed on. */
    method ProcessNotify(dataBuffer: seq<byte>) returns (handled: Option<bool>)
      modifies this, receivedSeqIds
      ensures
        var (s, told, verdict) := ProcessedStream(old(State()), dataBuffer);
        State() == s && reports == old(reports) + told && handled == verdict
    {
      hide And, Or, Shl, Bit, IntFromBits, UshortFromBits;
      var remoteLast, remoteBits := UshortFromBits(dataBuffer, 4), ByteFromBits(dataBuffer, 20);
      if remoteLast.None? || remoteBits.None? {
        return None;
      }
      var ok := UpdateReceivedAcks(remoteLast.value, remoteBits.value);
      if !ok {
        return None;
      }
      var sequenceID := UshortFromBits(dataBuffer, 28);
      if sequenceID.None? {
        return None;
      }
      var doHandle := ShouldHandle(sequenceID.value);
      return Some(doHandle);
    }
  }

  /** What `processNotify` does with the three numbers it reads; the third one may be missing. */
  function Processed(s: Notify, last: int, bits: int, id: Option<int>): (Notify, seq<Report>, Option<bool>) {
    match Updated(s, last, bits)
    case None => (s, [], None)
    case Some((next, told)) =>
      if id.None? then (next, told, None)
      else
        var (after, verdict) := Handled(next, id.value);
        (after, told, Some(verdict))
  }

  function ProcessedStream(s: Notify, stream: seq<byte>): (Notify, seq<Report>, Option<bool>) {
    var last, bits := UshortFromBits(stream, 4), ByteFromBits(stream, 20);
    if last.None? || bits.None? then (s, [], None) else Processed(s, last.value, bits.value, UshortFromBits(stream, 28))
  }

  // ---------- the header ----------

  function NotifyBits(last: int, first8: int, id: int): int {
    Or(Or(last, Shl(first8, 16)), Shl(id, 24))
  }

  lemma NotifyBit(last: int, first8: int, id: int, k: nat)
    requires 0 <= last < 0x1_0000 && 0 <= first8 < 0x100
    ensures Bit(NotifyBits(last, first8, id), k) ==
            if k < 16 then Bit(last, k) else if k < 24 then Bit(first8, k - 16) else Bit(id, k - 24)
  {
    hide Or, Shl, Bit;
    BitOr(Or(last, Shl(first8, 16)), Shl(id, 24), k);
    BitOr(last, Shl(first8, 16), k);
    BitShl(first8, 16, k);
    BitShl(id, 24, k);
    Pow2Values();
    LowSmall(last, 16);
    LowSmall(first8, 8);
    BitLow(last, 16, k);
    if k >= 16 {
      BitLow(first8, 8, k - 16);
    }
  }

  /** A stream whose bits from the fifth on are the notify bits. */
  ghost predicate Carries(stream: seq<byte>, last: int, first8: int, id: int) {
    && |stream| >= 9
    && forall k: nat | k < 40 :: Bits(stream)[4 + k] == Bit(NotifyBits(last, first8, id), k)
  }

  /** `processNotify` reads back from the stream what `insertHeader` put: the last ID, the eight marks, above which
      the unmasked read of an unaligned byte leaves four bits of the sequence ID, and the ID modulo 65536. */
  lemma HeaderFields(stream: seq<byte>, last: int, first8: int, id: int)
    requires 0 <= last < 0x1_0000 && 0 <= first8 < 0x100 && Carries(stream, last, first8, id)
    ensures UshortFromBits(stream, 4) == Some(last)
    ensures ByteFromBits(stream, 20) == Some(first8 + 256 * (id % 16))
    ensures UshortFromBits(stream, 28) == Some(id % 0x1_0000)
  {
    LastField(stream, last, first8, id);
    MarksField(stream, last, first8, id);
    IDField(stream, last, first8, id);
  }

  lemma LastField(stream: seq<byte>, last: int, first8: int, id: int)
    requires 0 <= last < 0x1_0000 && 0 <= first8 < 0x100 && Carries(stream, last, first8, id)
    ensures UshortFromBits(stream, 4) == Some(last)
  {
    hide Bit, Bits, Or, Shl, Shr, Low, Val, UshortFromBits, NotifyBits;
    UshortValue(stream, 4);
    forall i | 0 <= i < 16
      ensures Bits(stream)[4..20][i] == Field(last, 16)[i]
    {
      NotifyBit(last, first8, id, i);
    }
    assert Bits(stream)[4..20] == Field(last, 16);
    ValField(last, 16);
    Pow2Values();
    LowSmall(last, 16);
  }

  lemma IDField(stream: seq<byte>, last: int, first8: int, id: int)
    requires 0 <= last < 0x1_0000 && 0 <= first8 < 0x100 && Carries(stream, last, first8, id)
    ensures UshortFromBits(stream, 28) == Some(id % 0x1_0000)
  {
    hide Bit, Bits, Or, Shl, Shr, Low, Val, UshortFromBits, NotifyBits;
    UshortValue(stream, 28);
    forall i | 0 <= i < 16
      ensures Bits(stream)[28..44][i] == Field(id, 16)[i]
    {
      NotifyBit(last, first8, id, 24 + i);
      assert Bits(stream)[4 + (24 + i)] == Bit(id, i);
    }
    assert Bits(stream)[28..44] == Field(id, 16);
    ValField(id, 16);
    Pow2Values();
    LowIsMod(id, 16);
  }

  lemma MarksField(stream: seq<byte>, last: int, first8: int, id: int)
    requires 0 <= last < 0x1_0000 && 0 <= first8 < 0x100 && Carries(stream, last, first8, id)
    ensures ByteFromBits(stream, 20) == Some(first8 + 256 * (id % 16))
  {
    hide Bit, Bits, Or, Shl, Shr, Low;
    var read := Or(Shr(stream[2], 4), Shl(stream[3], 4));
    var sum := Or(first8, Shl(Low(id, 4), 8));
    forall t: nat
      ensures Bit(read, t) == Bit(sum, t)
    {
      MarksBit(stream, last, first8, id, t);
      BitOr(first8, Shl(Low(id, 4), 8), t);
      BitShl(Low(id, 4), 8, t);
      if t >= 8 {
        BitLow(id, 4, t - 8);
      }
    }
    SameBits(read, sum);
    Sixteen();
    Pow2Values();
    OrIsPlus(first8, Low(id, 4), 8);
    ShlIsTimes(Low(id, 4), 8);
    LowIsMod(id, 4);
    ByteRead(stream);
  }

  lemma Sixteen()
    ensures Pow2(4) == 16
  {
  }

  lemma ByteRead(stream: seq<byte>)
    requires |stream| >= 9
    ensures ByteFromBits(stream, 20) == Some(Or(Shr(stream[2], 4), Shl(stream[3], 4)))
  {
    hide Or, Shl, Shr;
  }

  lemma MarksBit(stream: seq<byte>, last: int, first8: int, id: int, t: nat)
    requires 0 <= last < 0x1_0000 && 0 <= first8 < 0x100 && Carries(stream, last, first8, id)
    ensures Bit(Or(Shr(stream[2], 4), Shl(stream[3], 4)), t) == (Bit(first8, t) || (8 <= t < 12 && Bit(id, t - 8)))
  {
    hide Bit, Bits, Or, Shl, Shr, NotifyBits;
    BitOr(Shr(stream[2], 4), Shl(stream[3], 4), t);
    BitShr(stream[2], 4, t);
    BitShl(stream[3], 4, t);
    if t < 4 {
      BitsAt(stream, 2, t + 4);
      NotifyBit(last, first8, id, 16 + t);
      assert Bits(stream)[4 + (16 + t)] == Bit(first8, t);
    } else {
      Converter.BitHigh(stream[2], t + 4);
      if t < 12 {
        BitsAt(stream, 3, t - 4);
        NotifyBit(last, first8, id, 16 + t);
        assert Bits(stream)[4 + (16 + t)] == Bits(stream)[24 + (t - 4)];
      } else {
        Converter.BitHigh(stream[3], t - 4);
      }
      if t >= 8 {
        Converter.BitHigh(first8, t);
      }
    }
  }

  /** What is left above the marks makes no difference. */
  lemma OnlyEightBits(s: Notify, last: int, bits: int, more: int)
    requires Low(bits, 8) == Low(more, 8)
    ensures Updated(s, last, bits) == Updated(s, last, more)
  {
    hide Bit, Low;
    forall k: nat | k < 8
      ensures Bit(bits, k) == Bit(more, k)
    {
      BitLow(bits, 8, k);
      BitLow(more, 8, k);
    }
    forall k | k >= 1
      ensures OutcomeBefore(bits, k) == OutcomeBefore(more, k)
    {
    }
    forall lastAcked, gap | gap > 0
      ensures UpdateReports(lastAcked, gap, last, bits) == UpdateReports(lastAcked, gap, last, more)
    {
      assert GapReports(lastAcked, gap, bits, gap - 1) == GapReports(lastAcked, gap, more, gap - 1);
    }
  }

  /** From one end to the other, unless the unset field raises: the receiver does with the message what it does with
      the sender's last ID, its eight latest marks and its next ID modulo 65536. */
  method NotifyExchange(sender: Sequencer, receiver: Sequencer, message: Wire.Message) returns (handled: Option<bool>)
    requires sender != receiver && sender.receivedSeqIds != receiver.receivedSeqIds
    requires sender.ownLastReceivedSeqId.Some? ==> 0 <= sender.ownLastReceivedSeqId.value < 0x1_0000
    requires message.Valid() && message.header == Wire.NOTIFY
    modifies sender`nextSequenceId, message`notifyBits, receiver, receiver.receivedSeqIds
    ensures sender.nextSequenceId == old(sender.nextSequenceId) + 1
    ensures sender.ownLastReceivedSeqId.None? ==>
      handled == None && receiver.State() == old(receiver.State()) && receiver.reports == old(receiver.reports)
    ensures sender.ownLastReceivedSeqId.Some? ==>
      var last, first8 := sender.ownLastReceivedSeqId.value, sender.receivedSeqIds.State().First8();
      var (s, told, verdict) := Processed(old(receiver.State()), last, first8, Some(sender.nextSequenceId % 0x1_0000));
      receiver.State() == s && receiver.reports == old(receiver.reports) + told && handled == verdict
  {
    hide And, Or, Shl, Bit, Bits, Low, Field, UshortFromBits, IntFromBits, NotifyBits, Updated, Wire.WireBits;
    var header := sender.InsertHeader();
    if header.None? {
      return None;
    }
    var (bits, id) := header.value;
    message.notifyBits := bits;
    var stream := message.CreateBytestream();
    var last, first8 := sender.ownLastReceivedSeqId.value, And(sender.receivedSeqIds.bits, 0xff);
    MarksRange(sender.receivedSeqIds.bits);
    ghost var msgID := if message.msgID < 0 then 0 else message.msgID;
    StreamCarries(stream.value, message.seqID, last, first8, id, msgID, message.Payload());
    HeaderFields(stream.value, last, first8, id);
    ghost var before := receiver.State();
    handled := receiver.ProcessNotify(stream.value);
    LowOfSum(first8, id % 16);
    OnlyEightBits(before, last, first8 + 256 * (id % 16), first8);
  }

  lemma MarksRange(bits: int)
    ensures 0 <= And(bits, 0xff) < 0x100
  {
    AndByte(bits);
  }

  lemma LowOfSum(first8: int, rest: int)
    requires 0 <= first8 < 0x100
    ensures Low(first8 + 256 * rest, 8) == Low(first8, 8)
  {
    hide Low, Shl;
    Pow2Values();
    LowIsMod(first8 + 256 * rest, 8);
    LowIsMod(first8, 8);
    ModUnique(first8 + 256 * rest, rest, first8, 256);
  }

  lemma StreamCarries(stream: seq<byte>, seqID: int, last: int, first8: int, id: int, msgID: nat, payload: seq<bool>)
    requires
      var wire := Wire.WireBits(Wire.NOTIFY, seqID, NotifyBits(last, first8, id), msgID, payload);
      wire <= Bits(stream) && |stream| == Wire.WireBytes(Wire.NOTIFY, |wire|)
    ensures Carries(stream, last, first8, id)
  {
    hide Bit, Bits, Or, Shl, NotifyBits;
    var bits := NotifyBits(last, first8, id);
    var wire := Wire.WireBits(Wire.NOTIFY, seqID, bits, msgID, payload);
    forall k: nat | k < 40
      ensures Bits(stream)[4 + k] == Bit(bits, k)
    {
      assert wire[4 + k] == Field(bits, 40)[k];
    }
  }

  // ---------- what the receiver filters ----------

  /** The receiver measures from a field it never moves: whatever it received before, a message is handed on exactly
      when its wire ID is from 1 to 32768, duplicates included. */
  lemma NothingIsFiltered(s: Notify, id: int)
    requires s.lastReceived == 0
    ensures
      var (next, verdict) := Handled(s, id);
      && (verdict <==> 1 <= id % 0x1_0000 <= 32768)
      && next.lastReceived == 0
  {
    hide Bit, Or, Shl;
    var gap := GetSequenceGap(id, 0);
    if gap > 0 {
      BitShl(s.received.bits, gap, gap - 1);
    }
  }

  // ---------- one update ----------

  /** The reports are on the IDs from `low + 1` on, each once, in order. */
  predicate InOrder(reports: seq<Report>, low: int) {
    forall i | 0 <= i < |reports| :: reports[i].id == low + 1 + i
  }

  /** A report on the ID `k` before the latest. */
  predicate Reports(report: Report, last: int, k: nat, bits: int) {
    report.id == last - k && Says(report, k, bits)
  }

  /** Delivered exactly when it is the latest one itself or one of the eight before it with its bit set; lost exactly
      when it is one of the eight with its bit clear; dropped exactly when it is before those. */
  predicate Says(report: Report, k: nat, bits: int) {
    && (report.outcome == Delivered <==> k == 0 || (k <= 8 && Bit(bits, k - 1)))
    && (report.outcome == Lost <==> 1 <= k <= 8 && !Bit(bits, k - 1))
    && (report.outcome == Dropped <==> k > 8)
  }

  /** An update that goes forward reports each ID after `lastAcked` up to the remote one exactly once, in order,
      exactly when the gap, which the code takes from the ID last received, leads from `lastAcked` to it. Then it
      says of each ID what the remote bits say. */
  lemma UpdateOnceIff(lastAcked: int, gap: int, last: int, bits: int)
    requires gap > 0
    ensures
      var reports := UpdateReports(lastAcked, gap, last, bits);
      && |reports| == gap
      && (InOrder(reports, lastAcked) <==> lastAcked + gap == last)
      && (lastAcked + gap == last ==> forall i | 0 <= i < gap :: Reports(reports[i], last, gap - 1 - i, bits))
  {
    hide Bit;
    var reports := UpdateReports(lastAcked, gap, last, bits);
    assert reports[gap - 1] == Report(last, Delivered);
    forall i | 0 <= i < gap - 1
      ensures reports[i] == Report(lastAcked + 1 + i, OutcomeBefore(bits, gap - 1 - i))
    {
    }
    if lastAcked + gap == last {
      UpdateInOrder(reports, lastAcked, gap, last, bits);
    }
  }

  lemma UpdateInOrder(reports: seq<Report>, lastAcked: int, gap: int, last: int, bits: int)
    requires gap > 0 && |reports| == gap && lastAcked + gap == last && reports[gap - 1] == Report(last, Delivered)
    requires forall i | 0 <= i < gap - 1 :: reports[i] == Report(lastAcked + 1 + i, OutcomeBefore(bits, gap - 1 - i))
    ensures InOrder(reports, lastAcked)
    ensures forall i | 0 <= i < gap :: Reports(reports[i], last, gap - 1 - i, bits)
  {
    hide Bit;
  }

  // ---------- runs ----------

  /** A message sent, or one received with these three numbers in it, the last one missing where the stream is too
      short. (A stream without the first two raises before anything happens.) */
  datatype Call = Insert | Process(last: int, bits: int, id: Option<int>)

  function Called(s: Notify, call: Call): (Notify, seq<Report>) {
    match call
    case Insert => (s.(nextId := s.nextId + 1), [])
    case Process(last, bits, id) =>
      var (next, told, _) := Processed(s, last, bits, id);
      (next, told)
  }

  function After(s: Notify, calls: seq<Call>): (Notify, seq<Report>) {
    if |calls| == 0 then (s, [])
    else
      var front := After(s, calls[..|calls| - 1]);
      var (next, told) := Called(front.0, calls[|calls| - 1]);
      (next, front.1 + told)
  }

  /** On a connection as constructed every notify message raises at both ends: in no run is anything reported. */
  lemma {:induction false} FreshNeverWorks(calls: seq<Call>)
    ensures After(FRESH, calls) == (FRESH.(nextId := After(FRESH, calls).0.nextId), [])
    ensures forall last, bits, id :: Processed(After(FRESH, calls).0, last, bits, id).2 == None
  {
    if |calls| > 0 {
      FreshNeverWorks(calls[..|calls| - 1]);
      assert After(FRESH, calls[..|calls| - 1]).0.ownLastReceived == None;
      var none: seq<Report> := [];
      assert none + none == none;
    }
  }

  /** The gap of an update that goes forward; zero otherwise. */
  function Forward(s: Notify, call: Call): nat {
    if call.Insert? || s.ownLastReceived.None? then 0
    else
      var gap := GetSequenceGap(call.last, s.ownLastReceived.value);
      if gap > 0 then gap else 0
  }

  /** The first update that goes forward leads from `low` to the remote ID; each later one goes forward by one. */
  predicate OnceCall(s: Notify, low: int, reported: nat, call: Call) {
    var gap := Forward(s, call);
    gap > 0 ==> if reported == 0 then low + gap == call.last else gap == 1 && call.last == low + reported + 1
  }

  predicate OnceRun(s: Notify, calls: seq<Call>) {
    |calls| > 0 ==>
      var front := calls[..|calls| - 1];
      OnceRun(s, front) && OnceCall(After(s, front).0, s.lastAcked, |After(s, front).1|, calls[|calls| - 1])
  }

  /** Over a run, every ID from the last acknowledged one on is reported exactly once, in order, exactly when the
      first forward update is right and every later one goes forward by a single ID: an update leaves the last
      acknowledged ID short of the one it reported, so that a longer gap reports that one a second time. */
  lemma {:induction false} RunOnceIff(s: Notify, calls: seq<Call>)
    ensures InOrder(After(s, calls).1, s.lastAcked) <==> OnceRun(s, calls)
    ensures OnceRun(s, calls) ==>
      var (end, reports) := After(s, calls);
      if |reports| == 0 then end.lastAcked == s.lastAcked else end.lastAcked < s.lastAcked + |reports|
  {
    hide Bit, Handled;
    if |calls| > 0 {
      var front, call := calls[..|calls| - 1], calls[|calls| - 1];
      RunOnceIff(s, front);
      CallOnceIff(After(s, front).0, s.lastAcked, After(s, front).1, call);
    }
  }

  lemma HandledKeeps(s: Notify, id: int)
    ensures Handled(s, id).0.lastAcked == s.lastAcked
  {
  }

  lemma CallOnceIff(s: Notify, low: int, reports: seq<Report>, call: Call)
    requires InOrder(reports, low) ==> if |reports| == 0 then s.lastAcked == low else s.lastAcked < low + |reports|
    ensures
      var (next, told) := Called(s, call);
      var all := reports + told;
      && (InOrder(all, low) <==> InOrder(reports, low) && OnceCall(s, low, |reports|, call))
      && (InOrder(all, low) ==> if |all| == 0 then next.lastAcked == low else next.lastAcked < low + |all|)
  {
    hide Bit, Handled, InOrder, UpdateReports;
    var (next, told) := Called(s, call);
    var gap := Forward(s, call);
    if call.Process? && s.ownLastReceived.Some? && call.id.Some? {
      HandledKeeps(Updated(s, call.last, call.bits).value.0, call.id.value);
    }
    InOrderConcat(reports, told, low);
    if gap > 0 {
      UpdateOnceIff(s.lastAcked, gap, call.last, call.bits);
      if |reports| > 0 {
        if InOrder(reports, low) {
          LaterUpdate(s.lastAcked, gap, call.last, call.bits, low + |reports|);
        }
      }
    } else {
      assert reports + told == reports;
    }
  }

  /** An update that begins short of what was reported is in order only if it has just the remote ID to report. */
  lemma LaterUpdate(lastAcked: int, gap: int, last: int, bits: int, low: int)
    requires gap > 0 && lastAcked < low
    ensures InOrder(UpdateReports(lastAcked, gap, last, bits), low) <==> gap == 1 && last == low + 1
  {
    hide Bit;
    var reports := UpdateReports(lastAcked, gap, last, bits);
    assert gap > 1 ==> reports[0].id == lastAcked + 1;
    assert gap == 1 ==> reports[0].id == last;
  }

  lemma InOrderConcat(a: seq<Report>, b: seq<Report>, low: int)
    ensures InOrder(a + b, low) <==> InOrder(a, low) && InOrder(b, low + |a|)
  {
    if InOrder(a + b, low) {
      forall i | 0 <= i < |a|
        ensures a[i].id == low + 1 + i
      {
        assert (a + b)[i] == a[i];
      }
      forall i | 0 <= i < |b|
        ensures b[i].id == low + |a| + 1 + i
      {
        assert (a + b)[|a| + i] == b[i];
      }
    }
  }

  // ---------- with a single field ----------

  /** The update as it was meant: one field, and the gap taken from the last acknowledged ID. */
  function Meant(lastAcked: int, last: int, bits: int): (int, seq<Report>) {
    var gap := GetSequenceGap(last, lastAcked);
    if gap <= 0 then (lastAcked, []) else (last, UpdateReports(lastAcked, gap, last, bits))
  }

  function MeantRun(acks: seq<(int, int)>): (int, seq<Report>) {
    if |acks| == 0 then (0, [])
    else
      var front := MeantRun(acks[..|acks| - 1]);
      var (lastAcked, told) := Meant(front.0, acks[|acks| - 1].0, acks[|acks| - 1].1);
      (lastAcked, front.1 + told)
  }

  /** Every acknowledged ID is at most half the range before or after the last one. */
  predicate MeantWindow(acks: seq<(int, int)>) {
    forall i | 0 <= i < |acks| :: -32768 < acks[i].0 - MeantRun(acks[..i]).0 < 32768
  }

  lemma EmptyInOrder()
    ensures InOrder([], 0)
  {
  }

  /** With a single field, every ID up to the last acknowledged one is reported exactly once over the run. */
  lemma {:induction false} MeantOnce(acks: seq<(int, int)>)
    requires MeantWindow(acks)
    ensures InOrder(MeantRun(acks).1, 0) && |MeantRun(acks).1| == MeantRun(acks).0
  {
    hide Bit, InOrder;
    if |acks| == 0 {
      EmptyInOrder();
    } else {
      var front, ack := acks[..|acks| - 1], acks[|acks| - 1];
      forall i | 0 <= i < |front|
        ensures front[..i] == acks[..i]
      {
      }
      MeantOnce(front);
      GapExact(ack.0, MeantRun(front).0);
      var gap := GetSequenceGap(ack.0, MeantRun(front).0);
      var told := Meant(MeantRun(front).0, ack.0, ack.1).1;
      assert MeantRun(acks).1 == MeantRun(front).1 + told;
      if gap > 0 {
        UpdateOnceIff(MeantRun(front).0, gap, ack.0, ack.1);
        InOrderConcat(MeantRun(front).1, told, 0);
      } else {
        assert MeantRun(front).1 + [] == MeantRun(front).1;
      }
    }
  }

  // ---------- across the wraparound ----------

  /** The reports are on the IDs from `low + 1` on modulo 65536, each once, in order. */
  predicate InOrderMod(reports: seq<Report>, low: int) {
    forall i | 0 <= i < |reports| :: reports[i].id % 0x1_0000 == (low + 1 + i) % 0x1_0000
  }

  /** The largest of the unwrapped IDs acknowledged. */
  function LatestOf(acks: seq<(nat, int)>): nat {
    if |acks| == 0 then 0
    else
      var latest := LatestOf(acks[..|acks| - 1]);
      if acks[|acks| - 1].0 > latest then acks[|acks| - 1].0 else latest
  }

  /** The run on what arrives of the unwrapped IDs. */
  function WireRun(acks: seq<(nat, int)>): (int, seq<Report>) {
    if |acks| == 0 then (0, [])
    else
      var front, ack := WireRun(acks[..|acks| - 1]), acks[|acks| - 1];
      var (lastAcked, told) := Meant(front.0, ack.0 % 0x1_0000, ack.1);
      (lastAcked, front.1 + told)
  }

  predicate WireWindow(acks: seq<(nat, int)>) {
    |acks| > 0 ==>
      WireWindow(acks[..|acks| - 1]) && -32768 < acks[|acks| - 1].0 - LatestOf(acks[..|acks| - 1]) < 32768
  }

  /** One update across any wraparound: each ID once, in order, modulo 65536, and of each what the bits say. */
  lemma UpdateOnceMod(latest: nat, gap: int, bits: int)
    requires gap > 0
    ensures
      var reports := UpdateReports(latest % 0x1_0000, gap, (latest + gap) % 0x1_0000, bits);
      && |reports| == gap && InOrderMod(reports, latest)
      && forall i | 0 <= i < gap :: Says(reports[i], gap - 1 - i, bits)
  {
    hide Bit;
    var reports := UpdateReports(latest % 0x1_0000, gap, (latest + gap) % 0x1_0000, bits);
    forall i | 0 <= i < gap
      ensures reports[i].id % 0x1_0000 == (latest + 1 + i) % 0x1_0000
      ensures Says(reports[i], gap - 1 - i, bits)
    {
      if i < gap - 1 {
        assert reports[i] == Report(latest % 0x1_0000 + 1 + i, OutcomeBefore(bits, gap - 1 - i));
        WireSum(latest, 1 + i);
      }
    }
  }

  lemma WireSum(latest: nat, n: nat)
    ensures (latest % 0x1_0000 + n) % 0x1_0000 == (latest + n) % 0x1_0000
  {
    var q := latest / 0x1_0000;
    ModUnique(latest % 0x1_0000 + n, (latest + n) / 0x1_0000 - q, (latest + n) % 0x1_0000, 0x1_0000);
  }

  lemma InOrderModConcat(a: seq<Report>, b: seq<Report>, low: int)
    requires InOrderMod(a, low) && InOrderMod(b, low + |a|)
    ensures InOrderMod(a + b, low)
  {
  }

  /** With a single field, over every run of acknowledgements less than half the ID range away from the latest one,
      across any number of wraparounds, every ID up to the latest is reported exactly once, in order. */
  lemma {:induction false} MeantOnceMod(acks: seq<(nat, int)>)
    requires WireWindow(acks)
    ensures
      var (lastAcked, reports) := WireRun(acks);
      lastAcked == LatestOf(acks) % 0x1_0000 && |reports| == LatestOf(acks) && InOrderMod(reports, 0)
  {
    hide Bit, InOrderMod, UpdateReports, GetSequenceGap;
    if |acks| == 0 {
      NothingInOrder();
    } else {
      var front, ack := acks[..|acks| - 1], acks[|acks| - 1];
      MeantOnceMod(front);
      var latest, reports := LatestOf(front), WireRun(front).1;
      GapOfWire(ack.0, latest);
      GapExact(ack.0, latest);
      if ack.0 > latest {
        UpdateOnceMod(latest, ack.0 - latest, ack.1);
        InOrderModConcat(reports, UpdateReports(latest % 0x1_0000, ack.0 - latest, ack.0 % 0x1_0000, ack.1), 0);
      } else {
        assert reports + [] == reports;
      }
    }
  }

  lemma NothingInOrder()
    ensures InOrderMod([], 0)
  {
  }
}
