/** What notify messages do to the fields of a sequencer, call by call and over runs. */
module NotifyRuns {
  import opened PyInt
  import opened BitBuffer
  import opened SequenceGap
  import opened Bitfields
  import opened Reading
  import opened NotifySequencer

  /** A message ahead of the field that never moves is handed on, its ID goes into the other field, and the marks move
      by its distance, with one for what was the latest; any other message changes nothing. */
  lemma HandledFields(s: Notify, id: int, k: nat)
    ensures
      var gap := GetSequenceGap(id, s.lastReceived);
      var (next, verdict) := Handled(s, id);
      && (verdict <==> gap > 0)
      && (gap <= 0 ==> next == s)
      && (gap > 0 ==>
            && next == s.(ownLastReceived := Some(id), received := next.received)
            && (Bit(next.received.bits, k) <==> (k >= gap && Bit(s.received.bits, k - gap)) || k == gap - 1)
            && next.received.count == next.received.capacity == s.received.count + gap)
  {
    hide Bit, Or, Shl, GetSequenceGap;
    var gap := GetSequenceGap(id, s.lastReceived);
    if gap > 0 {
      BitShl(s.received.bits, gap, gap - 1);
      BitShl(s.received.bits, gap, k);
      BitWith(s.received.Shifted(gap), gap, k);
    }
  }

  /** As all distances are from ID 0, the marks move by the ID itself: after a message from wire ID 9 on, the eight
      marks that go out say that nothing was received. */
  lemma NothingMarked(s: Notify, id: int)
    requires s.lastReceived == 0 && 9 <= id % 0x1_0000 <= 32768
    ensures Handled(s, id).0.received.First8() == 0
  {
    hide Bit, And, Handled;
    var next := Handled(s, id).0;
    var first8 := next.received.First8();
    forall k: nat
      ensures Bit(first8, k) == Bit(0, k)
    {
      BitOfZero(k);
      HandledFields(s, id, k);
      Converter.BitByte(next.received.bits, k);
    }
    SameBits(first8, 0);
  }

  // ---------- one call ----------

  /** The call is a message that is handed on. */
  predicate HandsOn(s: Notify, call: Call) {
    && call.Process? && s.ownLastReceived.Some? && call.id.Some?
    && GetSequenceGap(call.id.value, s.lastReceived) > 0
  }

  /** What comes of a received message: nothing while the field is not set; else the reports, as many as the update goes
      forward, and the verdict where there is an ID. */
  lemma ProcessedFields(s: Notify, last: int, bits: int, id: Option<int>)
    ensures
      var (next, told, verdict) := Processed(s, last, bits, id);
      var call := Process(last, bits, id);
      && |told| == Forward(s, call)
      && (verdict.None? <==> s.ownLastReceived.None? || id.None?)
      && (verdict.Some? ==> (verdict.value <==> HandsOn(s, call)))
      && (Forward(s, call) > 0 ==>
            && told == UpdateReports(s.lastAcked, Forward(s, call), last, bits)
            && next.lastAcked == s.lastAcked + |told| - 1 && next.ownLastAcked == Some(last))
      && (Forward(s, call) == 0 ==> next.lastAcked == s.lastAcked && next.ownLastAcked == s.ownLastAcked)
      && next.ownLastReceived == (if HandsOn(s, call) then id else s.ownLastReceived)
      && next.nextId == s.nextId && next.lastReceived == s.lastReceived
      && (!HandsOn(s, call) ==> next.received == s.received)
  {
    hide Bit, GetSequenceGap, Handled, UpdateReports;
    var call := Process(last, bits, id);
    if Forward(s, call) > 0 {
      UpdateOnceIff(s.lastAcked, Forward(s, call), last, bits);
    }
    if s.ownLastReceived.Some? && id.Some? {
      HandledFields(Updated(s, last, bits).value.0, id.value, 0);
    }
  }

  /** A stream without the first two numbers, which take four bytes, does nothing; one without the ID, which takes six,
      has its reports and then raises. */
  lemma ShortStream(s: Notify, stream: seq<byte>)
    ensures |stream| < 4 ==> ProcessedStream(s, stream) == (s, [], None)
    ensures 4 <= |stream| < 6 && s.ownLastReceived.Some? ==>
      var last, bits := UshortFromBits(stream, 4), ByteFromBits(stream, 20);
      && last.Some? && bits.Some?
      && ProcessedStream(s, stream) ==
         (Updated(s, last.value, bits.value).value.0, Updated(s, last.value, bits.value).value.1, None)
  {
    hide Bit, And, Or, Shl, Shr, Updated, UshortFromBits;
    UshortValue(stream, 4);
    UshortValue(stream, 28);
    UpdatedSome(s);
  }

  lemma UpdatedSome(s: Notify)
    ensures forall last, bits :: Updated(s, last, bits).Some? <==> s.ownLastReceived.Some?
  {
    hide Bit;
  }

  // ---------- runs ----------

  /** How many messages were sent. */
  function Inserts(calls: seq<Call>): nat {
    if |calls| == 0 then 0 else Inserts(calls[..|calls| - 1]) + if calls[|calls| - 1].Insert? then 1 else 0
  }

  /** How many updates went forward. */
  function Forwards(s: Notify, calls: seq<Call>): nat {
    if |calls| == 0 then 0
    else
      var front := calls[..|calls| - 1];
      Forwards(s, front) + if Forward(After(s, front).0, calls[|calls| - 1]) > 0 then 1 else 0
  }

  /** The ID of the latest message handed on. */
  function LatestHanded(s: Notify, calls: seq<Call>): Option<int> {
    if |calls| == 0 then s.ownLastReceived
    else
      var front, last := calls[..|calls| - 1], calls[|calls| - 1];
      if HandsOn(After(s, front).0, last) then last.id else LatestHanded(s, front)
  }

  /** Over every run: each message sent takes one ID; the field that the distances are measured from never moves; the
      one that is sent along holds the ID of the latest message handed on; and the last acknowledged ID falls behind by
      one with every update that goes forward. */
  lemma {:induction false} RunFields(s: Notify, calls: seq<Call>)
    ensures
      var (end, reports) := After(s, calls);
      && end.nextId == s.nextId + Inserts(calls)
      && end.lastReceived == s.lastReceived
      && end.ownLastReceived == LatestHanded(s, calls)
      && end.lastAcked == s.lastAcked + |reports| - Forwards(s, calls)
  {
    hide Processed, HandsOn, Forward;
    if |calls| > 0 {
      var front, call := calls[..|calls| - 1], calls[|calls| - 1];
      RunFields(s, front);
      if call.Process? {
        ProcessedFields(After(s, front).0, call.last, call.bits, call.id);
      } else {
        NoMessage(After(s, front).0);
      }
    }
  }

  lemma NoMessage(s: Notify)
    ensures Forward(s, Insert) == 0 && !HandsOn(s, Insert)
  {
  }
}
