/** The reliable channel with the acknowledgement bookkeeping as it was meant: the gap, and the IDs that are trimmed,
    are taken from the ID last acknowledged instead of the one last received, and an empty bitfield is not trimmed.
    All else is the code's. Then no acknowledgement is harmful. */
module MeantChannel {
  import opened PyInt
  import opened BitBuffer
  import opened SequenceGap
  import opened Bitfields
  import opened ReliableSequencer
  import opened ReliableChannel
  import AnyRun

  function MeantUpdated(s: Sequence, last: int, bits: int): (Sequence, seq<Request>) {
    var gap := GetSequenceGap(last, s.lastAcked);
    if gap < 0 then (s.(acked := s.acked.With(-gap)), [])
    else if gap == 0 then (s.(acked := s.acked.Combined(bits)), [])
    else
      var overflow := s.acked.Overflow(gap);
      var (marks, trims, _) :=
        if overflow < 0 then (s.acked, [], false) else Trimmed(s.acked, Min(overflow, s.acked.count), s.lastAcked);
      var shifted := marks.Shifted(gap);
      (s.(lastAcked := last, acked := shifted.Combined(bits).With(gap)),
       trims + Selected(shifted, bits, last, 16) + [Clear(last)])
  }

  function MeantAcked(x: Endpoint, ack: Ack): Endpoint {
    var (s, requests) := MeantUpdated(x.s, ack.last, ack.bits);
    x.(s := s, store := x.store.AfterAll([Clear(ack.id)] + requests))
  }

  /** The marks after it, as `UpdatedMarks` has them, but measured from the ID last acknowledged. */
  lemma MeantMarks(x: Endpoint, ack: Ack, k: nat)
    ensures
      var s, next, requests := x.s, MeantAcked(x, ack).s, MeantUpdated(x.s, ack.last, ack.bits).1;
      var gap := GetSequenceGap(ack.last, s.lastAcked);
      && (gap > 0 ==>
            && (Bit(next.acked.bits, k) <==>
                (k >= gap && Bit(s.acked.bits, k - gap)) || Bit(ack.bits, k) || k == gap - 1)
            && next == s.(lastAcked := ack.last, acked := next.acked))
      && (gap == 0 ==> (Bit(next.acked.bits, k) <==> Bit(s.acked.bits, k) || Bit(ack.bits, k)))
      && (gap < 0 ==> (Bit(next.acked.bits, k) <==> Bit(s.acked.bits, k) || k == -gap - 1))
      && (gap <= 0 ==> requests == [] && next == s.(acked := s.acked.(bits := next.acked.bits)))
  {
    hide Bit, Trimmed, Selected, Or, Shl, GetSequenceGap;
    var s := x.s;
    var gap := GetSequenceGap(ack.last, s.lastAcked);
    if gap > 0 {
      var overflow := s.acked.Overflow(gap);
      if overflow >= 0 {
        TrimmedCount(s.acked, Min(overflow, s.acked.count), s.lastAcked);
      }
      var shifted := Marks(Shl(s.acked.bits, gap), 0, 0);
      BitShl(s.acked.bits, gap, k);
      BitOr(shifted.bits, ack.bits, k);
      BitWith(shifted.Combined(ack.bits), gap, k);
    } else if gap == 0 {
      BitOr(s.acked.bits, ack.bits, k);
    } else {
      BitWith(s.acked, -gap, k);
    }
  }

  /** What it still does: the message that is answered goes; an acknowledgement that goes forward also clears its latest
      ID, what it marks among the 16 before that unless it was marked, and what is marked of what it trims, and asks for
      the rest of that again. */
  lemma MeantClears(x: Endpoint, ack: Ack, id: int)
    ensures
      var gap := GetSequenceGap(ack.last, x.s.lastAcked);
      var p, k := x.s.lastAcked - id, ack.last - id;
      var kept := if x.s.acked.Overflow(gap) > 0 then x.s.acked.count - x.s.acked.Overflow(gap) else x.s.acked.count;
      var trimmed := gap > 0 && 1 <= p <= x.s.acked.count && kept < p;
      var marked := p >= 1 && Bit(x.s.acked.bits, p - 1);
      && (id in MeantAcked(x, ack).store.pending <==>
            && id in x.store.pending && id != ack.id
            && !(gap > 0 && id == ack.last) && !(trimmed && marked)
            && !(gap > 0 && 1 <= k <= 16 && Bit(ack.bits, k - 1) && !MeantShifted(x.s, gap).IsSet(k)))
      && (Resend(id) in MeantUpdated(x.s, ack.last, ack.bits).1 <==> trimmed && !marked)
  {
    hide Bit, Trimmed, Selected, Or, Shl, GetSequenceGap;
    var gap := GetSequenceGap(ack.last, x.s.lastAcked);
    RemovedIff(x.store, [Clear(ack.id)] + MeantUpdated(x.s, ack.last, ack.bits).1, id);
    if gap > 0 {
      SelectedClears(MeantShifted(x.s, gap), ack.bits, ack.last, 16, id);
      var overflow := x.s.acked.Overflow(gap);
      if overflow >= 0 {
        TrimmedClears(x.s.acked, Min(overflow, x.s.acked.count), x.s.lastAcked, id);
        TrimmedCount(x.s.acked, Min(overflow, x.s.acked.count), x.s.lastAcked);
      }
    }
  }

  /** The old marks, less those trimmed, moved by the gap. */
  function MeantShifted(s: Sequence, gap: nat): Marks {
    var overflow := s.acked.Overflow(gap);
    s.acked.(count := s.acked.count - if overflow > 0 then Min(overflow, s.acked.count) else 0).Shifted(gap)
  }

  function MeantNext(sys: System, step: Step): System {
    if step.Acknowledge? then WithEnd(sys, step.to, MeantAcked(End(sys, step.to), step.ack)) else Next(sys, step)
  }

  function MeantAfter(steps: seq<Step>): System {
    if |steps| == 0 then START else MeantNext(MeantAfter(steps[..|steps| - 1]), steps[|steps| - 1])
  }

  /** Only what was sent arrives, and every message that arrives is recognised. */
  predicate MeantRun(steps: seq<Step>) {
    |steps| > 0 ==>
      var sys, step := MeantAfter(steps[..|steps| - 1]), steps[|steps| - 1];
      MeantRun(steps[..|steps| - 1]) && Possible(sys, step) && TimelyStep(sys, step)
  }

  /** Only what was sent arrives. */
  predicate PossibleRun(steps: seq<Step>) {
    |steps| > 0 ==>
      PossibleRun(steps[..|steps| - 1]) && Possible(MeantAfter(steps[..|steps| - 1]), steps[|steps| - 1])
  }

  /** Each mark of the sender stands for an ID that was received, or for none that was ever used. */
  ghost predicate Stands(x: Endpoint, received: seq<int>) {
    && 0 <= x.s.lastAcked < 0x1_0000 && Received(x.s.lastAcked, received)
    && forall k: nat :: Bit(x.s.acked.bits, k) && x.s.lastAcked - 1 - k >= 2 ==>
                          Received(x.s.lastAcked - 1 - k, received)
  }

  /** What the remote ID can be, given the gap. */
  lemma GapLands(last: int, lastAcked: int)
    requires 0 <= last < 0x1_0000 && 0 <= lastAcked < 0x1_0000
    ensures
      var gap := GetSequenceGap(last, lastAcked);
      || last == lastAcked + gap
      || (gap > 0 && last == lastAcked + gap - 0x1_0000)
      || (gap < 0 && last == lastAcked + gap + 0x1_0000)
  {
  }

  /** The bits of a truthful acknowledgement. */
  lemma BitStands(ack: Ack, accepted: seq<int>, k: nat)
    requires Truthful(ack, accepted) && Bit(ack.bits, k) && ack.last - 1 - k >= 2
    ensures Received(ack.last - 1 - k, accepted)
  {
    hide Bit, Received;
    Pow2Values();
    LowSmall(ack.bits, 16);
    BitLow(ack.bits, 16, k);
    assert (ack.last - 1 - k) % 0x1_0000 == ack.last - 1 - k;
  }

  lemma AckedStands(x: Endpoint, received: seq<int>, ack: Ack)
    requires Stands(x, received) && Truthful(ack, received)
    ensures Stands(MeantAcked(x, ack), received)
  {
    hide Bit, Or, Shl, Selected, Trimmed, GetSequenceGap, Truthful, Received;
    var s := MeantUpdated(x.s, ack.last, ack.bits).0;
    TruthfulLast(ack, received);
    forall k: nat | Bit(s.acked.bits, k) && s.lastAcked - 1 - k >= 2
      ensures Received(s.lastAcked - 1 - k, received)
    {
      MarkStands(x, received, ack, k);
    }
  }

  lemma TruthfulLast(ack: Ack, accepted: seq<int>)
    requires Truthful(ack, accepted)
    ensures 0 <= ack.last < 0x1_0000 && Received(ack.last, accepted)
    ensures 0 <= ack.id < 0x1_0000 && Received(ack.id, accepted)
  {
  }

  lemma MarkStands(x: Endpoint, received: seq<int>, ack: Ack, k: nat)
    requires Stands(x, received) && Truthful(ack, received)
    requires
      var s := MeantUpdated(x.s, ack.last, ack.bits).0;
      Bit(s.acked.bits, k) && s.lastAcked - 1 - k >= 2
    ensures Received(MeantUpdated(x.s, ack.last, ack.bits).0.lastAcked - 1 - k, received)
  {
    hide Bit, Or, Shl, Selected, Trimmed, GetSequenceGap, Truthful, Received;
    var gap := GetSequenceGap(ack.last, x.s.lastAcked);
    TruthfulLast(ack, received);
    GapLands(ack.last, x.s.lastAcked);
    if gap < 0 {
      BitWith(x.s.acked, -gap, k);
    } else if gap == 0 {
      BitOr(x.s.acked.bits, ack.bits, k);
      if Bit(ack.bits, k) {
        BitStands(ack, received, k);
      }
    } else {
      var overflow := x.s.acked.Overflow(gap);
      if overflow >= 0 {
        TrimmedCount(x.s.acked, Min(overflow, x.s.acked.count), x.s.lastAcked);
      }
      var shifted := Marks(Shl(x.s.acked.bits, gap), 0, 0);
      BitShl(x.s.acked.bits, gap, k);
      BitOr(shifted.bits, ack.bits, k);
      BitWith(shifted.Combined(ack.bits), gap, k);
      if Bit(ack.bits, k) {
        BitStands(ack, received, k);
      }
    }
  }

  /** What is cleared was received. */
  lemma ClearedReceived(x: Endpoint, received: seq<int>, ack: Ack, id: int)
    requires Stands(x, received) && Truthful(ack, received) && id >= 2
    requires Clear(id) in [Clear(ack.id)] + MeantUpdated(x.s, ack.last, ack.bits).1
    ensures id < 0x1_0000 && Received(id, received)
  {
    hide Bit, Or, Shl, Selected, Trimmed, GetSequenceGap, Truthful, Received;
    TruthfulLast(ack, received);
    var gap := GetSequenceGap(ack.last, x.s.lastAcked);
    if id != ack.id && id != ack.last {
      var overflow := x.s.acked.Overflow(gap);
      var n := if overflow < 0 then 0 else Min(overflow, x.s.acked.count);
      TrimmedClears(x.s.acked, n, x.s.lastAcked, id);
      var marks := if overflow < 0 then x.s.acked else Trimmed(x.s.acked, n, x.s.lastAcked).0;
      SelectedClears(marks.Shifted(gap), ack.bits, ack.last, 16, id);
      if Clear(id) in Selected(marks.Shifted(gap), ack.bits, ack.last, 16) {
        BitStands(ack, received, ack.last - id - 1);
      } else {
        assert Bit(x.s.acked.bits, x.s.lastAcked - id - 1);
      }
    }
  }

  ghost predicate Right(x: Endpoint, y: Endpoint, acks: set<Ack>) {
    Honest(x, y, acks) && Kept(x, y) && Stands(x, y.accepted)
  }

  lemma MeantAcknowledge(x: Endpoint, y: Endpoint, toX: set<Ack>, toY: set<Ack>, ack: Ack)
    requires Right(x, y, toX) && Right(y, x, toY) && ack in toX
    ensures Right(MeantAcked(x, ack), y, toX) && Right(y, MeantAcked(x, ack), toY)
  {
    hide Bit, Received, Stands, Truthful, MeantUpdated;
    AckedStands(x, y.accepted, ack);
    MeantUpdatedKeeps(x.s, ack.last, ack.bits);
    var after := MeantAcked(x, ack);
    forall id
      ensures id in after.store.pending ==> id in x.store.pending
      ensures id in x.store.pending && id !in after.store.pending ==> id < 0x1_0000 && Received(id, y.accepted)
    {
      RemovedIff(x.store, [Clear(ack.id)] + MeantUpdated(x.s, ack.last, ack.bits).1, id);
      if id in x.store.pending && id !in after.store.pending {
        ClearedReceived(x, y.accepted, ack, id);
      }
    }
  }

  lemma MeantUpdatedKeeps(s: Sequence, last: int, bits: int)
    ensures
      var next := MeantUpdated(s, last, bits).0;
      next.nextId == s.nextId && next.lastReceived == s.lastReceived && next.received == s.received
  {
    hide Bit, Or, Shl;
  }

  lemma StandsAgain(x: Endpoint, received: seq<int>, more: seq<int>)
    requires Stands(x, received) && received <= more
    ensures Stands(x, more)
  {
    hide Bit, Received;
    MoreReceived(x.s.lastAcked, received, more);
    forall k: nat | Bit(x.s.acked.bits, k) && x.s.lastAcked - 1 - k >= 2
      ensures Received(x.s.lastAcked - 1 - k, more)
    {
      MoreReceived(x.s.lastAcked - 1 - k, received, more);
    }
  }

  lemma MeantSend(x: Endpoint, y: Endpoint, toX: set<Ack>, toY: set<Ack>, payload: Payload)
    requires Right(x, y, toX) && Right(y, x, toY)
    ensures Right(Sent(x, payload), y, toX) && Right(y, Sent(x, payload), toY)
  {
    hide Bit, Received, Honest, Kept;
    SendKeeps(x, y, toX, toY, payload);
  }

  lemma MeantDeliver(x: Endpoint, y: Endpoint, toX: set<Ack>, toY: set<Ack>, id: nat)
    requires Right(x, y, toX) && Right(y, x, toY)
    requires 2 <= id <= x.s.nextId && Recognised(y.newest, y.accepted, id)
    ensures Right(x, Got(y, id).0, toX + {Got(y, id).1}) && Right(Got(y, id).0, x, toY)
  {
    hide Bit, Received, Kept, Handled, Recognised, Remembers;
    DeliverKeeps(x, y, toX, toY, id);
    StandsAgain(x, y.accepted, Got(y, id).0.accepted);
    HandledStep(y.s, y.newest, y.accepted, id);
  }

  ghost predicate AllRight(sys: System) {
    Right(sys.a, sys.b, sys.toA) && Right(sys.b, sys.a, sys.toB)
  }

  lemma MeantStep(sys: System, step: Step)
    requires AllRight(sys) && Possible(sys, step) && TimelyStep(sys, step)
    ensures AllRight(MeantNext(sys, step))
  {
    hide Right, Handled, MeantAcked, Recognised;
    match step
    case Send(A, payload) => MeantSend(sys.a, sys.b, sys.toA, sys.toB, payload);
    case Send(B, payload) => MeantSend(sys.b, sys.a, sys.toB, sys.toA, payload);
    case Deliver(A, id) => MeantDeliver(sys.b, sys.a, sys.toB, sys.toA, id);
    case Deliver(B, id) => MeantDeliver(sys.a, sys.b, sys.toA, sys.toB, id);
    case Acknowledge(A, ack) => MeantAcknowledge(sys.a, sys.b, sys.toA, sys.toB, ack);
    case Acknowledge(B, ack) => MeantAcknowledge(sys.b, sys.a, sys.toB, sys.toA, ack);
  }

  lemma {:induction false} MeantKeeps(steps: seq<Step>)
    requires MeantRun(steps)
    ensures AllRight(MeantAfter(steps))
  {
    hide AllRight, MeantNext, Possible, TimelyStep;
    if |steps| == 0 {
      MeantStart();
    } else {
      MeantKeeps(steps[..|steps| - 1]);
      MeantStep(MeantAfter(steps[..|steps| - 1]), steps[|steps| - 1]);
    }
  }

  lemma MeantStart()
    ensures AllRight(START)
  {
    hide Remembers;
    FreshRemembers();
    forall k: nat
      ensures !Bit(0, k)
    {
      BitOfZero(k);
    }
  }

  /** In every timely run, whatever acknowledgements arrive, how often and when: a message that was sent is still
      pending unless the other end accepted an ID with the same 16 bits, and as long as IDs stay below 65536, that very
      ID. */
  lemma MeantLosesNothing(steps: seq<Step>, side: Side, id: int)
    requires MeantRun(steps)
    requires 2 <= id <= End(MeantAfter(steps), side).s.nextId
    ensures
      var sender, receiver := End(MeantAfter(steps), side), End(MeantAfter(steps), Other(side));
      && (id !in sender.store.pending ==> id < 0x1_0000 && exists u :: u in receiver.accepted && u % 0x1_0000 == id)
      && (id !in sender.store.pending && sender.s.nextId < 0x1_0000 ==> id in receiver.accepted)
  {
    hide Bit, MeantAfter, Truthful, Remembers, Stands;
    MeantKeeps(steps);
  }

  // ---------- any run ----------

  ghost predicate AnyRight(x: Endpoint, y: Endpoint, acks: set<Ack>, arrived: seq<int>) {
    AnyRun.Sound(x, y, acks, arrived) && AnyRun.PendingOrArrived(x, arrived) && Stands(x, arrived)
  }

  lemma AnySend(x: Endpoint, y: Endpoint, toX: set<Ack>, toY: set<Ack>, atX: seq<int>, atY: seq<int>, payload: Payload)
    requires AnyRight(x, y, toX, atY) && AnyRight(y, x, toY, atX)
    ensures AnyRight(Sent(x, payload), y, toX, atY) && AnyRight(y, Sent(x, payload), toY, atX)
  {
    hide Bit, Received, AnyRun.Sound, AnyRun.PendingOrArrived;
    AnyRun.SendSound(x, y, toX, toY, atX, atY, payload);
  }

  lemma AnyDeliver(x: Endpoint, y: Endpoint, toX: set<Ack>, toY: set<Ack>, atX: seq<int>, atY: seq<int>, id: nat)
    requires AnyRight(x, y, toX, atY) && AnyRight(y, x, toY, atX) && 2 <= id <= x.s.nextId
    ensures AnyRight(x, Got(y, id).0, toX + {Got(y, id).1}, atY + [id]) && AnyRight(Got(y, id).0, x, toY, atX)
  {
    hide Bit, Received, Handled, AnyRun.Sound, AnyRun.PendingOrArrived;
    AnyRun.DeliverSound(x, y, toX, toY, atX, atY, id);
    StandsAgain(x, atY, atY + [id]);
    HandledAcked(y.s, id % 0x1_0000);
  }

  lemma HandledAcked(s: Sequence, id: int)
    ensures Handled(s, id).0.lastAcked == s.lastAcked && Handled(s, id).0.acked == s.acked
  {
    hide Bit, Or, Shl;
  }

  lemma AnyAcknowledge(x: Endpoint, y: Endpoint, toX: set<Ack>, toY: set<Ack>, atX: seq<int>, atY: seq<int>, ack: Ack)
    requires AnyRight(x, y, toX, atY) && AnyRight(y, x, toY, atX) && ack in toX
    ensures AnyRight(MeantAcked(x, ack), y, toX, atY) && AnyRight(y, MeantAcked(x, ack), toY, atX)
  {
    hide Bit, Received, Stands, Truthful, MeantUpdated, AnyRun.Wire;
    AckedStands(x, atY, ack);
    MeantUpdatedKeeps(x.s, ack.last, ack.bits);
    var after := MeantAcked(x, ack);
    forall id
      ensures id in after.store.pending ==> id in x.store.pending
      ensures id in x.store.pending && id !in after.store.pending ==> id < 0x1_0000 && Received(id, atY)
    {
      RemovedIff(x.store, [Clear(ack.id)] + MeantUpdated(x.s, ack.last, ack.bits).1, id);
      if id in x.store.pending && id !in after.store.pending {
        ClearedReceived(x, atY, ack, id);
      }
    }
  }

  ghost predicate AllAnyRight(sys: System, atA: seq<int>, atB: seq<int>) {
    AnyRight(sys.a, sys.b, sys.toA, atB) && AnyRight(sys.b, sys.a, sys.toB, atA)
  }

  lemma AnyStep(sys: System, atA: seq<int>, atB: seq<int>, step: Step)
    requires AllAnyRight(sys, atA, atB) && Possible(sys, step)
    ensures AllAnyRight(MeantNext(sys, step), AnyRun.With(atA, A, step), AnyRun.With(atB, B, step))
  {
    hide AnyRight, Handled, MeantAcked;
    assert atA + [] == atA && atB + [] == atB;
    match step
    case Send(A, payload) => AnySend(sys.a, sys.b, sys.toA, sys.toB, atA, atB, payload);
    case Send(B, payload) => AnySend(sys.b, sys.a, sys.toB, sys.toA, atB, atA, payload);
    case Deliver(A, id) => AnyDeliver(sys.b, sys.a, sys.toB, sys.toA, atB, atA, id);
    case Deliver(B, id) => AnyDeliver(sys.a, sys.b, sys.toA, sys.toB, atA, atB, id);
    case Acknowledge(A, ack) => AnyAcknowledge(sys.a, sys.b, sys.toA, sys.toB, atA, atB, ack);
    case Acknowledge(B, ack) => AnyAcknowledge(sys.b, sys.a, sys.toB, sys.toA, atB, atA, ack);
  }

  lemma {:induction false} AnyKeeps(steps: seq<Step>)
    requires PossibleRun(steps)
    ensures AllAnyRight(MeantAfter(steps), AnyRun.Arrived(steps, A), AnyRun.Arrived(steps, B))
  {
    hide AllAnyRight, MeantNext, Possible;
    if |steps| == 0 {
      AnyStart();
    } else {
      var front := steps[..|steps| - 1];
      AnyKeeps(front);
      AnyStep(MeantAfter(front), AnyRun.Arrived(front, A), AnyRun.Arrived(front, B), steps[|steps| - 1]);
    }
  }

  lemma AnyStart()
    ensures AllAnyRight(START, [], [])
  {
    AnyRun.StartSound();
    forall k: nat
      ensures !Bit(0, k)
    {
      BitOfZero(k);
    }
  }

  /** In every run at all: a message that was sent is pending unless one with the same 16 bits arrived, and as long as
      IDs stay below 65536, that very message. */
  lemma MeantKeepsUntilArrived(steps: seq<Step>, side: Side, id: int)
    requires PossibleRun(steps)
    requires 2 <= id <= End(MeantAfter(steps), side).s.nextId && id !in End(MeantAfter(steps), side).store.pending
    ensures
      var arrived := AnyRun.Arrived(steps, Other(side));
      && id < 0x1_0000 && (exists u :: u in arrived && u % 0x1_0000 == id)
      && (End(MeantAfter(steps), side).s.nextId < 0x1_0000 ==> id in arrived)
  {
    hide Bit, MeantAfter, Truthful, Stands, AnyRun.Marked, AnyRun.Arrived;
    AnyKeeps(steps);
  }
}
