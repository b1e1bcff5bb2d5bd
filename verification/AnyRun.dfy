/** The reliable channel in any run at all, also where messages arrive that the receiver does not recognise: what the
    acknowledgements say then, and what can be lost. */
module AnyRun {
  import opened PyInt
  import opened SequenceGap
  import opened Bitfields
  import opened ReliableSequencer
  import opened ReliableChannel

  /** The IDs that arrived at one end, in order, whether or not they were handled. */
  function Arrived(steps: seq<Step>, side: Side): seq<int> {
    if |steps| == 0 then []
    else
      var front, last := steps[..|steps| - 1], steps[|steps| - 1];
      Arrived(front, side) + if last.Deliver? && last.to == side then [last.id] else []
  }

  /** The wire ID a mark stands for. */
  function Wire(last: int, k: nat): int {
    (last - 1 - k) % 0x1_0000
  }

  /** Each mark of the filter stands, modulo 65536, for an ID that arrived. */
  ghost predicate Marked(s: Sequence, arrived: seq<int>) {
    && 0 <= s.lastReceived < 0x1_0000 && Received(s.lastReceived, arrived)
    && forall k: nat :: Bit(s.received.bits, k) ==> Received(Wire(s.lastReceived, k), arrived)
  }

  /** An ID that is taken for an older one than the filter has positions for. */
  predicate Beyond(s: Sequence, id: int) {
    s.received.count < -GetSequenceGap(id, s.lastReceived)
  }

  // ---------- one message ----------

  lemma Arrives(arrived: seq<int>, id: nat)
    ensures Received(id % 0x1_0000, arrived + [id])
  {
    var u := (arrived + [id])[|arrived|];
    assert u in arrived + [id] && u % 0x1_0000 == id % 0x1_0000;
  }

  lemma MarkStays(s: Sequence, arrived: seq<int>, id: nat, k: nat)
    requires Marked(s, arrived) && Bit(s.received.bits, k)
    ensures Received(Wire(s.lastReceived, k), arrived + [id])
  {
    hide Bit, Received;
    MoreReceived(Wire(s.lastReceived, k), arrived, arrived + [id]);
  }

  lemma NewerMark(s: Sequence, arrived: seq<int>, id: nat, gap: nat, k: nat)
    requires Marked(s, arrived) && gap > 0 && (id % 0x1_0000 - s.lastReceived - gap) % 0x1_0000 == 0
    requires Bit(s.received.Shifted(gap).With(gap).bits, k)
    ensures Received(Wire(id % 0x1_0000, k), arrived + [id])
  {
    hide Bit, Or, Shl, Received, Marked;
    var last := s.lastReceived;
    LastStays(s, arrived, id);
    BitWith(s.received.Shifted(gap), gap, k);
    BitShl(s.received.bits, gap, k);
    SameWire(id % 0x1_0000 - 1 - k, last + gap - 1 - k, id % 0x1_0000 - last - gap);
    if k != gap - 1 {
      MarkStays(s, arrived, id, k - gap);
      assert last + gap - 1 - k == last - 1 - (k - gap);
    }
  }

  lemma OlderMark(s: Sequence, arrived: seq<int>, id: nat, back: nat, k: nat)
    requires Marked(s, arrived) && back > 0 && (id % 0x1_0000 - s.lastReceived + back) % 0x1_0000 == 0
    requires Bit(s.received.With(back).bits, k)
    ensures Received(Wire(s.lastReceived, k), arrived + [id])
  {
    hide Bit, Or, Shl, Received, Marked;
    BitWith(s.received, back, k);
    if k == back - 1 {
      Arrives(arrived, id);
      SameWire(id % 0x1_0000, s.lastReceived - back, id % 0x1_0000 - s.lastReceived + back);
    } else {
      MarkStays(s, arrived, id, k);
    }
  }

  /** The marks after one message, whatever its ID is. */
  lemma HandledMarks(s: Sequence, arrived: seq<int>, id: nat, k: nat)
    requires Marked(s, arrived) && Bit(Handled(s, id % 0x1_0000).0.received.bits, k)
    ensures Received(Wire(Handled(s, id % 0x1_0000).0.lastReceived, k), arrived + [id])
  {
    hide Bit, Or, Shl, And, Received, GetSequenceGap, Marked, Wire;
    GapOfLast(s, arrived, id);
    var gap := GetSequenceGap(id % 0x1_0000, s.lastReceived);
    if gap > 0 {
      NewerMark(s, arrived, id, gap, k);
    } else if gap < 0 {
      OlderMark(s, arrived, id, -gap, k);
    } else {
      MarkStays(s, arrived, id, k);
    }
  }

  lemma LastStays(s: Sequence, arrived: seq<int>, id: nat)
    requires Marked(s, arrived)
    ensures 0 <= s.lastReceived < 0x1_0000 && Received(s.lastReceived, arrived + [id])
  {
    hide Bit, Received;
    MoreReceived(s.lastReceived, arrived, arrived + [id]);
  }

  lemma GapOfLast(s: Sequence, arrived: seq<int>, id: nat)
    requires Marked(s, arrived)
    ensures
      var gap := GetSequenceGap(id % 0x1_0000, s.lastReceived);
      && (id % 0x1_0000 - s.lastReceived - gap) % 0x1_0000 == 0
      && (gap == 0 ==> id % 0x1_0000 == s.lastReceived)
  {
    hide Bit, Received;
    GapCongruent(id % 0x1_0000, s.lastReceived);
    var gap := GetSequenceGap(id % 0x1_0000, s.lastReceived);
    SameWire(id % 0x1_0000 - s.lastReceived - gap, 0, gap - (id % 0x1_0000 - s.lastReceived));
  }

  lemma SameWire(a: int, b: int, d: int)
    requires d % 0x1_0000 == 0 && (a - b == d || b - a == d)
    ensures a % 0x1_0000 == b % 0x1_0000
  {
    var q := d / 0x1_0000;
    ModUnique(a, b / 0x1_0000 + if a - b == d then q else -q, b % 0x1_0000, 0x1_0000);
  }

  /** Whatever arrives: each mark stands for an ID that arrived, so the acknowledgement is truthful about what arrived;
      and a message that is not handled is beyond the filter, or one with the same 16 bits arrived before. */
  lemma HandledMarked(s: Sequence, arrived: seq<int>, id: nat)
    requires Marked(s, arrived)
    ensures
      var (next, verdict, ack) := Handled(s, id % 0x1_0000);
      && Marked(next, arrived + [id])
      && Truthful(ack, arrived + [id])
      && (!verdict ==> Beyond(s, id % 0x1_0000) || Received(id % 0x1_0000, arrived))
      && (Beyond(s, id % 0x1_0000) ==> !verdict)
  {
    hide Bit, Or, Shl, And, Received, GetSequenceGap;
    var (next, verdict, ack) := Handled(s, id % 0x1_0000);
    GapOfLast(s, arrived, id);
    LastStays(s, arrived, id);
    Arrives(arrived, id);
    forall k: nat | Bit(next.received.bits, k)
      ensures Received(Wire(next.lastReceived, k), arrived + [id])
    {
      HandledMarks(s, arrived, id, k);
    }
    MarkedTruthful(next, arrived + [id], id);
    var gap := GetSequenceGap(id % 0x1_0000, s.lastReceived);
    if gap > 0 {
      BitShl(s.received.bits, gap, gap - 1);
    } else if gap < 0 {
      SameWire(id % 0x1_0000, s.lastReceived + gap, id % 0x1_0000 - s.lastReceived - gap);
    }
  }

  lemma MarkedTruthful(s: Sequence, arrived: seq<int>, id: nat)
    requires Marked(s, arrived) && Received(id % 0x1_0000, arrived)
    ensures Truthful(Ack(s.lastReceived, s.received.First16(), id % 0x1_0000), arrived)
  {
    hide Bit, And, Received;
    First16Bits(s.received);
    forall k: nat | k < 16 && Bit(s.received.First16(), k)
      ensures Received((s.lastReceived - 1 - k) % 0x1_0000, arrived)
    {
      assert Received(Wire(s.lastReceived, k), arrived);
    }
  }

  // ---------- every step ----------

  /** Messages from `x` to `y`, of which some arrived: the acknowledgements are truthful about those. */
  ghost predicate Sound(x: Endpoint, y: Endpoint, acks: set<Ack>, arrived: seq<int>) {
    && x.s.nextId >= 1
    && Marked(y.s, arrived)
    && (forall u | u in arrived :: 2 <= u <= x.s.nextId)
    && (forall u | u in y.accepted :: u in arrived)
    && (forall ack | ack in acks :: Truthful(ack, arrived))
    && (forall id | id in x.store.pending :: 2 <= id <= x.s.nextId)
  }

  /** What `x` sent is still pending, or it arrived. */
  ghost predicate PendingOrArrived(x: Endpoint, arrived: seq<int>) {
    forall id | 2 <= id <= x.s.nextId :: id in x.store.pending || (id < 0x1_0000 && Received(id, arrived))
  }

  lemma SendSound(x: Endpoint, y: Endpoint, toX: set<Ack>, toY: set<Ack>, atX: seq<int>, atY: seq<int>,
                  payload: Payload)
    requires Sound(x, y, toX, atY) && Sound(y, x, toY, atX)
    ensures Sound(Sent(x, payload), y, toX, atY) && Sound(y, Sent(x, payload), toY, atX)
    ensures PendingOrArrived(x, atY) ==> PendingOrArrived(Sent(x, payload), atY)
  {
    hide Bit, Truthful, Received;
  }

  lemma DeliverSound(x: Endpoint, y: Endpoint, toX: set<Ack>, toY: set<Ack>, atX: seq<int>, atY: seq<int>, id: nat)
    requires Sound(x, y, toX, atY) && Sound(y, x, toY, atX) && 2 <= id <= x.s.nextId
    ensures Sound(x, Got(y, id).0, toX + {Got(y, id).1}, atY + [id]) && Sound(Got(y, id).0, x, toY, atX)
    ensures PendingOrArrived(x, atY) ==> PendingOrArrived(x, atY + [id])
    ensures PendingOrArrived(y, atX) ==> PendingOrArrived(Got(y, id).0, atX)
  {
    hide Bit, Handled, Truthful, Received, Marked;
    HandledMarked(y.s, atY, id);
    HandledKeeps(y.s, id % 0x1_0000);
    forall earlier | earlier in toX
      ensures Truthful(earlier, atY + [id])
    {
      StillTruthful(earlier, atY, atY + [id]);
    }
    forall i | 2 <= i <= x.s.nextId && Received(i, atY)
      ensures Received(i, atY + [id])
    {
      MoreReceived(i, atY, atY + [id]);
    }
  }

  lemma AcknowledgeSound(x: Endpoint, y: Endpoint, toX: set<Ack>, toY: set<Ack>, atX: seq<int>, atY: seq<int>, ack: Ack)
    requires Sound(x, y, toX, atY) && Sound(y, x, toY, atX) && ack in toX
    ensures Sound(Acked(x, ack), y, toX, atY) && Sound(y, Acked(x, ack), toY, atX)
    ensures PendingOrArrived(x, atY) ==> (PendingOrArrived(Acked(x, ack), atY) <==> TrimsReceived(x, atY, ack))
    ensures HarmlessFor(x.s, x.store, ack) ==> TrimsReceived(x, atY, ack)
  {
    hide Bit, Vouched, HarmlessFor, AckedStore, Received, TrimsReceived, Truthful;
    UpdatedKeeps(x.s, ack.last, ack.bits);
    forall id
      ensures id in AckedStore(x.s, x.store, ack).pending ==> id in x.store.pending
    {
      AckedShrinks(x.s, x.store, ack, id);
    }
    RemovedReceivedIff(x, atY, ack);
    HarmlessReceived(x, atY, ack);
  }

  // ---------- every run ----------

  ghost predicate AllSound(sys: System, atA: seq<int>, atB: seq<int>) {
    Sound(sys.a, sys.b, sys.toA, atB) && Sound(sys.b, sys.a, sys.toB, atA)
  }

  ghost predicate AllPendingOrArrived(sys: System, atA: seq<int>, atB: seq<int>) {
    PendingOrArrived(sys.a, atB) && PendingOrArrived(sys.b, atA)
  }

  function With(arrived: seq<int>, side: Side, step: Step): seq<int> {
    arrived + if step.Deliver? && step.to == side then [step.id] else []
  }

  /** The trim loop clears nothing that did not arrive. */
  ghost predicate TrimsArrived(sys: System, atA: seq<int>, atB: seq<int>, step: Step) {
    step.Acknowledge? ==> TrimsReceived(End(sys, step.to), if step.to == A then atB else atA, step.ack)
  }

  lemma StepSound(sys: System, atA: seq<int>, atB: seq<int>, step: Step)
    requires AllSound(sys, atA, atB) && Possible(sys, step)
    ensures AllSound(Next(sys, step), With(atA, A, step), With(atB, B, step))
    ensures AllPendingOrArrived(sys, atA, atB) ==>
              (AllPendingOrArrived(Next(sys, step), With(atA, A, step), With(atB, B, step)) <==>
               TrimsArrived(sys, atA, atB, step))
    ensures HarmlessStep(sys, step) ==> TrimsArrived(sys, atA, atB, step)
  {
    hide Sound, PendingOrArrived, Handled, AckedStore, Updated, HarmlessFor, TrimsReceived;
    assert atA + [] == atA && atB + [] == atB;
    match step
    case Send(A, payload) => SendSound(sys.a, sys.b, sys.toA, sys.toB, atA, atB, payload);
    case Send(B, payload) => SendSound(sys.b, sys.a, sys.toB, sys.toA, atB, atA, payload);
    case Deliver(A, id) => DeliverSound(sys.b, sys.a, sys.toB, sys.toA, atB, atA, id);
    case Deliver(B, id) => DeliverSound(sys.a, sys.b, sys.toA, sys.toB, atA, atB, id);
    case Acknowledge(A, ack) => AcknowledgeSound(sys.a, sys.b, sys.toA, sys.toB, atA, atB, ack);
    case Acknowledge(B, ack) => AcknowledgeSound(sys.b, sys.a, sys.toB, sys.toA, atB, atA, ack);
  }

  /** In every state of the run, what was sent is pending or arrived. */
  ghost predicate AlwaysPendingOrArrived(steps: seq<Step>) {
    && AllPendingOrArrived(After(steps), Arrived(steps, A), Arrived(steps, B))
    && (|steps| > 0 ==> AlwaysPendingOrArrived(steps[..|steps| - 1]))
  }

  ghost predicate TrimsArrivedRun(steps: seq<Step>) {
    |steps| > 0 ==>
      var front := steps[..|steps| - 1];
      TrimsArrivedRun(front) && TrimsArrived(After(front), Arrived(front, A), Arrived(front, B), steps[|steps| - 1])
  }

  lemma {:induction false} RunSound(steps: seq<Step>)
    requires Run(steps)
    ensures AllSound(After(steps), Arrived(steps, A), Arrived(steps, B))
    ensures AlwaysPendingOrArrived(steps) <==> TrimsArrivedRun(steps)
    ensures HarmlessRun(steps) ==> TrimsArrivedRun(steps)
  {
    hide AllSound, AllPendingOrArrived, Next, Possible, HarmlessStep, TrimsArrived;
    if |steps| == 0 {
      StartSound();
    } else {
      var front := steps[..|steps| - 1];
      RunSound(front);
      StepSound(After(front), Arrived(front, A), Arrived(front, B), steps[|steps| - 1]);
    }
  }

  lemma StartSound()
    ensures AllSound(START, [], []) && AllPendingOrArrived(START, [], [])
  {
    forall k: nat
      ensures !Bit(0, k)
    {
      BitOfZero(k);
    }
  }

  // ---------- the main results ----------

  /** In every run, whatever order and however late: what arrived was sent, what was accepted arrived, and each
      acknowledgement ever sent is truthful about what arrived. */
  lemma AcksSpeakOfArrivals(steps: seq<Step>, side: Side)
    requires Run(steps)
    ensures
      var sender, receiver := End(After(steps), side), End(After(steps), Other(side));
      var arrived := Arrived(steps, Other(side));
      && (forall u | u in arrived :: 2 <= u <= sender.s.nextId)
      && (forall u | u in receiver.accepted :: u in arrived)
      && (forall ack | ack in AcksTo(After(steps), side) :: Truthful(ack, arrived))
  {
    hide Bit, After, Truthful, Marked;
    RunSound(steps);
  }

  /** In every run, each ID sent is pending or arrived in all its states exactly when the trim loop never clears a
      pending message that did not arrive; so it is if the acknowledgements are harmless. */
  lemma KeptUntilArrivedIff(steps: seq<Step>)
    requires Run(steps)
    ensures AlwaysPendingOrArrived(steps) <==> TrimsArrivedRun(steps)
    ensures HarmlessRun(steps) ==> AlwaysPendingOrArrived(steps)
  {
    RunSound(steps);
  }

  /** No message arrives too far ahead to be handled, unless one with the same 16 bits was accepted before. */
  ghost predicate WithinReach(sys: System, step: Step) {
    step.Deliver? ==>
      var y := End(sys, step.to);
      Beyond(y.s, step.id % 0x1_0000) ==> Received(step.id % 0x1_0000, y.accepted)
  }

  ghost predicate ReachRun(steps: seq<Step>) {
    |steps| > 0 ==>
      ReachRun(steps[..|steps| - 1]) && WithinReach(After(steps[..|steps| - 1]), steps[|steps| - 1])
  }

  /** Of every ID that arrived, one with the same 16 bits was accepted. */
  ghost predicate Covered(arrived: seq<int>, accepted: seq<int>) {
    forall u | u in arrived :: Received(u % 0x1_0000, accepted)
  }

  ghost predicate AlwaysCovered(steps: seq<Step>) {
    && Covered(Arrived(steps, A), End(After(steps), A).accepted)
    && Covered(Arrived(steps, B), End(After(steps), B).accepted)
    && (|steps| > 0 ==> AlwaysCovered(steps[..|steps| - 1]))
  }

  lemma ReceivedCovered(wire: int, arrived: seq<int>, accepted: seq<int>)
    requires Received(wire, arrived) && Covered(arrived, accepted)
    ensures Received(wire, accepted)
  {
    if wire != 0 {
      var u :| u in arrived && u % 0x1_0000 == wire;
    }
  }

  lemma DeliverCovers(x: Endpoint, y: Endpoint, toX: set<Ack>, arrived: seq<int>, id: nat)
    requires Sound(x, y, toX, arrived) && Covered(arrived, y.accepted)
    ensures Covered(arrived + [id], Got(y, id).0.accepted) <==>
            (Beyond(y.s, id % 0x1_0000) ==> Received(id % 0x1_0000, y.accepted))
  {
    hide Bit, Handled, Beyond, Received, Truthful, Marked;
    var (s, verdict, _) := Handled(y.s, id % 0x1_0000);
    HandledMarked(y.s, arrived, id);
    var accepted := Got(y, id).0.accepted;
    Arrives(y.accepted, id);
    forall u | u in arrived
      ensures Received(u % 0x1_0000, accepted)
    {
      MoreReceived(u % 0x1_0000, y.accepted, accepted);
    }
    assert id in arrived + [id];
    if !verdict && Received(id % 0x1_0000, arrived) {
      ReceivedCovered(id % 0x1_0000, arrived, y.accepted);
    }
  }

  /** All that arrived was accepted, as far as 16 bits tell, in every state of a run exactly when nothing new ever
      arrived out of the filter's reach. */
  lemma {:induction false} AcceptedIff(steps: seq<Step>)
    requires Run(steps)
    ensures AlwaysCovered(steps) <==> ReachRun(steps)
  {
    hide Sound, Covered, Got, WithinReach, Updated, AckedStore;
    if |steps| == 0 {
      NothingCovered();
    } else {
      var front, step := steps[..|steps| - 1], steps[|steps| - 1];
      AcceptedIff(front);
      RunSound(front);
      if AlwaysCovered(front) {
        CoveredStep(After(front), Arrived(front, A), Arrived(front, B), step);
      }
    }
  }

  /** A message that is recognised is within reach, and so is every timely run. */
  lemma RecognisedInReach(s: Sequence, newest: nat, accepted: seq<int>, id: nat)
    requires Remembers(s, newest, accepted) && Recognised(newest, accepted, id) && id >= 1
    ensures !Beyond(s, id % 0x1_0000)
  {
    hide Bit, GetSequenceGap;
    GapOfWire(id, newest);
  }

  lemma {:induction false} TimelyInReach(steps: seq<Step>)
    requires TimelyRun(steps)
    ensures ReachRun(steps)
  {
    hide Bit, Next, Recognised, Remembers, Beyond, Received, Truthful;
    if |steps| > 0 {
      var front, step := steps[..|steps| - 1], steps[|steps| - 1];
      TimelyInReach(front);
      RunKeeps(front);
      if step.Deliver? {
        var y := End(After(front), step.to);
        RecognisedInReach(y.s, y.newest, y.accepted, step.id);
      }
    }
  }

  lemma NothingCovered()
    ensures Covered([], [])
  {
  }

  lemma CoveredStep(sys: System, atA: seq<int>, atB: seq<int>, step: Step)
    requires AllSound(sys, atA, atB) && Covered(atA, sys.a.accepted) && Covered(atB, sys.b.accepted)
    ensures WithinReach(sys, step) <==>
            && Covered(With(atA, A, step), Next(sys, step).a.accepted)
            && Covered(With(atB, B, step), Next(sys, step).b.accepted)
  {
    hide Sound, Covered, Got, Updated, AckedStore, Beyond, Received;
    assert atA + [] == atA && atB + [] == atB;
    if step.Deliver? {
      if step.to == A {
        DeliverCovers(sys.b, sys.a, sys.toB, atA, step.id);
      } else {
        DeliverCovers(sys.a, sys.b, sys.toA, atB, step.id);
      }
    }
  }

  /** In every run of harmless acknowledgements, at both ends: a message that was sent is pending unless one with the
      same 16 bits arrived, and was accepted if nothing new arrived out of reach. As long as IDs stay below 65536, it is
      that very message. */
  lemma NothingIsLostInReach(steps: seq<Step>, side: Side, id: int)
    requires HarmlessRun(steps)
    requires 2 <= id <= End(After(steps), side).s.nextId && id !in End(After(steps), side).store.pending
    ensures
      var arrived, accepted := Arrived(steps, Other(side)), End(After(steps), Other(side)).accepted;
      && id < 0x1_0000
      && (exists u :: u in arrived && u % 0x1_0000 == id)
      && (ReachRun(steps) ==> exists u :: u in accepted && u % 0x1_0000 == id)
      && (End(After(steps), side).s.nextId < 0x1_0000 ==> id in arrived && (ReachRun(steps) ==> id in accepted))
  {
    hide Bit, After, Truthful, Marked, ReachRun, HarmlessRun, Arrived, Covered, Received, Sound;
    hide AlwaysPendingOrArrived, AllSound;
    HarmlessRunRuns(steps);
    RunSound(steps);
    AcceptedIff(steps);
    var arrived, accepted := Arrived(steps, Other(side)), End(After(steps), Other(side)).accepted;
    GoneArrived(steps, side, id);
    ReceivedOne(id, arrived);
    SentBelow(steps, side);
    if ReachRun(steps) {
      NowCovered(steps, Other(side));
      ReceivedCovered(id, arrived, accepted);
      ReceivedOne(id, accepted);
    }
  }

  lemma ReceivedOne(id: int, received: seq<int>)
    requires Received(id, received) && id >= 2
    ensures exists u :: u in received && u % 0x1_0000 == id
  {
  }

  lemma NowCovered(steps: seq<Step>, side: Side)
    requires AlwaysCovered(steps)
    ensures Covered(Arrived(steps, side), End(After(steps), side).accepted)
  {
  }

  lemma GoneArrived(steps: seq<Step>, side: Side, id: int)
    requires AlwaysPendingOrArrived(steps)
    requires 2 <= id <= End(After(steps), side).s.nextId && id !in End(After(steps), side).store.pending
    ensures id < 0x1_0000 && Received(id, Arrived(steps, Other(side)))
  {
    hide After, Arrived, Received;
  }

  lemma SentBelow(steps: seq<Step>, side: Side)
    requires AllSound(After(steps), Arrived(steps, A), Arrived(steps, B))
    ensures forall u | u in Arrived(steps, Other(side)) :: 2 <= u <= End(After(steps), side).s.nextId
    ensures forall u | u in End(After(steps), Other(side)).accepted :: u in Arrived(steps, Other(side))
  {
    hide After, Arrived, Received, Marked, Truthful;
  }
}
