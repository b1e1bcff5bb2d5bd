/** Two connected endpoints and a network that may lose, repeat and reorder both messages and acknowledgements.

    IDs are unwrapped integers here; what travels is the ID modulo 65536. The network never forgets: a message that
    was sent may arrive any number of times or not at all, however late, and so may an acknowledgement. Sending a
    pending message again is therefore part of the network's freedom. What the receiver makes of a message that is too
    far from the newest one is a matter of `Recognised`. */
module ReliableChannel {
  import opened PyInt
  import opened BitBuffer
  import opened SequenceGap
  import opened Bitfields
  import opened ReliableSequencer
  import opened DistinctIds

  // ---------- the duplicate filter ----------

  /** The sequencer's ID and bitfield say which of all the IDs up to `newest` were accepted. ID 0 counts as seen. */
  ghost predicate Remembers(s: Sequence, newest: nat, accepted: seq<int>) {
    && s.lastReceived == newest % 0x1_0000
    && s.received.count == newest
    && (forall k: nat :: Bit(s.received.bits, k) == (k < newest && (newest - 1 - k == 0 || newest - 1 - k in accepted)))
    && (newest > 0 ==> newest in accepted)
    && (forall u | u in accepted :: 1 <= u <= newest)
    && Distinct(accepted)
  }

  function Newer(newest: nat, id: nat): nat {
    if id > newest then id else newest
  }

  /** The ID on the wire is told apart from the newest one: the gap is the true difference (which it is whenever
      that is below half the range); or else the message is too old, but both its ID and the one it is mistaken for
      were accepted, so that there is nothing to get wrong. */
  predicate Recognised(newest: nat, accepted: seq<int>, id: nat) {
    var gap := GetSequenceGap(id, newest);
    gap == id - newest || (id - newest < gap <= 0 && id in accepted && newest + gap in accepted)
  }

  /** The message is handled exactly when its ID was never accepted before, and the memory stays exact. */
  ghost predicate HandlesRight(s: Sequence, newest: nat, accepted: seq<int>, id: nat) {
    var (next, verdict, _) := Handled(s, id % 0x1_0000);
    && (verdict <==> id !in accepted)
    && Remembers(next, Newer(newest, id), if verdict then accepted + [id] else accepted)
  }

  /** An exact filter does right by a message, and stays exact, exactly when it recognises the ID. */
  lemma HandledRightIff(s: Sequence, newest: nat, accepted: seq<int>, id: nat)
    requires Remembers(s, newest, accepted) && id >= 1
    ensures HandlesRight(s, newest, accepted, id) <==> Recognised(newest, accepted, id)
  {
    hide Bit, Or, Shl, And, GetSequenceGap;
    GapOfWire(id, newest);
    GapCongruent(id, newest);
    var gap := GetSequenceGap(id, newest);
    if gap == id - newest {
      HandledRight(s, newest, accepted, id);
    } else if gap < 0 && id < newest {
      MistakenOlder(s, newest, accepted, id);
    }
  }

  lemma HandledRight(s: Sequence, newest: nat, accepted: seq<int>, id: nat)
    requires Remembers(s, newest, accepted) && id >= 1 && GetSequenceGap(id, newest) == id - newest
    ensures HandlesRight(s, newest, accepted, id)
  {
    hide Bit, Or, Shl, And, GetSequenceGap;
    GapOfWire(id, newest);
    if id > newest {
      HandledNewer(s, newest, accepted, id);
    } else if id < newest {
      HandledOlder(s, newest, accepted, id);
    }
  }

  /** A message so old that its wire ID stands for a later one. */
  lemma MistakenOlder(s: Sequence, newest: nat, accepted: seq<int>, id: nat)
    requires Remembers(s, newest, accepted) && 1 <= id < newest && id - newest != GetSequenceGap(id, newest) < 0
    ensures HandlesRight(s, newest, accepted, id) <==> Recognised(newest, accepted, id)
  {
    hide Bit, Or, Shl, And, GetSequenceGap;
    GapOfWire(id, newest);
    GapCongruent(id, newest);
    var gap := GetSequenceGap(id, newest);
    var taken := newest + gap;
    assert id < taken < newest;
    HandledOlder(s, newest, accepted, taken);
    var next := Handled(s, id % 0x1_0000).0;
    BitWith(s.received, -gap, -gap - 1);
    assert Bit(next.received.bits, -gap - 1);
    if taken !in accepted {
      assert newest - 1 - (-gap - 1) == taken;
      assert taken !in accepted + [id];
    }
  }

  /** One message: it is handled exactly when its ID was never accepted before, the memory stays exact, and the
      acknowledgement carries it. */
  lemma HandledStep(s: Sequence, newest: nat, accepted: seq<int>, id: nat)
    requires Remembers(s, newest, accepted) && id >= 1 && Recognised(newest, accepted, id)
    ensures
      var (next, verdict, ack) := Handled(s, id % 0x1_0000);
      && (verdict <==> id !in accepted)
      && Remembers(next, Newer(newest, id), if verdict then accepted + [id] else accepted)
      && next.(lastReceived := s.lastReceived, received := s.received) == s
      && ack == Ack(next.lastReceived, next.received.First16(), id % 0x1_0000)
  {
    hide Bit, Or, Shl, And, Recognised, GetSequenceGap;
    HandledRightIff(s, newest, accepted, id);
  }

  /** A message that was accepted long ago, and more than half the range, is handled a second time. */
  lemma DuplicateAgain(s: Sequence, newest: nat, accepted: seq<int>, id: nat)
    requires Remembers(s, newest, accepted) && id in accepted && 32768 < newest - id < 0x1_0000
    ensures Handled(s, id % 0x1_0000).1
  {
    hide Bit, Or, Shl, And;
    GapOfWire(id, newest);
    var gap := GetSequenceGap(id, newest);
    BitShl(s.received.bits, gap, gap - 1);
  }

  lemma HandledNewer(s: Sequence, newest: nat, accepted: seq<int>, id: nat)
    requires Remembers(s, newest, accepted) && id > newest
    ensures
      var received := s.received.Shifted(id - newest).With(id - newest);
      && !s.received.Shifted(id - newest).IsSet(id - newest)
      && Remembers(s.(lastReceived := id % 0x1_0000, received := received), id, accepted + [id])
  {
    hide Bit, Or, Shl;
    var gap := id - newest;
    var shifted := s.received.Shifted(gap);
    var received := shifted.With(gap);
    BitShl(s.received.bits, gap, gap - 1);
    forall k: nat
      ensures Bit(received.bits, k) == (k < id && (id - 1 - k == 0 || id - 1 - k in accepted + [id]))
    {
      BitWith(shifted, gap, k);
      BitShl(s.received.bits, gap, k);
      assert id - 1 - k != id;
      if k >= gap {
        assert newest - 1 - (k - gap) == id - 1 - k;
      }
    }
    DistinctAppend(accepted, id);
  }

  lemma HandledOlder(s: Sequence, newest: nat, accepted: seq<int>, id: nat)
    requires Remembers(s, newest, accepted) && 1 <= id < newest
    ensures s.received.IsSet(newest - id) == (id in accepted)
    ensures Remembers(s.(received := s.received.With(newest - id)), newest,
                      if id in accepted then accepted else accepted + [id])
  {
    hide Bit, Or, Shl;
    var k := newest - id;
    assert Bit(s.received.bits, k - 1) == (id in accepted);
    var after := if id in accepted then accepted else accepted + [id];
    forall j: nat
      ensures Bit(s.received.With(k).bits, j) == (j < newest && (newest - 1 - j == 0 || newest - 1 - j in after))
    {
      BitWith(s.received, k, j);
    }
  }

  /** A message too far ahead is taken for an old one, and discarded; and its acknowledgement clears it all the same
      (see `AheadIsLost`). */
  lemma AheadIsDiscarded(s: Sequence, newest: nat, accepted: seq<int>, id: nat)
    requires Remembers(s, newest, accepted) && 32768 < id - newest && id < 0x1_0000
    ensures !Handled(s, id).1
  {
    hide Bit, Or, Shl, And;
    GapOfWire(id, newest);
  }

  /** The filter on a whole run of IDs. */
  function Filtered(ids: seq<nat>): (Sequence, seq<bool>) {
    if |ids| == 0 then (FRESH, [])
    else
      var front := Filtered(ids[..|ids| - 1]);
      var (s, verdict, _) := Handled(front.0, ids[|ids| - 1] % 0x1_0000);
      (s, front.1 + [verdict])
  }

  function NewestOf(ids: seq<nat>): nat {
    if |ids| == 0 then 0 else Newer(NewestOf(ids[..|ids| - 1]), ids[|ids| - 1])
  }

  predicate FirstAt(ids: seq<nat>, i: nat)
    requires i < |ids|
  {
    ids[i] !in ids[..i]
  }

  /** Exactly the IDs that occur for the first time are marked. */
  predicate MarksFirst(ids: seq<nat>, verdicts: seq<bool>) {
    |verdicts| == |ids| && forall i | 0 <= i < |ids| :: verdicts[i] <==> FirstAt(ids, i)
  }

  lemma MarksFirstAppend(ids: seq<nat>, verdicts: seq<bool>, id: nat, verdict: bool)
    requires |verdicts| == |ids|
    ensures MarksFirst(ids + [id], verdicts + [verdict]) <==> MarksFirst(ids, verdicts) && (verdict <==> id !in ids)
  {
    var more, marks := ids + [id], verdicts + [verdict];
    forall i | 0 <= i < |ids|
      ensures FirstAt(more, i) == FirstAt(ids, i) && marks[i] == verdicts[i]
    {
      assert more[..i] == ids[..i];
    }
    assert more[..|ids|] == ids;
    assert marks[|ids|] == verdict && (FirstAt(more, |ids|) <==> id !in ids);
  }

  /** The IDs of a run in the order in which they occurred first. */
  function FirstOnes(ids: seq<nat>): (r: seq<int>)
    ensures forall id: int :: id in r <==> id in ids
  {
    if |ids| == 0 then []
    else
      var front, last := ids[..|ids| - 1], ids[|ids| - 1];
      assert ids == front + [last];
      if last in front then FirstOnes(front) else FirstOnes(front) + [last]
  }

  /** All along the run, exactly the IDs that did not occur before are handled, and the filter is a memory of them. */
  ghost predicate IsASet(ids: seq<nat>) {
    && MarksFirst(ids, Filtered(ids).1)
    && Remembers(Filtered(ids).0, NewestOf(ids), FirstOnes(ids))
    && (|ids| > 0 ==> IsASet(ids[..|ids| - 1]))
  }

  predicate AllRecognised(ids: seq<nat>) {
    |ids| > 0 ==>
      var front := ids[..|ids| - 1];
      AllRecognised(front) && Recognised(NewestOf(front), FirstOnes(front), ids[|ids| - 1])
  }

  /** Every ID is less than half the range away from the newest before it. */
  predicate InWindow(ids: seq<nat>) {
    |ids| > 0 ==> InWindow(ids[..|ids| - 1]) && -32768 < ids[|ids| - 1] - NewestOf(ids[..|ids| - 1]) < 32768
  }

  lemma {:induction false} WindowRecognised(ids: seq<nat>)
    requires InWindow(ids)
    ensures AllRecognised(ids)
  {
    hide GetSequenceGap;
    if |ids| > 0 {
      WindowRecognised(ids[..|ids| - 1]);
      GapExact(ids[|ids| - 1], NewestOf(ids[..|ids| - 1]));
    }
  }

  /** Over any run, however often the IDs wrapped around, the filter is the set of the IDs seen exactly when each ID
      is recognised when it arrives; in particular when each is less than half the range away from the newest. */
  lemma {:induction false} FilterIsASet(ids: seq<nat>)
    requires forall i | 0 <= i < |ids| :: ids[i] >= 1
    ensures IsASet(ids) <==> AllRecognised(ids)
    ensures InWindow(ids) ==> IsASet(ids)
  {
    hide Bit, Handled, Remembers, Filtered, NewestOf, InWindow, FirstAt, MarksFirst, Recognised, FirstOnes;
    FilteredLast(ids);
    if |ids| == 0 {
      FreshRemembers();
      EmptyMarks();
    } else {
      var front, last := ids[..|ids| - 1], ids[|ids| - 1];
      assert ids == front + [last];
      FilterIsASet(front);
      if IsASet(front) {
        HandledRightIff(Filtered(front).0, NewestOf(front), FirstOnes(front), last);
        MarksFirstAppend(front, Filtered(front).1, last, Filtered(ids).1[|front|]);
      }
    }
    if InWindow(ids) {
      WindowRecognised(ids);
    }
  }

  lemma {:induction false} FilteredLast(ids: seq<nat>)
    ensures |Filtered(ids).1| == |ids|
    ensures |ids| == 0 ==> Filtered(ids) == (FRESH, []) && NewestOf(ids) == 0 && FirstOnes(ids) == []
    ensures |ids| > 0 ==>
      var front, last := ids[..|ids| - 1], ids[|ids| - 1];
      var (s, verdict, _) := Handled(Filtered(front).0, last % 0x1_0000);
      && Filtered(ids) == (s, Filtered(front).1 + [verdict])
      && |Filtered(front).1| == |front|
      && NewestOf(ids) == Newer(NewestOf(front), last)
      && FirstOnes(ids) == (if last in FirstOnes(front) then FirstOnes(front) else FirstOnes(front) + [last])
  {
    hide Handled;
    if |ids| > 0 {
      FilteredLast(ids[..|ids| - 1]);
    }
  }

  lemma EmptyMarks()
    ensures MarksFirst([], [])
  {
  }

  lemma FreshRemembers()
    ensures Remembers(FRESH, 0, [])
  {
    forall k: nat
      ensures !Bit(0, k)
    {
      BitOfZero(k);
    }
  }

  // ---------- what an acknowledgement removes ----------

  /** The IDs an acknowledgement speaks for. */
  ghost predicate Vouched(ack: Ack, id: int) {
    || id == ack.last
    || id == ack.id
    || (1 <= ack.last - id <= 16 && Bit(ack.bits, ack.last - id - 1))
  }

  /** The positions whose marks the trim loop would look at. */
  predicate TrimmedAt(s: Sequence, ack: Ack, p: int) {
    var gap := GetSequenceGap(ack.last, s.lastReceived);
    gap > 0 && 1 <= p <= s.acked.count && s.acked.count - s.acked.Overflow(gap) < p
  }

  /** The trim loop would clear the pending message at a position. */
  predicate Trims(s: Sequence, store: Store, ack: Ack, p: nat) {
    p >= 1 && Bit(s.acked.bits, p - 1) && TrimmedAt(s, ack, p) && s.lastReceived - p in store.pending
  }

  /** Every pending message that the trim loop would find marked is one that the acknowledgement speaks for anyway:
      something the endpoint can tell before it handles the acknowledgement. */
  ghost predicate HarmlessFor(s: Sequence, store: Store, ack: Ack) {
    forall p: nat :: Trims(s, store, ack, p) ==> Vouched(ack, s.lastReceived - p)
  }

  /** `handleAck` on the state and the pending messages. */
  function AckedStore(s: Sequence, store: Store, ack: Ack): Store {
    store.AfterAll([Clear(ack.id)] + Updated(s, ack.last, ack.bits).1)
  }

  ghost predicate ClearsOnlyVouched(s: Sequence, store: Store, ack: Ack) {
    forall id | id in store.pending && id !in AckedStore(s, store, ack).pending :: Vouched(ack, id)
  }

  lemma {:induction false} TrimmedClears(acked: Marks, n: nat, base: int, id: int)
    ensures Clear(id) in Trimmed(acked, n, base).1 <==>
            1 <= base - id <= acked.count && acked.count - n < base - id && Bit(acked.bits, base - id - 1)
    ensures Resend(id) in Trimmed(acked, n, base).1 <==>
            1 <= base - id <= acked.count && acked.count - n < base - id && !Bit(acked.bits, base - id - 1)
    decreases n
  {
    hide Bit;
    if n > 0 && acked.count >= 1 {
      TrimmedClears(acked.(count := acked.count - 1), n - 1, base, id);
    }
  }

  lemma {:induction false} SelectedClears(acked: Marks, bits: int, last: int, n: nat, id: int)
    ensures Clear(id) in Selected(acked, bits, last, n) <==>
            1 <= last - id <= n && Bit(bits, last - id - 1) && !acked.IsSet(last - id)
    ensures Resend(id) !in Selected(acked, bits, last, n)
    decreases n
  {
    hide Bit;
    if n > 0 {
      SelectedClears(acked, bits, last, n - 1, id);
    }
  }

  lemma {:induction false} RemovedIff(store: Store, requests: seq<Request>, id: int)
    ensures id in store.AfterAll(requests).pending <==> id in store.pending && Clear(id) !in requests
    ensures id in store.AfterAll(requests).pending ==> store.AfterAll(requests).pending[id] == store.pending[id]
  {
    if |requests| > 0 {
      RemovedIff(store, requests[..|requests| - 1], id);
    }
  }

  /** The marks the loop over the 16 bits looks at: the old ones, less those trimmed, shifted by the gap. */
  function ShiftedMarks(s: Sequence, ack: Ack): Marks
    requires GetSequenceGap(ack.last, s.lastReceived) > 0
  {
    var gap := GetSequenceGap(ack.last, s.lastReceived);
    var overflow := s.acked.Overflow(gap);
    var trimmed := if overflow > 0 then Min(overflow, s.acked.count) else 0;
    s.acked.(count := s.acked.count - trimmed).Shifted(gap)
  }

  /** The IDs that an acknowledgement removes besides the one it answers. */
  ghost predicate Removes(s: Sequence, ack: Ack, id: int) {
    var gap := GetSequenceGap(ack.last, s.lastReceived);
    && gap > 0
    && ( || (TrimmedAt(s, ack, s.lastReceived - id) && Bit(s.acked.bits, s.lastReceived - id - 1))
         || (gap <= s.acked.capacity && id == ack.last)
         || (gap <= s.acked.capacity && 1 <= ack.last - id <= 16 && Bit(ack.bits, ack.last - id - 1)
             && !ShiftedMarks(s, ack).IsSet(ack.last - id)))
  }

  /** Exactly what the bookkeeping asks to clear, and exactly what it asks to send again. */
  lemma UpdatedClears(s: Sequence, ack: Ack, id: int)
    ensures Clear(id) in Updated(s, ack.last, ack.bits).1 <==> Removes(s, ack, id)
    ensures Resend(id) in Updated(s, ack.last, ack.bits).1 <==>
            TrimmedAt(s, ack, s.lastReceived - id) && !Bit(s.acked.bits, s.lastReceived - id - 1)
  {
    hide Bit, Trimmed, Selected, Or, Shl, GetSequenceGap;
    RaisesIff(s, ack.last, ack.bits);
    var gap := GetSequenceGap(ack.last, s.lastReceived);
    if gap > 0 {
      SelectedClears(ShiftedMarks(s, ack), ack.bits, ack.last, 16, id);
      var overflow := s.acked.Overflow(gap);
      if overflow >= 0 {
        TrimmedClears(s.acked, overflow, s.lastReceived, id);
        TrimmedCount(s.acked, overflow, s.lastReceived);
      }
    }
  }

  /** An acknowledgement removes the message it answers and those, and no others; the others stay as they are. */
  lemma AckRemovesExactly(s: Sequence, store: Store, ack: Ack, id: int)
    ensures id in AckedStore(s, store, ack).pending <==> id in store.pending && id != ack.id && !Removes(s, ack, id)
    ensures id in AckedStore(s, store, ack).pending ==> AckedStore(s, store, ack).pending[id] == store.pending[id]
  {
    hide Updated, Removes;
    RemovedIff(store, [Clear(ack.id)] + Updated(s, ack.last, ack.bits).1, id);
    UpdatedClears(s, ack, id);
  }

  /** The state after any acknowledgement, mark by mark. One that goes forward moves the old marks by the gap, adds
      those it brings and the one for what was the latest ID, and keeps the count within the capacity; one that stays
      adds those it brings; one that goes back marks its own ID. Only the first kind asks for anything. */
  lemma UpdatedMarks(s: Sequence, ack: Ack, k: nat)
    ensures
      var (next, requests, raised) := Updated(s, ack.last, ack.bits);
      var gap := GetSequenceGap(ack.last, s.lastReceived);
      var held := s.acked.count + gap;
      && (gap > 0 && !raised ==>
            && (Bit(next.acked.bits, k) <==>
                (k >= gap && Bit(s.acked.bits, k - gap)) || Bit(ack.bits, k) || k == gap - 1)
            && next.acked.count == next.acked.capacity == (if held > s.acked.capacity then s.acked.capacity else held)
            && next == s.(lastAcked := ack.last, acked := next.acked))
      && (raised ==> next == s.(acked := s.acked.(count := 0)))
      && (gap == 0 ==> (Bit(next.acked.bits, k) <==> Bit(s.acked.bits, k) || Bit(ack.bits, k)))
      && (gap < 0 ==> (Bit(next.acked.bits, k) <==> Bit(s.acked.bits, k) || k == -gap - 1))
      && (gap <= 0 ==> requests == [] && !raised && next == s.(acked := s.acked.(bits := next.acked.bits)))
  {
    hide Bit, Trimmed, Selected, Or, Shl, GetSequenceGap;
    var gap := GetSequenceGap(ack.last, s.lastReceived);
    if gap > 0 {
      var overflow := s.acked.Overflow(gap);
      if overflow >= 0 {
        TrimmedCount(s.acked, overflow, s.lastReceived);
      }
      var shifted := ShiftedMarks(s, ack);
      BitShl(s.acked.bits, gap, k);
      BitOr(shifted.bits, ack.bits, k);
      BitWith(shifted.Combined(ack.bits), gap, k);
    } else if gap == 0 {
      BitOr(s.acked.bits, ack.bits, k);
    } else {
      BitWith(s.acked, -gap, k);
    }
  }

  /** Handling an acknowledgement removes only messages it speaks for exactly when the trim loop is harmless for
      what is pending. */
  lemma AckSafeIff(s: Sequence, store: Store, ack: Ack)
    ensures HarmlessFor(s, store, ack) <==> ClearsOnlyVouched(s, store, ack)
  {
    hide Bit, Updated, TrimmedAt, AckedStore, Vouched;
    if HarmlessFor(s, store, ack) {
      forall id | id in store.pending && id !in AckedStore(s, store, ack).pending
        ensures Vouched(ack, id)
      {
        VouchedOrTrimmed(s, store, ack, id);
        if TrimmedAt(s, ack, s.lastReceived - id) {
          TrimmedPositive(s, ack, s.lastReceived - id);
          assert Trims(s, store, ack, s.lastReceived - id) ==> Vouched(ack, s.lastReceived - (s.lastReceived - id));
        }
      }
    } else {
      var p: nat :| Trims(s, store, ack, p) && !Vouched(ack, s.lastReceived - p);
      TrimmedIsRemoved(s, store, ack, p);
    }
  }

  lemma VouchedOrTrimmed(s: Sequence, store: Store, ack: Ack, id: int)
    requires id in store.pending && id !in AckedStore(s, store, ack).pending
    ensures Vouched(ack, id) || (TrimmedAt(s, ack, s.lastReceived - id) && Bit(s.acked.bits, s.lastReceived - id - 1))
  {
    hide Bit, Updated, TrimmedAt;
    AckRemovesExactly(s, store, ack, id);
  }

  lemma TrimmedIsRemoved(s: Sequence, store: Store, ack: Ack, p: nat)
    requires p >= 1 && Bit(s.acked.bits, p - 1) && TrimmedAt(s, ack, p)
    ensures s.lastReceived - p !in AckedStore(s, store, ack).pending
  {
    hide Bit, Updated, TrimmedAt;
    TrimmedPositive(s, ack, p);
    AckRemovesExactly(s, store, ack, s.lastReceived - p);
  }

  lemma TrimmedPositive(s: Sequence, ack: Ack, p: int)
    requires TrimmedAt(s, ack, p)
    ensures p >= 1 && GetSequenceGap(ack.last, s.lastReceived) > 0
  {
  }

  // ---------- the system ----------

  datatype Side = A | B

  function Other(side: Side): Side {
    if side == A then B else A
  }

  /** A sequencer with its pending messages, the unwrapped newest ID it received, and the IDs it handled, in order. */
  datatype Endpoint = Endpoint(s: Sequence, store: Store, newest: nat, accepted: seq<int>)

  datatype System = System(a: Endpoint, b: Endpoint, toA: set<Ack>, toB: set<Ack>)

  datatype Step = Send(side: Side, payload: Payload) | Deliver(to: Side, id: nat) | Acknowledge(to: Side, ack: Ack)

  const START := System(Endpoint(FRESH, Store(map[], [], []), 0, []), Endpoint(FRESH, Store(map[], [], []), 0, []),
      {}, {})

  function End(sys: System, side: Side): Endpoint {
    if side == A then sys.a else sys.b
  }

  function AcksTo(sys: System, side: Side): set<Ack> {
    if side == A then sys.toA else sys.toB
  }

  function WithEnd(sys: System, side: Side, e: Endpoint): System {
    if side == A then sys.(a := e) else sys.(b := e)
  }

  function WithAck(sys: System, side: Side, ack: Ack): System {
    if side == A then sys.(toA := sys.toA + {ack}) else sys.(toB := sys.toB + {ack})
  }

  /** Only messages and acknowledgements that were sent can arrive. */
  predicate Possible(sys: System, step: Step) {
    match step
    case Send(_, _) => true
    case Deliver(to, id) => 2 <= id <= End(sys, Other(to)).s.nextId
    case Acknowledge(to, ack) => ack in AcksTo(sys, to)
  }

  function Sent(x: Endpoint, payload: Payload): Endpoint {
    var id := x.s.nextId + 1;
    x.(s := x.s.(nextId := id), store := x.store.(pending := x.store.pending[id := payload]))
  }

  function Got(y: Endpoint, id: nat): (Endpoint, Ack) {
    var (s, verdict, ack) := Handled(y.s, id % 0x1_0000);
    (Endpoint(s, y.store, Newer(y.newest, id), if verdict then y.accepted + [id] else y.accepted), ack)
  }

  function Acked(x: Endpoint, ack: Ack): Endpoint {
    x.(s := Updated(x.s, ack.last, ack.bits).0, store := AckedStore(x.s, x.store, ack))
  }

  function Next(sys: System, step: Step): System {
    match step
    case Send(side, payload) => WithEnd(sys, side, Sent(End(sys, side), payload))
    case Deliver(to, id) =>
      var (got, ack) := Got(End(sys, to), id);
      WithAck(WithEnd(sys, to, got), Other(to), ack)
    case Acknowledge(to, ack) => WithEnd(sys, to, Acked(End(sys, to), ack))
  }

  /** The state after a run. */
  function After(steps: seq<Step>): System {
    if |steps| == 0 then START else Next(After(steps[..|steps| - 1]), steps[|steps| - 1])
  }

  predicate Run(steps: seq<Step>) {
    |steps| > 0 ==> Run(steps[..|steps| - 1]) && Possible(After(steps[..|steps| - 1]), steps[|steps| - 1])
  }

  /** No message arrives that the receiver does not recognise. */
  predicate TimelyStep(sys: System, step: Step) {
    step.Deliver? ==> Recognised(End(sys, step.to).newest, End(sys, step.to).accepted, step.id)
  }

  predicate TimelyRun(steps: seq<Step>) {
    && Run(steps)
    && (|steps| > 0 ==> TimelyRun(steps[..|steps| - 1]) && TimelyStep(After(steps[..|steps| - 1]), steps[|steps| - 1]))
  }

  ghost predicate HarmlessStep(sys: System, step: Step) {
    step.Acknowledge? ==> HarmlessFor(End(sys, step.to).s, End(sys, step.to).store, step.ack)
  }

  ghost predicate HarmlessRun(steps: seq<Step>) {
    && Run(steps)
    && (|steps| > 0 ==>
          HarmlessRun(steps[..|steps| - 1]) && HarmlessStep(After(steps[..|steps| - 1]), steps[|steps| - 1]))
  }

  // ---------- what every step keeps ----------

  /** A wire ID was received; ID 0 counts as the initial one. */
  ghost predicate Received(wire: int, accepted: seq<int>) {
    wire == 0 || exists u :: u in accepted && u % 0x1_0000 == wire
  }

  /** Everything an acknowledgement says was received. */
  ghost predicate Truthful(ack: Ack, accepted: seq<int>) {
    && 0 <= ack.last < 0x1_0000 && Received(ack.last, accepted)
    && 0 <= ack.id < 0x1_0000 && Received(ack.id, accepted)
    && 0 <= ack.bits < 0x1_0000
    && forall k: nat | k < 16 :: Bit(ack.bits, k) ==> Received((ack.last - 1 - k) % 0x1_0000, accepted)
  }

  /** Messages from `x` to `y`, acknowledgements back to `x`: the filter of `y` is exact, nothing was accepted that
      was not sent, and the acknowledgements tell the truth. */
  ghost predicate Honest(x: Endpoint, y: Endpoint, acks: set<Ack>) {
    && x.s.nextId >= 1
    && Remembers(y.s, y.newest, y.accepted)
    && (forall u | u in y.accepted :: 2 <= u <= x.s.nextId)
    && (forall ack | ack in acks :: Truthful(ack, y.accepted))
    && (forall id | id in x.store.pending :: 2 <= id <= x.s.nextId)
  }

  /** What `x` sent is still pending, or `y` received it. */
  ghost predicate Kept(x: Endpoint, y: Endpoint) {
    forall id | 2 <= id <= x.s.nextId :: id in x.store.pending || (id < 0x1_0000 && Received(id, y.accepted))
  }

  ghost predicate AllHonest(sys: System) {
    Honest(sys.a, sys.b, sys.toA) && Honest(sys.b, sys.a, sys.toB)
  }

  ghost predicate AllKept(sys: System) {
    Kept(sys.a, sys.b) && Kept(sys.b, sys.a)
  }

  lemma MoreReceived(wire: int, accepted: seq<int>, more: seq<int>)
    requires Received(wire, accepted) && accepted <= more
    ensures Received(wire, more)
  {
    if wire != 0 {
      var u :| u in accepted && u % 0x1_0000 == wire;
      assert u in more;
    }
  }

  lemma StillTruthful(ack: Ack, accepted: seq<int>, more: seq<int>)
    requires Truthful(ack, accepted) && accepted <= more
    ensures Truthful(ack, more)
  {
    hide Bit, Received;
    MoreReceived(ack.last, accepted, more);
    MoreReceived(ack.id, accepted, more);
    forall k: nat | k < 16 && Bit(ack.bits, k)
      ensures Received((ack.last - 1 - k) % 0x1_0000, more)
    {
      MoreReceived((ack.last - 1 - k) % 0x1_0000, accepted, more);
    }
  }

  /** Every acknowledgement that goes out is truthful. */
  lemma AckTruthful(s: Sequence, newest: nat, accepted: seq<int>, id: nat)
    requires Remembers(s, newest, accepted) && newest > 0 && id in accepted
    ensures Truthful(Ack(s.lastReceived, s.received.First16(), id % 0x1_0000), accepted)
  {
    hide Bit, And, Received, Remembers;
    First16Bits(s.received);
    MarkReceived(s, newest, accepted, id);
    forall k: nat | k < 16 && Bit(s.received.First16(), k)
      ensures Received((s.lastReceived - 1 - k) % 0x1_0000, accepted)
    {
      MarkedReceived(s, newest, accepted, k);
    }
  }

  lemma MarkReceived(s: Sequence, newest: nat, accepted: seq<int>, id: nat)
    requires Remembers(s, newest, accepted) && newest > 0 && id in accepted
    ensures 0 <= s.lastReceived < 0x1_0000
    ensures Received(s.lastReceived, accepted) && Received(id % 0x1_0000, accepted)
  {
    hide Bit;
  }

  lemma MarkedReceived(s: Sequence, newest: nat, accepted: seq<int>, k: nat)
    requires Remembers(s, newest, accepted) && Bit(s.received.bits, k)
    ensures Received((s.lastReceived - 1 - k) % 0x1_0000, accepted)
  {
    hide Bit;
    WireBefore(newest, k + 1);
    var u := newest - 1 - k;
    assert u == 0 || u in accepted;
    assert (s.lastReceived - 1 - k) % 0x1_0000 == u % 0x1_0000;
  }

  lemma WireBefore(newest: nat, n: nat)
    ensures (newest % 0x1_0000 - n) % 0x1_0000 == (newest - n) % 0x1_0000
  {
    var q := newest / 0x1_0000;
    ModUnique(newest % 0x1_0000 - n, (newest - n) / 0x1_0000 - q, (newest - n) % 0x1_0000, 0x1_0000);
  }

  lemma SendKeeps(x: Endpoint, y: Endpoint, toX: set<Ack>, toY: set<Ack>, payload: Payload)
    requires Honest(x, y, toX) && Honest(y, x, toY)
    ensures Honest(Sent(x, payload), y, toX) && Honest(y, Sent(x, payload), toY)
    ensures Kept(x, y) && Kept(y, x) ==> Kept(Sent(x, payload), y) && Kept(y, Sent(x, payload))
  {
    hide Bit, Truthful, Received;
  }

  lemma DeliverKeeps(x: Endpoint, y: Endpoint, toX: set<Ack>, toY: set<Ack>, id: nat)
    requires Honest(x, y, toX) && Honest(y, x, toY)
    requires 2 <= id <= x.s.nextId && Recognised(y.newest, y.accepted, id)
    ensures Honest(x, Got(y, id).0, toX + {Got(y, id).1}) && Honest(Got(y, id).0, x, toY)
    ensures Kept(x, y) && Kept(y, x) ==> Kept(x, Got(y, id).0) && Kept(Got(y, id).0, x)
  {
    hide Bit, Handled, Truthful, Received, Recognised;
    var (got, ack) := Got(y, id);
    HandledStep(y.s, y.newest, y.accepted, id);
    AckTruthful(got.s, got.newest, got.accepted, id);
    forall earlier | earlier in toX
      ensures Truthful(earlier, got.accepted)
    {
      StillTruthful(earlier, y.accepted, got.accepted);
    }
    forall i | 2 <= i <= x.s.nextId && Received(i, y.accepted)
      ensures Received(i, got.accepted)
    {
      MoreReceived(i, y.accepted, got.accepted);
    }
  }

  /** Every pending message that the trim loop finds marked was received. */
  ghost predicate TrimsReceived(x: Endpoint, received: seq<int>, ack: Ack) {
    forall p: nat :: Trims(x.s, x.store, ack, p) ==> Received(x.s.lastReceived - p, received)
  }

  lemma AcknowledgeKeeps(x: Endpoint, y: Endpoint, toX: set<Ack>, toY: set<Ack>, ack: Ack)
    requires Honest(x, y, toX) && Honest(y, x, toY) && ack in toX
    ensures Honest(Acked(x, ack), y, toX) && Honest(y, Acked(x, ack), toY)
    ensures Kept(y, x) ==> Kept(y, Acked(x, ack))
    ensures Kept(x, y) ==> (Kept(Acked(x, ack), y) <==> TrimsReceived(x, y.accepted, ack))
    ensures HarmlessFor(x.s, x.store, ack) ==> TrimsReceived(x, y.accepted, ack)
  {
    hide Bit, Vouched, HarmlessFor, AckedStore, Received, TrimsReceived;
    UpdatedKeeps(x.s, ack.last, ack.bits);
    forall id
      ensures id in AckedStore(x.s, x.store, ack).pending ==> id in x.store.pending
    {
      AckedShrinks(x.s, x.store, ack, id);
    }
    RemovedReceivedIff(x, y.accepted, ack);
    HarmlessReceived(x, y.accepted, ack);
  }

  lemma HarmlessReceived(x: Endpoint, received: seq<int>, ack: Ack)
    requires Truthful(ack, received) && forall id | id in x.store.pending :: id >= 2
    ensures HarmlessFor(x.s, x.store, ack) ==> TrimsReceived(x, received, ack)
  {
    hide Bit, Vouched, TrimmedAt, Truthful, Received;
    if HarmlessFor(x.s, x.store, ack) {
      forall p: nat | Trims(x.s, x.store, ack, p)
        ensures Received(x.s.lastReceived - p, received)
      {
        VouchedReceived(ack, x.s.lastReceived - p, received);
      }
    }
  }

  /** What an acknowledgement removes was received, exactly when what the trim loop clears was. */
  lemma RemovedReceivedIff(x: Endpoint, received: seq<int>, ack: Ack)
    requires Truthful(ack, received) && x.s.lastReceived < 0x1_0000 && forall id | id in x.store.pending :: id >= 2
    ensures TrimsReceived(x, received, ack) <==>
            forall id | id in x.store.pending && id !in AckedStore(x.s, x.store, ack).pending ::
              id < 0x1_0000 && Received(id, received)
  {
    hide Bit, Vouched, TrimmedAt, Truthful, Received, AckedStore;
    if TrimsReceived(x, received, ack) {
      forall id | id in x.store.pending && id !in AckedStore(x.s, x.store, ack).pending
        ensures id < 0x1_0000 && Received(id, received)
      {
        VouchedOrTrimmed(x.s, x.store, ack, id);
        if Vouched(ack, id) {
          VouchedReceived(ack, id, received);
        } else {
          TrimmedPositive(x.s, ack, x.s.lastReceived - id);
          assert Trims(x.s, x.store, ack, x.s.lastReceived - id);
        }
      }
    } else {
      var p: nat :| Trims(x.s, x.store, ack, p) && !Received(x.s.lastReceived - p, received);
      TrimmedIsRemoved(x.s, x.store, ack, p);
    }
  }

  lemma AckedShrinks(s: Sequence, store: Store, ack: Ack, id: int)
    ensures id in AckedStore(s, store, ack).pending ==> id in store.pending
  {
    RemovedIff(store, [Clear(ack.id)] + Updated(s, ack.last, ack.bits).1, id);
  }

  lemma UpdatedKeeps(s: Sequence, last: int, bits: int)
    ensures
      var next := Updated(s, last, bits).0;
      next.nextId == s.nextId && next.lastReceived == s.lastReceived && next.received == s.received
  {
    hide Bit, Or, Shl;
  }

  lemma VouchedReceived(ack: Ack, id: int, accepted: seq<int>)
    requires Truthful(ack, accepted) && Vouched(ack, id) && id >= 2
    ensures id < 0x1_0000 && Received(id, accepted)
  {
    hide Bit, Received;
    if id != ack.last && id != ack.id {
      var k := ack.last - id - 1;
      assert (ack.last - 1 - k) % 0x1_0000 == id;
    }
  }

  /** An acknowledgement's trim loop clears nothing that the other end did not receive. */
  ghost predicate TrimsReceivedStep(sys: System, step: Step) {
    step.Acknowledge? ==> TrimsReceived(End(sys, step.to), End(sys, Other(step.to)).accepted, step.ack)
  }

  /** Every timely step keeps both ends honest; it keeps what was sent exactly when what it trims was received,
      which is so for every harmless acknowledgement. */
  lemma StepKeeps(sys: System, step: Step)
    requires AllHonest(sys) && Possible(sys, step) && TimelyStep(sys, step)
    ensures AllHonest(Next(sys, step))
    ensures AllKept(sys) ==> (AllKept(Next(sys, step)) <==> TrimsReceivedStep(sys, step))
    ensures HarmlessStep(sys, step) ==> TrimsReceivedStep(sys, step)
  {
    hide Honest, Kept, Handled, AckedStore, Updated, HarmlessFor, TrimsReceived, Recognised;
    match step
    case Send(A, payload) => SendKeeps(sys.a, sys.b, sys.toA, sys.toB, payload);
    case Send(B, payload) => SendKeeps(sys.b, sys.a, sys.toB, sys.toA, payload);
    case Deliver(A, id) => DeliverKeeps(sys.b, sys.a, sys.toB, sys.toA, id);
    case Deliver(B, id) => DeliverKeeps(sys.a, sys.b, sys.toA, sys.toB, id);
    case Acknowledge(A, ack) => AcknowledgeKeeps(sys.a, sys.b, sys.toA, sys.toB, ack);
    case Acknowledge(B, ack) => AcknowledgeKeeps(sys.b, sys.a, sys.toB, sys.toA, ack);
  }

  /** What was sent is kept in every state of the run. */
  ghost predicate AlwaysKept(steps: seq<Step>) {
    AllKept(After(steps)) && (|steps| > 0 ==> AlwaysKept(steps[..|steps| - 1]))
  }

  ghost predicate TrimsReceivedRun(steps: seq<Step>) {
    |steps| > 0 ==>
      TrimsReceivedRun(steps[..|steps| - 1]) && TrimsReceivedStep(After(steps[..|steps| - 1]), steps[|steps| - 1])
  }

  lemma {:induction false} RunKeeps(steps: seq<Step>)
    requires TimelyRun(steps)
    ensures AllHonest(After(steps))
    ensures AlwaysKept(steps) <==> TrimsReceivedRun(steps)
    ensures HarmlessRun(steps) ==> TrimsReceivedRun(steps)
  {
    hide AllHonest, AllKept, Next, Possible, HarmlessStep, TrimsReceivedStep, TimelyStep;
    if |steps| == 0 {
      StartHolds();
    } else {
      RunKeeps(steps[..|steps| - 1]);
      StepKeeps(After(steps[..|steps| - 1]), steps[|steps| - 1]);
    }
  }

  lemma StartHolds()
    ensures AllHonest(START) && AllKept(START)
  {
    FreshRemembers();
  }

  // ---------- the main results ----------

  /** In every timely run: the accepted IDs are distinct and were all sent, and every acknowledgement ever sent is
      truthful. */
  lemma EveryRunIsHonest(steps: seq<Step>, side: Side)
    requires TimelyRun(steps)
    ensures
      var sender, receiver := End(After(steps), side), End(After(steps), Other(side));
      && Distinct(receiver.accepted)
      && (forall u | u in receiver.accepted :: 2 <= u <= sender.s.nextId)
      && (forall ack | ack in AcksTo(After(steps), side) :: Truthful(ack, receiver.accepted))
  {
    hide Bit, After, Truthful;
    RunKeeps(steps);
  }

  /** In every timely run of harmless acknowledgements, at both ends: a message that was sent is still pending unless
      the other end accepted an ID with the same 16 bits, and as long as IDs stay below 65536, that very ID. */
  lemma NothingIsLost(steps: seq<Step>, side: Side, id: int)
    requires TimelyRun(steps) && HarmlessRun(steps)
    requires 2 <= id <= End(After(steps), side).s.nextId
    ensures
      var sender, receiver := End(After(steps), side), End(After(steps), Other(side));
      && (id !in sender.store.pending ==> id < 0x1_0000 && exists u :: u in receiver.accepted && u % 0x1_0000 == id)
      && (id !in sender.store.pending && sender.s.nextId < 0x1_0000 ==> id in receiver.accepted)
  {
    hide Bit, After, Truthful;
    RunKeeps(steps);
  }

  /** And of timely runs in general: nothing is ever lost exactly when the trim loop never clears a pending message
      that was not received. */
  lemma NothingIsEverLostIff(steps: seq<Step>)
    requires TimelyRun(steps)
    ensures AlwaysKept(steps) <==> TrimsReceivedRun(steps)
  {
    RunKeeps(steps);
  }

  // ---------- IDs beyond 16 bits ----------

  /** What an acknowledgement can name, and what stays pending for good. */
  ghost predicate Wired(x: Endpoint, acks: set<Ack>) {
    && 0 <= x.s.lastReceived < 0x1_0000
    && (forall ack | ack in acks :: 0 <= ack.last < 0x1_0000 && 0 <= ack.id < 0x1_0000)
    && x.s.nextId >= 1
    && (forall id | id in x.store.pending :: 2 <= id <= x.s.nextId)
    && (forall id | 0x1_0000 <= id <= x.s.nextId :: id in x.store.pending)
  }

  lemma StepWired(sys: System, step: Step)
    requires Wired(sys.a, sys.toA) && Wired(sys.b, sys.toB) && Possible(sys, step)
    ensures Wired(Next(sys, step).a, Next(sys, step).toA) && Wired(Next(sys, step).b, Next(sys, step).toB)
  {
    hide Bit, Handled, Updated, AckedStore;
    match step
    case Send(_, _) =>
    case Deliver(to, id) => HandledWired(End(sys, to).s, id % 0x1_0000);
    case Acknowledge(to, ack) => AckedWired(End(sys, to), AcksTo(sys, to), ack);
  }

  lemma AckedWired(x: Endpoint, acks: set<Ack>, ack: Ack)
    requires Wired(x, acks) && ack in acks
    ensures Wired(Acked(x, ack), acks)
  {
    hide Bit, Handled, Updated, AckedStore;
    UpdatedKeeps(x.s, ack.last, ack.bits);
    forall id
      ensures id in AckedStore(x.s, x.store, ack).pending ==> id in x.store.pending
      ensures id in x.store.pending && id >= 0x1_0000 ==> id in AckedStore(x.s, x.store, ack).pending
    {
      AckedShrinks(x.s, x.store, ack, id);
      if id in x.store.pending && id >= 0x1_0000 {
        BeyondStays(x.s, x.store, ack, id);
      }
    }
  }

  lemma HandledWired(s: Sequence, id: int)
    requires 0 <= s.lastReceived < 0x1_0000 && 0 <= id < 0x1_0000
    ensures
      var (next, _, ack) := Handled(s, id);
      0 <= next.lastReceived < 0x1_0000 && next.nextId == s.nextId && 0 <= ack.last < 0x1_0000 && ack.id == id
  {
  }

  lemma BeyondStays(s: Sequence, store: Store, ack: Ack, id: int)
    requires 0 <= s.lastReceived < 0x1_0000 && 0 <= ack.last < 0x1_0000 && 0 <= ack.id < 0x1_0000
    requires id in store.pending && id >= 0x1_0000
    ensures id in AckedStore(s, store, ack).pending
  {
    hide Bit, Updated, AckedStore;
    AckRemovesExactly(s, store, ack, id);
  }

  lemma {:induction false} RunWired(steps: seq<Step>)
    requires Run(steps)
    ensures Wired(After(steps).a, After(steps).toA) && Wired(After(steps).b, After(steps).toB)
  {
    hide Next, Possible, Wired;
    if |steps| == 0 {
      StartWired();
    } else {
      RunWired(steps[..|steps| - 1]);
      StepWired(After(steps[..|steps| - 1]), steps[|steps| - 1]);
    }
  }

  lemma StartWired()
    ensures Wired(START.a, START.toA) && Wired(START.b, START.toB)
  {
  }

  /** In every run whatsoever, a message beyond ID 65535 is never cleared. */
  lemma BeyondIsPending(steps: seq<Step>, side: Side, id: int)
    requires Run(steps) && 0x1_0000 <= id <= End(After(steps), side).s.nextId
    ensures id in End(After(steps), side).store.pending
  {
    hide After;
    RunWired(steps);
  }

  /** To an acknowledgement, IDs that are equal modulo 65536 are one: where the receiver gets only the later of two
      such messages, its acknowledgement clears the earlier one. */
  lemma TwinIsCleared(x: Endpoint, y: Endpoint, id: nat)
    requires 2 <= id < 0x1_0000 && id in x.store.pending && id !in y.accepted
    ensures
      var (got, ack) := Got(y, id + 0x1_0000);
      id !in Acked(x, ack).store.pending && id !in got.accepted
  {
    hide Handled, Updated, AckedStore;
    var (got, ack) := Got(y, id + 0x1_0000);
    HandledAck(y.s, id);
    AckRemovesExactly(x.s, x.store, ack, id);
  }

  /** A message more than half the ID range ahead of the newest one is lost when it arrives: it is not accepted, and
      its acknowledgement clears it. */
  lemma AheadIsLost(x: Endpoint, y: Endpoint, id: nat)
    requires Remembers(y.s, y.newest, y.accepted) && 32768 < id - y.newest && id < 0x1_0000
    ensures
      var (got, ack) := Got(y, id);
      id !in Acked(x, ack).store.pending && id !in got.accepted
  {
    hide Handled, Updated, AckedStore;
    var (got, ack) := Got(y, id);
    AheadIsDiscarded(y.s, y.newest, y.accepted, id);
    HandledAck(y.s, id);
    AckRemovesExactly(x.s, x.store, ack, id);
  }

  lemma HandledAck(s: Sequence, id: int)
    ensures Handled(s, id).2.id == id
  {
  }

  // ---------- what is reported as delivered ----------

  /** Each ID sent is either pending or was reported as delivered, once. */
  ghost predicate Accounted(store: Store, nextId: int) {
    && nextId >= 1
    && Distinct(store.delivered)
    && (forall id :: (id in store.pending || id in store.delivered) <==> 2 <= id <= nextId)
    && (forall id | id in store.delivered :: id !in store.pending)
  }

  lemma {:induction false} RequestsAccounted(store: Store, requests: seq<Request>, nextId: int)
    requires Accounted(store, nextId)
    ensures Accounted(store.AfterAll(requests), nextId)
  {
    hide Accounted;
    if |requests| > 0 {
      RequestsAccounted(store, requests[..|requests| - 1], nextId);
      RequestAccounted(store.AfterAll(requests[..|requests| - 1]), requests[|requests| - 1], nextId);
    }
  }

  lemma RequestAccounted(store: Store, request: Request, nextId: int)
    requires Accounted(store, nextId)
    ensures Accounted(store.After(request), nextId)
  {
    hide Distinct;
    if request.Clear? && request.id in store.pending {
      DistinctAppend(store.delivered, request.id);
      var next := store.After(request);
      forall id
        ensures (id in next.pending || id in next.delivered) <==> (id in store.pending || id in store.delivered)
      {
      }
    }
  }

  lemma SentAccounted(x: Endpoint, payload: Payload)
    requires Accounted(x.store, x.s.nextId)
    ensures Accounted(Sent(x, payload).store, Sent(x, payload).s.nextId)
  {
    hide Distinct;
  }

  lemma StepAccounted(sys: System, step: Step, side: Side)
    requires Accounted(End(sys, side).store, End(sys, side).s.nextId) && Possible(sys, step)
    ensures Accounted(End(Next(sys, step), side).store, End(Next(sys, step), side).s.nextId)
  {
    hide Handled, Updated, Accounted;
    match step
    case Send(from, payload) =>
      if from == side {
        SentAccounted(End(sys, side), payload);
      }
    case Deliver(to, id) => HandledKeeps(End(sys, to).s, id % 0x1_0000);
    case Acknowledge(to, ack) =>
      var x := End(sys, to);
      UpdatedKeeps(x.s, ack.last, ack.bits);
      if to == side {
        RequestsAccounted(x.store, [Clear(ack.id)] + Updated(x.s, ack.last, ack.bits).1, x.s.nextId);
      }
  }

  /** In every run whatsoever, each ID sent is either pending or was reported as delivered, exactly once. */
  lemma {:induction false} DeliveredOnce(steps: seq<Step>, side: Side)
    requires Run(steps)
    ensures Accounted(End(After(steps), side).store, End(After(steps), side).s.nextId)
  {
    hide Next, Possible;
    if |steps| > 0 {
      DeliveredOnce(steps[..|steps| - 1], side);
      StepAccounted(After(steps[..|steps| - 1]), steps[|steps| - 1], side);
    }
  }

  /** So a message can arrive exactly when it was sent, whether it is still pending or not. */
  lemma ArrivesIff(steps: seq<Step>, side: Side, id: nat)
    requires Run(steps)
    ensures
      var store := End(After(steps), side).store;
      Possible(After(steps), Deliver(Other(side), id)) <==> id in store.pending || id in store.delivered
  {
    hide After, Run, Distinct;
    DeliveredOnce(steps, side);
  }

  /** In a timely run of harmless acknowledgements, whatever was reported as delivered was received. */
  lemma DeliveredIsReceived(steps: seq<Step>, side: Side, id: int)
    requires TimelyRun(steps) && HarmlessRun(steps) && id in End(After(steps), side).store.delivered
    ensures Received(id, End(After(steps), Other(side)).accepted)
    ensures End(After(steps), side).s.nextId < 0x1_0000 ==> id in End(After(steps), Other(side)).accepted
  {
    hide After, Received, TimelyRun, HarmlessRun;
    HarmlessRunRuns(steps);
    DeliveredOnce(steps, side);
    NothingIsLost(steps, side, id);
    RunKeeps(steps);
  }

  lemma HarmlessRunRuns(steps: seq<Step>)
    requires HarmlessRun(steps)
    ensures Run(steps)
  {
  }

  // ---------- one end that only receives ----------

  /** Where only one end ever sends, no condition is needed: the sequencer that handles the acknowledgements has
      received nothing, so that all the trim loop clears are negative IDs. */
  lemma {:induction false} OneWayIsHarmless(steps: seq<Step>)
    requires Run(steps) && forall step | step in steps :: step.Send? ==> step.side == A
    ensures HarmlessRun(steps)
    ensures After(steps).b.s.nextId == 1 && After(steps).a.s.lastReceived == 0 && After(steps).toB == {}
  {
    hide Bit, Handled, Vouched;
    if |steps| > 0 {
      var front, last := steps[..|steps| - 1], steps[|steps| - 1];
      OneWayIsHarmless(front);
      assert last in steps;
      if last.Acknowledge? {
        UpdatedKeeps(End(After(front), last.to).s, last.ack.last, last.ack.bits);
        RunWired(front);
        NothingToTrim(After(front).a.s, After(front).a.store, last.ack);
      } else if last.Deliver? {
        HandledKeeps(After(front).b.s, last.id % 0x1_0000);
      }
    }
  }

  lemma NothingToTrim(s: Sequence, store: Store, ack: Ack)
    requires s.lastReceived == 0 && forall id | id in store.pending :: id >= 2
    ensures HarmlessFor(s, store, ack)
  {
  }

  lemma HandledKeeps(s: Sequence, id: int)
    ensures Handled(s, id).0.nextId == s.nextId
  {
  }

  /** A run in which a message is lost: B sent two messages, A three, the acknowledgement of A's third message
      arrives twice, and the trim loop clears A's first message, which never arrived. */
  const LOSING: seq<Step> := [
    Send(A, []), Send(A, []), Send(A, []), Send(B, []), Send(B, []),
    Deliver(A, 3), Deliver(B, 4), Acknowledge(A, Ack(4, 8, 4)), Acknowledge(A, Ack(4, 8, 4))]

  lemma TheTrimLoopLoses()
    ensures TimelyRun(LOSING)
    ensures After(LOSING).a.s.nextId == 4
    ensures 2 !in After(LOSING).a.store.pending && After(LOSING).b.accepted == [4]
  {
    hide Handled, Updated, AckedStore;
    LosingDelivers();
    AppendStep(LOSING, 7);
    AppendStep(LOSING, 8);
    assert LOSING[..9] == LOSING;
    var s := After(LOSING[..7]).a.s;
    LosingAcks(s, After(LOSING[..7]).a.store);
    UpdatedKeeps(s, 4, 8);
    UpdatedKeeps(Updated(s, 4, 8).0, 4, 8);
  }

  lemma AppendStep(steps: seq<Step>, n: nat)
    requires n < |steps|
    ensures After(steps[..n + 1]) == Next(After(steps[..n]), steps[n])
    ensures TimelyRun(steps[..n + 1]) <==>
            TimelyRun(steps[..n]) && Possible(After(steps[..n]), steps[n]) && TimelyStep(After(steps[..n]), steps[n])
  {
    hide Next, Possible, TimelyStep;
    assert steps[..n + 1][..n] == steps[..n];
  }

  lemma LosingSends()
    ensures TimelyRun(LOSING[..5])
    ensures After(LOSING[..5]) ==
      System(Endpoint(Sequence(4, 0, EMPTY, 0, EMPTY), Store(map[2 := [], 3 := [], 4 := []], [], []), 0, []),
             Endpoint(Sequence(3, 0, EMPTY, 0, EMPTY), Store(map[2 := [], 3 := []], [], []), 0, []), {}, {})
  {
    hide Recognised;
    assert LOSING[..0] == [];
    AppendStep(LOSING, 0);
    AppendStep(LOSING, 1);
    AppendStep(LOSING, 2);
    AppendStep(LOSING, 3);
    AppendStep(LOSING, 4);
  }

  lemma LosingDelivers()
    ensures TimelyRun(LOSING[..7])
    ensures
      var end := After(LOSING[..7]);
      && end.a.s == Sequence(4, 3, Marks(4, 3, 3), 0, EMPTY)
      && end.b.accepted == [4]
      && Ack(4, 8, 4) in end.toA
  {
    hide Handled, Recognised, After, TimelyRun;
    LosingSends();
    FirstRecognised(3);
    FirstRecognised(4);
    FirstReceived(Sequence(4, 0, EMPTY, 0, EMPTY), 3, 4);
    FirstReceived(Sequence(3, 0, EMPTY, 0, EMPTY), 4, 8);
    AppendStep(LOSING, 5);
    AppendStep(LOSING, 6);
  }

  lemma FirstRecognised(id: nat)
    requires id < 32768
    ensures Recognised(0, [], id)
  {
    hide GetSequenceGap;
    GapExact(id, 0);
  }

  /** The first message a sequencer receives, for two small IDs. */
  lemma FirstReceived(s: Sequence, id: int, mark: int)
    requires s.lastReceived == 0 && s.received == EMPTY
    requires (id, mark) == (3, 4) || (id, mark) == (4, 8)
    ensures Handled(s, id) == (s.(lastReceived := id, received := Marks(mark, id, id)), true, Ack(id, mark, id))
  {
    hide Or, And, Shl, Bit, Handled;
    FirstHandled(s, id);
    FirstMarks(id, mark);
    AndSmall(mark);
  }

  lemma FirstHandled(s: Sequence, id: nat)
    requires s.lastReceived == 0 && s.received == EMPTY && 0 < id < 32768
    ensures
      var received := EMPTY.Shifted(id).With(id);
      Handled(s, id) ==
      (s.(lastReceived := id, received := received), !EMPTY.Shifted(id).IsSet(id), Ack(id, received.First16(), id))
  {
    hide Or, And, Shl, Bit, GetSequenceGap;
    GapExact(id, 0);
  }

  lemma FirstMarks(id: int, mark: int)
    requires (id, mark) == (3, 4) || (id, mark) == (4, 8)
    ensures EMPTY.Shifted(id).With(id) == Marks(mark, id, id) && !EMPTY.Shifted(id).IsSet(id)
  {
    hide Or, Shl, Bit;
    ShlIsTimes(0, id);
    SmallPowers();
    BitOfZero(id - 1);
    OrZero(mark);
  }

  lemma SmallPowers()
    ensures Shl(1, 0) == 1 && Shl(1, 2) == 4 && Shl(1, 3) == 8
  {
    assert Shl(8, 0) == 8 && Shl(4, 0) == 4;
    assert Shl(4, 1) == 8 && Shl(2, 1) == 4;
    assert Shl(2, 2) == 8;
  }

  lemma OrZero(x: int)
    ensures Or(0, x) == x
  {
    hide Or;
    forall k: nat
      ensures Bit(Or(0, x), k) == Bit(x, k)
    {
      BitOr(0, x, k);
      BitOfZero(k);
    }
    SameBits(Or(0, x), x);
  }

  lemma AndSmall(x: int)
    requires 0 <= x < 0x1_0000
    ensures And(x, 0xffff) == x
  {
    Pow2Values();
    AndMask(x, 16);
    LowSmall(x, 16);
  }

  /** The same acknowledgement twice: the second time, the trim loop takes the ID before the last received one for
      acknowledged. */
  lemma LosingAcks(s: Sequence, store: Store)
    requires s.lastReceived == 3 && s.acked == EMPTY
    ensures
      var ack := Ack(4, 8, 4);
      2 !in AckedStore(Updated(s, 4, 8).0, AckedStore(s, store, ack), ack).pending
  {
    hide Bit, Updated;
    var ack := Ack(4, 8, 4);
    var next := Updated(s, 4, 8).0;
    FirstAcked(s, 8);
    assert TrimmedAt(next, ack, 1);
    UpdatedClears(next, ack, 2);
    RemovedIff(AckedStore(s, store, ack), [Clear(4)] + Updated(next, 4, 8).1, 2);
  }

  lemma FirstAcked(s: Sequence, bits: int)
    requires s.lastReceived == 3 && s.acked == EMPTY
    ensures
      var next := Updated(s, 4, bits).0;
      next.lastReceived == 3 && next.acked.count == 1 && next.acked.capacity == 1 && Bit(next.acked.bits, 0)
  {
    hide Bit, Or, Shl, Selected;
    BitWith(s.acked.Shifted(1).Combined(bits), 1, 0);
  }
}
