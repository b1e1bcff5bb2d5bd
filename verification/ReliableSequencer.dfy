/** The reliable side of a connection: the duplicate filter of the receiver, the acknowledgement bookkeeping of the
    sender, and the messages that wait for an acknowledgement. */
module ReliableSequencer {
  import opened PyInt
  import opened BitBuffer
  import opened SequenceGap
  import opened Bitfields

  type Payload = seq<byte>

  /** The values of a sequencer's fields. */
  datatype Sequence = Sequence(nextId: int, lastReceived: int, received: Marks, lastAcked: int, acked: Marks)

  const FRESH := Sequence(1, 0, EMPTY, 0, EMPTY)

  /** What an ack message carries: the latest received ID, the 16 IDs before it, and the ID it answers. */
  datatype Ack = Ack(last: int, bits: int, id: int)

  /** What the bookkeeping asks of the connection. */
  datatype Request = Clear(id: int) | Resend(id: int)

  /** The messages waiting for an acknowledgement, by ID; the IDs reported as delivered and sent again. */
  datatype Store = Store(pending: map<int, Payload>, delivered: seq<int>, resent: seq<int>) {

    function After(request: Request): Store {
      if request.id !in pending then this
      else if request.Clear? then Store(pending - {request.id}, delivered + [request.id], resent)
      else Store(pending, delivered, resent + [request.id])
    }

    function AfterAll(requests: seq<Request>): Store {
      if |requests| == 0 then this
      else AfterAll(requests[..|requests| - 1]).After(requests[|requests| - 1])
    }
  }

  // ---------- specification of the two operations ----------

  /** `shouldHandle`: the new state, the verdict, and the acknowledgement that goes out in any case. */
  function Handled(s: Sequence, id: int): (Sequence, bool, Ack) {
    var gap := GetSequenceGap(id, s.lastReceived);
    if gap == 0 then (s, false, Ack(s.lastReceived, s.received.First16(), id))
    else
      var received := if gap > 0 then s.received.Shifted(gap) else s.received;
      var last := if gap > 0 then id else s.lastReceived;
      var k := if gap > 0 then gap else -gap;
      var next := s.(lastReceived := last, received := received.With(k));
      (next, !received.IsSet(k), Ack(last, next.received.First16(), id))
  }

  /** The trim loop, `n` turns, on the marks of acknowledged IDs before `base`: the marks left, the requests
      made, and whether it ended in the exception on a negative shift. */
  function Trimmed(acked: Marks, n: nat, base: int): (Marks, seq<Request>, bool)
    decreases n
  {
    if n == 0 then (acked, [], false)
    else if acked.count < 1 then (acked, [], true)
    else
      var request := if Bit(acked.bits, acked.count - 1) then Clear(base - acked.count) else Resend(base - acked.count);
      var rest := Trimmed(acked.(count := acked.count - 1), n - 1, base);
      (rest.0, [request] + rest.1, rest.2)
  }

  /** The clears for the first `n` of the 16 IDs before the latest acknowledged one. */
  function Selected(acked: Marks, bits: int, last: int, n: nat): seq<Request>
    decreases n
  {
    if n == 0 then []
    else Selected(acked, bits, last, n - 1) + (if !acked.IsSet(n) && Bit(bits, n - 1) then [Clear(last - n)] else [])
  }

  /** `updateReceivedAcks`: the new state, the requests in order, and whether an exception ended it. The gap is
      taken from the ID last *received*, as in the code. */
  function Updated(s: Sequence, last: int, bits: int): (Sequence, seq<Request>, bool) {
    var gap := GetSequenceGap(last, s.lastReceived);
    if gap < 0 then (s.(acked := s.acked.With(-gap)), [], false)
    else if gap == 0 then (s.(acked := s.acked.Combined(bits)), [], false)
    else
      var overflow := s.acked.Overflow(gap);
      var (marks, trims, raised) := if overflow < 0 then (s.acked, [], false)
          else Trimmed(s.acked, overflow, s.lastReceived);
      if raised then (s.(acked := marks), trims, true)
      else
        var shifted := marks.Shifted(gap);
        (s.(lastAcked := last, acked := shifted.Combined(bits).With(gap)),
         trims + Selected(shifted, bits, last, 16) + [Clear(last)],
         false)
  }

  lemma {:induction false} TrimmedCount(acked: Marks, n: nat, base: int)
    ensures Trimmed(acked, n, base).2 <==> n > acked.count
    ensures Trimmed(acked, n, base).0 == acked.(count := if n > acked.count then 0 else acked.count - n)
    decreases n
  {
    hide Bit;
    if n > 0 && acked.count >= 1 {
      TrimmedCount(acked.(count := acked.count - 1), n - 1, base);
    }
  }

  /** The bookkeeping raises exactly on a gap above the capacity; otherwise the capacity becomes the count. The
      count, once it is the capacity, stays what it is: the first positive gap of a connection limits all the
      following ones. */
  lemma RaisesIff(s: Sequence, last: int, bits: int)
    ensures
      var gap := GetSequenceGap(last, s.lastReceived);
      Updated(s, last, bits).2 <==> gap > 0 && gap > s.acked.capacity
    ensures
      var (next, _, raised) := Updated(s, last, bits);
      && (s.acked.count == s.acked.capacity ==> next.acked.capacity == s.acked.capacity)
      && (s.acked.count == s.acked.capacity && !raised ==> next.acked.count == next.acked.capacity)
  {
    hide Bit, Or, Shl, Selected, GetSequenceGap;
    var overflow := s.acked.Overflow(GetSequenceGap(last, s.lastReceived));
    if overflow >= 0 {
      TrimmedCount(s.acked, overflow, s.lastReceived);
    }
  }

  /** On a new connection the first acknowledgement raises exactly when it is more than 128 ahead; otherwise its
      distance becomes the capacity for good. */
  lemma FirstRaisesIff(last: int, bits: int)
    ensures Updated(FRESH, last, bits).2 <==> 128 < last % 0x1_0000 <= 32768
    ensures 1 <= last % 0x1_0000 <= 128 ==> Updated(FRESH, last, bits).0.acked.capacity == last % 0x1_0000
  {
    hide Bit, Or, Shl, Selected;
    RaisesIff(FRESH, last, bits);
    var overflow := EMPTY.Overflow(GetSequenceGap(last, 0));
    if overflow >= 0 {
      TrimmedCount(EMPTY, overflow, 0);
    }
  }

  // ---------- the classes ----------

  /** The part of a connection the sequencer works on. */
  class Connection {
    var pending: map<int, Payload>
    var delivered: seq<int>
    var resent: seq<int>
    var acks: seq<Ack>

    ghost function State(): Store
      reads this
    {
      Store(pending, delivered, resent)
    }

    constructor ()
      ensures State() == Store(map[], [], []) && acks == []
    {
      pending, delivered, resent, acks := map[], [], [], [];
    }

    method ClearMessage(id: int)
      modifies this
      ensures State() == old(State()).After(Clear(id)) && acks == old(acks)
    {
      if id in pending {
        delivered := delivered + [id];
        pending := pending - {id};
      }
    }

    method ResendMessage(id: int)
      modifies this
      ensures State() == old(State()).After(Resend(id)) && acks == old(acks)
    {
      if id in pending {
        resent := resent + [id];
      }
    }

    method SendAck(id: int, last: int, received: Bitfield)
      modifies this
      ensures State() == old(State()) && acks == old(acks) + [Ack(last, received.State().First16(), id)]
    {
      acks := acks + [Ack(last, And(received.bits, 0xffff), id)];
    }

    /** The reliable branch of `sendMessage`. */
    method SendReliable(sequencer: Sequencer, payload: Payload) returns (id: int)
      requires sequencer.Valid()
      modifies this, sequencer`nextSequenceId
      ensures sequencer.Valid() && id == old(sequencer.State()).nextId + 1
      ensures sequencer.State() == old(sequencer.State()).(nextId := id)
      ensures State() == old(State()).(pending := old(pending)[id := payload]) && acks == old(acks)
    {
      id := sequencer.NextSequenceID();
      pending := pending[id := payload];
    }

    /** `false` when the bookkeeping raised. */
    method HandleAck(sequencer: Sequencer, ack: Ack) returns (ok: bool)
      requires sequencer.Valid()
      modifies this, sequencer, sequencer.ackedSeqIds
      ensures sequencer.Valid()
      ensures
        var (s, requests, raised) := Updated(old(sequencer.State()), ack.last, ack.bits);
        && sequencer.State() == s
        && State() == old(State()).AfterAll([Clear(ack.id)] + requests)
        && ok == !raised
    {
      ClearMessage(ack.id);
      ghost var requests;
      ok, requests := sequencer.UpdateReceivedAcks(this, ack.last, ack.bits);
      AfterConcat(old(State()), [Clear(ack.id)], requests);
      assert old(State()).AfterAll([]) == old(State());
      assert [Clear(ack.id)][..0] == [];
    }
  }

  lemma {:induction false} AfterConcat(store: Store, a: seq<Request>, b: seq<Request>)
    ensures store.AfterAll(a + b) == store.AfterAll(a).AfterAll(b)
  {
    if |b| == 0 {
      assert a + b == a;
    } else {
      var front := b[..|b| - 1];
      assert (a + b)[..|a + b| - 1] == a + front;
      AfterConcat(store, a, front);
    }
  }

  lemma AfterOne(store: Store, requests: seq<Request>, request: Request)
    ensures store.AfterAll(requests + [request]) == store.AfterAll(requests).After(request)
  {
    assert (requests + [request])[..|requests|] == requests;
  }

  class Sequencer {
    var nextSequenceId: int
    var lastReceivedSeqId: int
    const receivedSeqIds: Bitfield
    var lastAckedSeqId: int
    const ackedSeqIds: Bitfield

    ghost predicate Valid() {
      receivedSeqIds != ackedSeqIds
    }

    ghost function State(): Sequence
      reads this, receivedSeqIds, ackedSeqIds
    {
      Sequence(nextSequenceId, lastReceivedSeqId, receivedSeqIds.State(), lastAckedSeqId, ackedSeqIds.State())
    }

    constructor ()
      ensures Valid() && State() == FRESH
      ensures fresh(receivedSeqIds) && fresh(ackedSeqIds)
    {
      nextSequenceId, lastReceivedSeqId, lastAckedSeqId := 1, 0, 0;
      receivedSeqIds := new Bitfield();
      ackedSeqIds := new Bitfield();
    }

    /** The mask of the code applies to the literal 1 only: IDs do not wrap in memory, and the first one is 2. */
    method NextSequenceID() returns (id: int)
      modifies this`nextSequenceId
      ensures id == old(nextSequenceId) + 1 && nextSequenceId == id
    {
      nextSequenceId := nextSequenceId + And(1, 0xffff);
      return nextSequenceId;
    }

    method ShouldHandle(connection: Connection, sequenceID: int) returns (doHandle: bool)
      requires Valid()
      modifies this, receivedSeqIds, connection
      ensures
        var (s, verdict, ack) := Handled(old(State()), sequenceID);
        && State() == s
        && doHandle == verdict
        && connection.acks == old(connection.acks) + [ack]
      ensures connection.State() == old(connection.State())
    {
      hide And, Or, Shl;
      doHandle := false;
      var sequenceGap := GetSequenceGap(sequenceID, lastReceivedSeqId);
      if sequenceGap != 0 {
        if sequenceGap > 0 {
          receivedSeqIds.ShiftLeft(sequenceGap);
          lastReceivedSeqId := sequenceID;
        } else {
          sequenceGap := -sequenceGap;
        }
        var seen := receivedSeqIds.IsSet(sequenceGap);
        doHandle := !seen.value;
        var _ := receivedSeqIds.Set(sequenceGap);
      }
      connection.SendAck(sequenceID, lastReceivedSeqId, receivedSeqIds);
    }

    /** `false` when the trim loop raised; the requests made to the connection are returned for specification. */
    method UpdateReceivedAcks(connection: Connection, remoteLast: int, remoteBits: int)
      returns (ok: bool, ghost requests: seq<Request>)
      requires Valid()
      modifies this, ackedSeqIds, connection
      ensures (State(), requests, !ok) == Updated(old(State()), remoteLast, remoteBits)
      ensures connection.State() == old(connection.State()).AfterAll(requests) &&
        connection.acks == old(connection.acks)
    {
      hide And, Or, Shl;
      requests := [];
      var sequenceGap := GetSequenceGap(remoteLast, lastReceivedSeqId);
      if sequenceGap > 0 {
        var fits, overflow := ackedSeqIds.HasCapacityFor(sequenceGap);
        if !fits {
          ok, requests := TrimAcked(connection, overflow);
          if !ok {
            return;
          }
        }
        ghost var trims := requests;
        ackedSeqIds.ShiftLeft(sequenceGap);
        lastAckedSeqId := remoteLast;
        ghost var clears := ClearSelected(connection, remoteBits);
        ackedSeqIds.Combine(remoteBits);
        var _ := ackedSeqIds.Set(sequenceGap);
        ghost var before := connection.State();
        connection.ClearMessage(remoteLast);
        AfterConcat(old(connection.State()), trims, clears);
        AfterOne(old(connection.State()), trims + clears, Clear(remoteLast));
        requests := trims + clears + [Clear(remoteLast)];
      } else if sequenceGap < 0 {
        var _ := ackedSeqIds.Set(-sequenceGap);
      } else {
        ackedSeqIds.Combine(remoteBits);
      }
      return true, requests;
    }

    /** The trim loop. */
    method TrimAcked(connection: Connection, overflow: nat) returns (ok: bool, ghost requests: seq<Request>)
      requires Valid()
      modifies ackedSeqIds, connection
      ensures (ackedSeqIds.State(), requests, !ok) == Trimmed(old(ackedSeqIds.State()), overflow, lastReceivedSeqId)
      ensures connection.State() == old(connection.State()).AfterAll(requests) &&
        connection.acks == old(connection.acks)
    {
      hide And, Or, Shl;
      requests := [];
      ghost var all := Trimmed(ackedSeqIds.State(), overflow, lastReceivedSeqId);
      assert [] + all.1 == all.1;
      for i := 0 to overflow
        invariant connection.State() == old(connection.State()).AfterAll(requests) &&
          connection.acks == old(connection.acks)
        invariant
          var (marks, rest, raised) := Trimmed(ackedSeqIds.State(), overflow - i, lastReceivedSeqId);
          all == (marks, requests + rest, raised)
      {
        var last := ackedSeqIds.CheckAndTrimLast();
        if last.None? {
          assert requests + [] == requests;
          return false, requests;
        }
        var (check, position) := last.value;
        ghost var request := if check then Clear(lastReceivedSeqId - position)
            else Resend(lastReceivedSeqId - position);
        if !check {
          connection.ResendMessage(lastReceivedSeqId - position);
        } else {
          connection.ClearMessage(lastReceivedSeqId - position);
        }
        AfterOne(old(connection.State()), requests, request);
        ghost var rest := Trimmed(ackedSeqIds.State(), overflow - i - 1, lastReceivedSeqId).1;
        assert requests + ([request] + rest) == (requests + [request]) + rest;
        requests := requests + [request];
      }
      assert requests + [] == requests;
      return true, requests;
    }

    /** The loop over the 16 bits of the ack. */
    method ClearSelected(connection: Connection, remoteBits: int) returns (ghost requests: seq<Request>)
      modifies connection
      ensures requests == Selected(ackedSeqIds.State(), remoteBits, lastAckedSeqId, 16)
      ensures connection.State() == old(connection.State()).AfterAll(requests) &&
        connection.acks == old(connection.acks)
    {
      hide And, Or, Shl, Bit;
      requests := [];
      for i := 0 to 16
        invariant requests == Selected(ackedSeqIds.State(), remoteBits, lastAckedSeqId, i)
        invariant connection.State() == old(connection.State()).AfterAll(requests) &&
          connection.acks == old(connection.acks)
      {
        var isSet := ackedSeqIds.IsSet(i + 1);
        AndOne(remoteBits, i);
        if !isSet.value && And(remoteBits, Shl(1, i)) != 0 {
          connection.ClearMessage(lastAckedSeqId - (i + 1));
          AfterOne(old(connection.State()), requests, Clear(lastAckedSeqId - (i + 1)));
          requests := requests + [Clear(lastAckedSeqId - (i + 1))];
        }
      }
    }
  }
}
