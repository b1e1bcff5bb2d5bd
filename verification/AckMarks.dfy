/** What the sender makes of its marks: what an acknowledgement has marked is never asked for again, and exactly what
    it asks for, of what is pending, is sent again. */
module AckMarks {
  import opened PyInt
  import opened SequenceGap
  import opened Bitfields
  import opened ReliableSequencer
  import opened ReliableChannel
  import opened DistinctIds

  predicate Marked(s: Sequence, p: int) {
    p >= 1 && Bit(s.acked.bits, p - 1)
  }

  /** An acknowledgement that goes too far ahead ends in the exception, and changes no mark. */
  predicate TooFar(s: Sequence, ack: Ack) {
    GetSequenceGap(ack.last, s.lastReceived) > 0 && GetSequenceGap(ack.last, s.lastReceived) > s.acked.capacity
  }

  /** The positions that an acknowledgement marks: those of its bits unless it goes back, and the one it is away. */
  predicate MarkedBy(s: Sequence, ack: Ack, p: int) {
    var gap := GetSequenceGap(ack.last, s.lastReceived);
    p >= 1 && !TooFar(s, ack) && ((gap >= 0 && Bit(ack.bits, p - 1)) || p == gap || p == -gap)
  }

  /** Where a position gets to by an acknowledgement: all move along when it goes forward. */
  function Place(s: Sequence, ack: Ack, p: int): int {
    var gap := GetSequenceGap(ack.last, s.lastReceived);
    if gap > 0 && !TooFar(s, ack) then p + gap else p
  }

  /** The marks after an acknowledgement are those it makes and, in their new places, those that were there. */
  lemma MarkedIff(s: Sequence, ack: Ack, p: int)
    ensures
      var next := Updated(s, ack.last, ack.bits).0;
      Marked(next, p) <==> MarkedBy(s, ack, p) || Marked(s, p - (Place(s, ack, p) - p))
    ensures Marked(s, p) ==> Marked(Updated(s, ack.last, ack.bits).0, Place(s, ack, p))
  {
    hide Bit, Updated, GetSequenceGap;
    RaisesIff(s, ack.last, ack.bits);
    if p >= 1 {
      UpdatedMarks(s, ack, p - 1);
      UpdatedMarks(s, ack, Place(s, ack, p) - 1);
    }
  }

  // ---------- runs ----------

  /** Where the position that is `p` after `i` steps is after `n` steps. */
  function PlaceAfter(steps: seq<Step>, side: Side, i: nat, n: nat, p: int): int
    requires n <= |steps|
    decreases n
  {
    if n <= i then p
    else
      var q, step := PlaceAfter(steps, side, i, n - 1, p), steps[n - 1];
      if step.Acknowledge? && step.to == side then Place(End(After(steps[..n - 1]), side).s, step.ack, q) else q
  }

  lemma StepMarks(sys: System, step: Step, side: Side, p: int)
    requires Marked(End(sys, side).s, p)
    ensures Marked(End(Next(sys, step), side).s,
                   if step.Acknowledge? && step.to == side then Place(End(sys, side).s, step.ack, p) else p)
  {
    hide Bit, Updated, Place;
    if step.Acknowledge? && step.to == side {
      MarkedIff(End(sys, side).s, step.ack, p);
    }
  }

  lemma {:induction false} StaysMarked(steps: seq<Step>, side: Side, i: nat, n: nat, p: int)
    requires i <= n <= |steps| && Marked(End(After(steps[..i]), side).s, p)
    ensures Marked(End(After(steps[..n]), side).s, PlaceAfter(steps, side, i, n, p))
    decreases n
  {
    hide Marked, Next, Place;
    if i < n {
      StaysMarked(steps, side, i, n - 1, p);
      assert steps[..n][..n - 1] == steps[..n - 1];
      StepMarks(After(steps[..n - 1]), steps[n - 1], side, PlaceAfter(steps, side, i, n - 1, p));
    }
  }

  /** Whatever happens after an acknowledgement: a position that it has marked is never again one of those that an
      acknowledgement makes the sequencer ask for. */
  lemma NeverAskedAgain(steps: seq<Step>, side: Side, i: nat, n: nat, p: int, later: Ack)
    requires i < n <= |steps| && steps[i].Acknowledge? && steps[i].to == side
    requires MarkedBy(End(After(steps[..i]), side).s, steps[i].ack, p)
    ensures
      var s := End(After(steps[..n]), side).s;
      Resend(s.lastReceived - PlaceAfter(steps, side, i + 1, n, p)) !in Updated(s, later.last, later.bits).1
  {
    hide Bit, Updated, TrimmedAt, MarkedBy, PlaceAfter;
    assert steps[..i + 1][..i] == steps[..i];
    MarkedIff(End(After(steps[..i]), side).s, steps[i].ack, p);
    StaysMarked(steps, side, i + 1, n, p);
    var s := End(After(steps[..n]), side).s;
    UpdatedClears(s, later, s.lastReceived - PlaceAfter(steps, side, i + 1, n, p));
  }

  // ---------- what is sent again ----------

  /** The IDs that some requests lead to being sent again, in order. */
  function Again(store: Store, requests: seq<Request>): seq<int> {
    if |requests| == 0 then []
    else
      var front, last := requests[..|requests| - 1], requests[|requests| - 1];
      Again(store, front) +
      if last.Resend? && last.id in store.pending && Clear(last.id) !in front then [last.id] else []
  }

  lemma {:induction false} ResentExactly(store: Store, requests: seq<Request>)
    ensures store.AfterAll(requests).resent == store.resent + Again(store, requests)
  {
    if |requests| > 0 {
      var front := requests[..|requests| - 1];
      ResentExactly(store, front);
      RemovedIff(store, front, requests[|requests| - 1].id);
      assert store.resent + Again(store, front) + [] == store.resent + Again(store, front);
    }
  }

  lemma {:induction false} AgainIn(store: Store, requests: seq<Request>, id: int)
    requires Clear(id) !in requests
    ensures id in Again(store, requests) <==> id in store.pending && Resend(id) in requests
  {
    if |requests| > 0 {
      var front := requests[..|requests| - 1];
      assert requests == front + [requests[|requests| - 1]];
      AgainIn(store, front, id);
    }
  }

  lemma {:induction false} AgainAsked(store: Store, requests: seq<Request>, id: int)
    requires id in Again(store, requests)
    ensures id in store.pending && Resend(id) in requests
  {
    var front := requests[..|requests| - 1];
    assert requests == front + [requests[|requests| - 1]];
    if id in Again(store, front) {
      AgainAsked(store, front, id);
    }
  }

  lemma {:induction false} AgainNot(store: Store, first: int, others: seq<Request>)
    ensures first !in Again(store, [Clear(first)] + others)
  {
    var requests := [Clear(first)] + others;
    if |others| == 0 {
      assert requests[..0] == [];
    } else {
      assert requests[..|requests| - 1] == [Clear(first)] + others[..|others| - 1];
      AgainNot(store, first, others[..|others| - 1]);
    }
  }

  lemma {:induction false} AgainClears(store: Store, a: seq<Request>, b: seq<Request>)
    requires forall r | r in b :: r.Clear?
    ensures Again(store, a + b) == Again(store, a)
  {
    if |b| == 0 {
      assert a + b == a;
    } else {
      assert (a + b)[..|a + b| - 1] == a + b[..|b| - 1];
      assert b[|b| - 1] in b;
      AgainClears(store, a, b[..|b| - 1]);
      assert Again(store, a) + [] == Again(store, a);
    }
  }

  /** The requests of the trim loop are for one ID after the other. */
  lemma {:induction false} TrimmedInOrder(acked: Marks, n: nat, base: int)
    ensures forall i | 0 <= i < |Trimmed(acked, n, base).1| :: Trimmed(acked, n, base).1[i].id == base - acked.count + i
    decreases n
  {
    hide Bit;
    if n > 0 && acked.count >= 1 {
      TrimmedInOrder(acked.(count := acked.count - 1), n - 1, base);
    }
  }

  lemma {:induction false} AgainOnce(store: Store, first: int, trims: seq<Request>, low: int)
    requires forall i | 0 <= i < |trims| :: trims[i].id == low + i
    ensures Distinct(Again(store, [Clear(first)] + trims))
    ensures forall id | id in Again(store, [Clear(first)] + trims) :: low <= id < low + |trims|
  {
    hide Distinct;
    var requests := [Clear(first)] + trims;
    if |trims| == 0 {
      assert requests[..0] == [];
      NoneTwice();
    } else {
      var front := trims[..|trims| - 1];
      assert requests[..|requests| - 1] == [Clear(first)] + front;
      AgainOnce(store, first, front, low);
      var again := Again(store, [Clear(first)] + front);
      assert again + [] == again;
      DistinctAppend(again, trims[|trims| - 1].id);
    }
  }

  lemma NoneTwice()
    ensures Distinct([])
  {
  }

  /** The requests of an acknowledgement: the trim loop's, and then only clears. */
  lemma UpdatedParts(s: Sequence, ack: Ack) returns (trims: seq<Request>, clears: seq<Request>)
    ensures Updated(s, ack.last, ack.bits).1 == trims + clears && forall r | r in clears :: r.Clear?
    ensures forall i | 0 <= i < |trims| :: trims[i].id == s.lastReceived - s.acked.count + i
    ensures forall id :: Clear(id) in trims ==> Resend(id) !in trims
  {
    hide Bit, Trimmed, Selected, Or, Shl, GetSequenceGap;
    var gap := GetSequenceGap(ack.last, s.lastReceived);
    trims, clears := [], [];
    if gap > 0 {
      var overflow := s.acked.Overflow(gap);
      var marks := s.acked;
      if overflow >= 0 {
        trims := Trimmed(s.acked, overflow, s.lastReceived).1;
        marks := Trimmed(s.acked, overflow, s.lastReceived).0;
        TrimmedInOrder(s.acked, overflow, s.lastReceived);
        forall id
          ensures Clear(id) in trims ==> Resend(id) !in trims
        {
          TrimmedClears(s.acked, overflow, s.lastReceived, id);
        }
      }
      if !Updated(s, ack.last, ack.bits).2 {
        clears := Selected(marks.Shifted(gap), ack.bits, ack.last, 16) + [Clear(ack.last)];
        forall r | r in clears
          ensures r.Clear?
        {
          SelectedClears(marks.Shifted(gap), ack.bits, ack.last, 16, r.id);
        }
        assert trims + clears == trims + Selected(marks.Shifted(gap), ack.bits, ack.last, 16) + [Clear(ack.last)];
      } else {
        assert trims + clears == trims;
      }
    }
  }

  /** An acknowledgement sends again exactly the pending messages at the positions that it trims and that are not
      marked, other than the one it answers, and each of them once. */
  lemma AckResendsExactly(s: Sequence, store: Store, ack: Ack) returns (again: seq<int>)
    ensures AckedStore(s, store, ack).resent == store.resent + again && Distinct(again)
    ensures forall id :: id in again <==>
              && id in store.pending && id != ack.id
              && TrimmedAt(s, ack, s.lastReceived - id) && !Marked(s, s.lastReceived - id)
  {
    hide Bit, Updated, TrimmedAt, Again, Distinct;
    var requests := [Clear(ack.id)] + Updated(s, ack.last, ack.bits).1;
    again := Again(store, requests);
    ResentExactly(store, requests);
    var trims, clears := UpdatedParts(s, ack);
    var front := [Clear(ack.id)] + trims;
    assert requests == front + clears;
    AgainClears(store, front, clears);
    AgainOnce(store, ack.id, trims, s.lastReceived - s.acked.count);
    forall id
      ensures id in again <==>
                && id in store.pending && id != ack.id
                && TrimmedAt(s, ack, s.lastReceived - id) && !Marked(s, s.lastReceived - id)
    {
      SentAgainIff(s, store, ack, trims, clears, id);
    }
  }

  lemma SentAgainIff(s: Sequence, store: Store, ack: Ack, trims: seq<Request>, clears: seq<Request>, id: int)
    requires Updated(s, ack.last, ack.bits).1 == trims + clears && forall r | r in clears :: r.Clear?
    requires Clear(id) in trims ==> Resend(id) !in trims
    ensures id in Again(store, [Clear(ack.id)] + trims) <==>
              && id in store.pending && id != ack.id
              && TrimmedAt(s, ack, s.lastReceived - id) && !Marked(s, s.lastReceived - id)
  {
    hide Bit, Updated, TrimmedAt, Again;
    var front := [Clear(ack.id)] + trims;
    UpdatedClears(s, ack, id);
    TrimmedIsPositive(s, ack, s.lastReceived - id);
    assert Resend(id) in front <==> Resend(id) in trims + clears;
    AgainNot(store, ack.id, trims);
    if id in Again(store, front) {
      AgainAsked(store, front, id);
    } else if Clear(id) !in front {
      AgainIn(store, front, id);
    }
  }

  lemma TrimmedIsPositive(s: Sequence, ack: Ack, p: int)
    ensures TrimmedAt(s, ack, p) ==> p >= 1
  {
  }
}
