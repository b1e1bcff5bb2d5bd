/** What the steps of a server mean for one connection: who waits to be accepted, what state a connection is in, and
    which events were raised for it. */
module ServerEvents {
  import opened ServerClients

  // ---------- who waits ----------

  predicate NoneTwice<T(==)>(s: seq<T>) {
    forall i, j | 0 <= i < j < |s| :: s[i] != s[j]
  }

  /** Taking an element out: its first occurrence goes, the others stay in their order. */
  lemma {:induction false} WithoutOne<T>(s: seq<T>, x: T) returns (i: nat)
    requires x in s
    ensures i < |s| && s[i] == x && Without(s, x) == s[..i] + s[i + 1..]
  {
    if s[0] == x {
      i := 0;
    } else {
      assert s == [s[0]] + s[1..];
      var k := WithoutOne(s[1..], x);
      i := k + 1;
      assert s[1..][..k] == s[1..i] && s[1..][k + 1..] == s[i + 1..];
      assert s[..i] == [s[0]] + s[1..i];
    }
  }

  lemma OneLess<T>(s: seq<T>, i: nat)
    requires i < |s|
    ensures multiset(s[..i] + s[i + 1..]) == multiset(s) - multiset{s[i]}
  {
    assert s == s[..i] + [s[i]] + s[i + 1..];
  }

  lemma WithoutNone<T>(s: seq<T>, x: T)
    requires NoneTwice(s) && x in s
    ensures NoneTwice(Without(s, x))
    ensures forall y :: y in Without(s, x) <==> y in s && y != x
  {
    hide Without;
    var i := WithoutOne(s, x);
    var rest := s[..i] + s[i + 1..];
    assert forall k | 0 <= k < |rest| :: rest[k] == s[if k < i then k else k + 1];
    forall y | y in s && y != x
      ensures y in rest
    {
      var k :| 0 <= k < |s| && s[k] == y;
      assert rest[if k < i then k else k - 1] == y;
    }
  }

  lemma AdmittedWaits<H(!new)>(w: World<H>, h: H)
    requires h in w.lives
    ensures Admitted(w, h).pending == w.pending
  {
  }

  /** Accepting or rejecting a connection that waits leaves the others waiting, in their order; one that does not
      wait changes nothing. */
  lemma DecidedWaits<H(!new)>(w: World<H>, h: H) returns (i: nat)
    requires h in w.lives
    ensures h !in w.pending ==> Accepted(w, h) == w && Refused(w, h) == w
    ensures h in w.pending ==>
      && i < |w.pending| && w.pending[i] == h
      && Accepted(w, h).pending == w.pending[..i] + w.pending[i + 1..]
      && Refused(w, h).pending == w.pending[..i] + w.pending[i + 1..]
      && multiset(Accepted(w, h).pending) == multiset(w.pending) - multiset{h}
      && multiset(Refused(w, h).pending) == multiset(w.pending) - multiset{h}
  {
    hide Without, Admitted;
    i := 0;
    if h in w.pending {
      i := WithoutOne(w.pending, h);
      OneLess(w.pending, i);
      AdmittedWaits(w.(pending := Without(w.pending, h)), h);
    }
  }

  /** The step makes a connection wait: it asks to be accepted, there is room, and it has no entry yet. */
  predicate Asks<H(==)>(w: World<H>, step: Step<H>, h: H) {
    step == Step.Connect(h, true) && h in w.lives && |w.clients| < w.maxCount && h !in w.clients.Values
  }

  predicate Decides<H(==)>(step: Step<H>, h: H) {
    step == Step.Accept(h) || step == Step.Reject(h)
  }

  lemma StepWaits<H(!new)>(w: World<H>, step: Step<H>, h: H)
    requires Possible(w, step) && NoneTwice(w.pending)
    ensures NoneTwice(Next(w, step).pending)
    ensures h in Next(w, step).pending <==> (h in w.pending || Asks(w, step, h)) && !Decides(step, h)
    ensures Asks(w, step, h) && h !in w.pending ==> Next(w, step).pending == w.pending + [h]
  {
    hide Without, Admitted, NoneTwice;
    match step
    case Attempt(g) =>
    case Connect(g, asks) =>
      var v := MadePending(w, g);
      AdmittedWaits(v, g);
      if g !in w.pending {
        AppendNew(w.pending, g);
      }
    case Accept(g) =>
      if g in w.pending {
        AdmittedWaits(w.(pending := Without(w.pending, g)), g);
        WithoutNone(w.pending, g);
      }
    case Reject(g) =>
      if g in w.pending {
        WithoutNone(w.pending, g);
      }
    case Welcome(g) =>
    case Disconnect(g) =>
  }

  lemma AppendNew<T>(s: seq<T>, x: T)
    requires NoneTwice(s) && x !in s
    ensures NoneTwice(s + [x])
  {
  }

  /** The connection was put there by step `i`, and not accepted or rejected since. */
  predicate WaitsSince<H(==)>(w: World<H>, steps: seq<Step<H>>, h: H, i: nat) {
    && i < |steps| && Asks(After(w, steps[..i]), steps[i], h)
    && forall j | i < j < |steps| :: !Decides(steps[j], h)
  }

  /** Over every run: nobody waits twice, and a connection waits exactly when some step put it there and it was neither
      accepted nor rejected since. */
  lemma {:induction false} RunWaits<H(!new)>(w: World<H>, steps: seq<Step<H>>, h: H)
    requires w.pending == []
    ensures NoneTwice(After(w, steps).pending)
    ensures h in After(w, steps).pending <==> exists i: nat :: WaitsSince(w, steps, h, i)
  {
    hide Next, Possible, NoneTwice, Asks, WaitsSince;
    if |steps| == 0 {
      NobodyWaits(w, h);
    } else {
      var front, step := steps[..|steps| - 1], steps[|steps| - 1];
      RunWaits(w, front, h);
      var v := After(w, front);
      WaitsOn(w, steps, h);
      if Possible(v, step) {
        StepWaits(v, step, h);
      } else {
        ImpossibleWaits(w, front, step, h);
      }
    }
  }

  lemma NobodyWaits<H(!new)>(w: World<H>, h: H)
    requires w.pending == []
    ensures NoneTwice(After(w, []).pending) && After(w, []) == w && h !in w.pending
    ensures forall i: nat :: !WaitsSince(w, [], h, i)
  {
  }

  lemma WaitsOn<H(!new)>(w: World<H>, steps: seq<Step<H>>, h: H)
    requires |steps| > 0
    ensures
      var front, step := steps[..|steps| - 1], steps[|steps| - 1];
      (exists i: nat :: WaitsSince(w, steps, h, i)) <==>
      (Asks(After(w, front), step, h) || (exists i: nat :: WaitsSince(w, front, h, i))) && !Decides(step, h)
  {
    hide After;
    var n := |steps| - 1;
    var front, step := steps[..n], steps[n];
    forall i: nat | i < n
      ensures front[..i] == steps[..i] && front[i] == steps[i]
    {
    }
    if i: nat :| WaitsSince(w, steps, h, i) {
      if i < n {
        assert WaitsSince(w, front, h, i);
      }
    }
    if Asks(After(w, front), step, h) {
      assert WaitsSince(w, steps, h, n);
    } else if (exists i: nat :: WaitsSince(w, front, h, i)) && !Decides(step, h) {
      var i: nat :| WaitsSince(w, front, h, i);
      assert WaitsSince(w, steps, h, i);
    }
  }

  /** Who waits is known to the server, so that accepting or rejecting it is possible. */
  lemma ImpossibleWaits<H(!new)>(w: World<H>, front: seq<Step<H>>, step: Step<H>, h: H)
    requires w.pending == [] && !Possible(After(w, front), step)
    ensures !Asks(After(w, front), step, h)
    ensures Decides(step, h) ==> h !in After(w, front).pending
  {
    hide After, Next;
    PendingKnown(w, front);
  }

  lemma {:induction false} PendingKnown<H(!new)>(w: World<H>, steps: seq<Step<H>>)
    requires w.pending == []
    ensures forall h | h in After(w, steps).pending :: h in After(w, steps).lives
  {
    hide Next, Possible;
    if |steps| > 0 {
      PendingKnown(w, steps[..|steps| - 1]);
      var v := After(w, steps[..|steps| - 1]);
      if Possible(v, steps[|steps| - 1]) {
        StepKnown(v, steps[|steps| - 1]);
      }
    }
  }

  lemma StepKnown<H(!new)>(w: World<H>, step: Step<H>)
    requires Possible(w, step) && forall h | h in w.pending :: h in w.lives
    ensures forall h | h in Next(w, step).pending :: h in Next(w, step).lives
  {
    hide Without;
    if step.Accept? || step.Reject? {
      if step.h in w.pending {
        var i := WithoutOne(w.pending, step.h);
      }
    }
  }

  // ---------- the state of a connection ----------

  /** The step ends the connection: it is disconnected; it waits and is rejected, or accepted by a full server; or it
      connects to a full one, or asks to be accepted when it is there or waits already. */
  predicate Closes<H(==)>(w: World<H>, step: Step<H>) {
    match step
    case Attempt(_) => false
    case Connect(h, asks) => |w.clients| >= w.maxCount || (asks && (h in w.clients.Values || h in w.pending))
    case Accept(h) => h in w.pending && |w.clients| >= w.maxCount
    case Reject(h) => h in w.pending
    case Welcome(_) => false
    case Disconnect(_) => true
  }

  /** What a step makes of its connection. */
  lemma StepStatus<H(!new)>(w: World<H>, step: Step<H>)
    requires Possible(w, step) && step.h in w.lives
    ensures step.h in Next(w, step).lives
    ensures
      var before, after := w.lives[step.h].status, Next(w, step).lives[step.h].status;
      && (after == NotConnected <==> before == NotConnected || Closes(w, step))
      && (after == Connected <==> (before == Connected && !Closes(w, step)) || (before == Pending && step.Welcome?))
      && (after == Pending <==>
            && !Closes(w, step)
            && ((before == Pending && !step.Welcome?) || (before == Connecting && step.Connect?)))
  {
    hide Without;
  }

  /** Over every run, a connection that is known is closed exactly when a step closed it, or when it was closed from
      the beginning. */
  lemma {:induction false} RunClosed<H(!new)>(w: World<H>, steps: seq<Step<H>>, h: H)
    ensures h in w.lives ==> h in After(w, steps).lives
    ensures h in After(w, steps).lives ==>
      (After(w, steps).lives[h].status == NotConnected <==>
       (h in w.lives && w.lives[h].status == NotConnected) || exists i: nat :: ClosedBy(w, steps, h, i))
  {
    hide Next, Possible, Closes, ClosedBy;
    if |steps| == 0 {
      NotClosed(w, h);
    } else {
      var front, step := steps[..|steps| - 1], steps[|steps| - 1];
      RunClosed(w, front, h);
      ClosedOn(w, steps, h);
      StepClosed(After(w, front), step, h);
      KnownFirst(w, front, h);
    }
  }

  predicate ClosedBy<H(==)>(w: World<H>, steps: seq<Step<H>>, h: H, i: nat) {
    && i < |steps| && steps[i].h == h
    && h in After(w, steps[..i]).lives && Closes(After(w, steps[..i]), steps[i])
  }

  lemma NotClosed<H(!new)>(w: World<H>, h: H)
    ensures After(w, []) == w && forall i: nat :: !ClosedBy(w, [], h, i)
  {
  }

  lemma ClosedOn<H(!new)>(w: World<H>, steps: seq<Step<H>>, h: H)
    requires |steps| > 0
    ensures
      var front, step := steps[..|steps| - 1], steps[|steps| - 1];
      (exists i: nat :: ClosedBy(w, steps, h, i)) <==>
      || (exists i: nat :: ClosedBy(w, front, h, i))
      || (step.h == h && h in After(w, front).lives && Closes(After(w, front), step))
  {
    hide After, Closes;
    var n := |steps| - 1;
    var front := steps[..n];
    forall i: nat | i < n
      ensures front[..i] == steps[..i] && front[i] == steps[i]
    {
    }
    if i: nat :| ClosedBy(w, steps, h, i) {
      assert i < n ==> ClosedBy(w, front, h, i);
    }
    if i: nat :| ClosedBy(w, front, h, i) {
      assert ClosedBy(w, steps, h, i);
    }
    if steps[n].h == h && h in After(w, front).lives && Closes(After(w, front), steps[n]) {
      assert ClosedBy(w, steps, h, n);
    }
  }

  lemma StepClosed<H(!new)>(w: World<H>, step: Step<H>, h: H)
    ensures
      var v := if Possible(w, step) then Next(w, step) else w;
      && (h in w.lives ==> h in v.lives)
      && (h in w.lives ==>
            (v.lives[h].status == NotConnected <==>
             w.lives[h].status == NotConnected || (step.h == h && Closes(w, step))))
      && (h !in w.lives && h in v.lives ==> v.lives[h].status == Connecting)
  {
    hide Without, Next;
    if Possible(w, step) {
      if h in w.lives {
        if h == step.h {
          StepStatus(w, step);
        } else {
          OtherLife(w, step, h);
        }
      } else if h in Next(w, step).lives {
        NewLife(w, step, h);
      }
    }
  }

  lemma NewLife<H(!new)>(w: World<H>, step: Step<H>, h: H)
    requires Possible(w, step) && h !in w.lives && h in Next(w, step).lives
    ensures step == Attempt(h) && Next(w, step).lives[h] == Life(Connecting, 0, [])
  {
    hide Without;
  }

  lemma {:induction false} KnownFirst<H(!new)>(w: World<H>, steps: seq<Step<H>>, h: H)
    ensures h !in After(w, steps).lives ==> h !in w.lives && forall i: nat :: !ClosedBy(w, steps, h, i)
  {
    hide Next, Possible, Closes;
    if |steps| == 0 {
      NotClosed(w, h);
    } else {
      var front, step := steps[..|steps| - 1], steps[|steps| - 1];
      KnownFirst(w, front, h);
      ClosedOn(w, steps, h);
      StepClosed(After(w, front), step, h);
    }
  }

  // ---------- the events ----------

  function EventsOf<H(==)>(w: World<H>, h: H): seq<Event> {
    if h in w.lives then w.lives[h].events else []
  }

  predicate Meets<H(==)>(w: World<H>, step: Step<H>, h: H, status: Status) {
    step.h == h && h in w.lives && w.lives[h].status == status
  }

  /** A disconnect raises `ClientDisconnected` for a connection that was connected and `ConnectionFailed` for one that
      was pending; a welcome raises `ClientConnected` for one that was pending; nothing else raises anything. */
  lemma StepEvents<H(!new)>(w: World<H>, step: Step<H>, h: H)
    requires Possible(w, step)
    ensures EventsOf(Next(w, step), h) == EventsOf(w, h) +
              if step.Disconnect? && Meets(w, step, h, Connected) then [ClientDisconnected]
              else if step.Disconnect? && Meets(w, step, h, Pending) then [ConnectionFailed]
              else if step.Welcome? && Meets(w, step, h, Pending) then [ClientConnected]
              else []
  {
    hide Without;
    assert EventsOf(w, h) + [] == EventsOf(w, h);
    assert forall events: seq<Event> :: events + [] == events;
  }

  /** How many of the disconnects, or of the welcomes, met the connection in this state. */
  function Times<H(==)>(w: World<H>, steps: seq<Step<H>>, h: H, disconnect: bool, status: Status): nat {
    if |steps| == 0 then 0
    else
      var front, step := steps[..|steps| - 1], steps[|steps| - 1];
      var counts := if disconnect then step.Disconnect? else step.Welcome?;
      Times(w, front, h, disconnect, status) + if counts && Meets(After(w, front), step, h, status) then 1 else 0
  }

  /** Over every run, each event was raised exactly as often as a step met the connection in the state that calls for
      it: so no disconnect of a connected client passes without its event. */
  lemma {:induction false} RunEvents<H(!new)>(w: World<H>, steps: seq<Step<H>>, h: H)
    ensures
      var before, after := multiset(EventsOf(w, h)), multiset(EventsOf(After(w, steps), h));
      && after[ClientDisconnected] == before[ClientDisconnected] + Times(w, steps, h, true, Connected)
      && after[ConnectionFailed] == before[ConnectionFailed] + Times(w, steps, h, true, Pending)
      && after[ClientConnected] == before[ClientConnected] + Times(w, steps, h, false, Pending)
  {
    hide Next, EventsOf;
    if |steps| > 0 {
      var front, step := steps[..|steps| - 1], steps[|steps| - 1];
      RunEvents(w, front, h);
      var v := After(w, front);
      if Possible(v, step) {
        StepEvents(v, step, h);
      }
    }
  }

  /** A client that connects, is welcomed and leaves: two events. */
  lemma LeavesWithEvent()
    ensures
      var w := After(Started(1, map[]), [Attempt(7), Step.Connect(7, false), Welcome(7), Disconnect(7)]);
      7 in w.lives && w.lives[7] == Life(NotConnected, 1, [ClientConnected, ClientDisconnected]) && w.available == [1]
  {
    hide After;
    var w: World<int> := Started(1, map[]);
    var steps := [Attempt(7), Step.Connect(7, false), Welcome(7), Disconnect(7)];
    assert IdsUpTo(0) == [] && IdsUpTo(1) == [1];
    assert steps[..0] == [];
    EmptyRun(w);
    AppendStep(w, steps, 0);
    AppendStep(w, steps, 1);
    AppendStep(w, steps, 2);
    AppendStep(w, steps, 3);
    assert steps[..4] == steps;
    var none: seq<Event> := [];
    assert none + [ClientConnected] == [ClientConnected];
  }
}
