/** The delayed events of a peer. */
module Peers {

  datatype Event = Event(priority: int, name: nat)

  /** What an event may do when it is called: schedule another one, possibly itself, or stop the clock. */
  datatype Effect = Later(delay: int, name: nat) | Stop

  /** The events to be called, in the order of the queue. */
  function Due(queue: seq<Event>, now: int): seq<Event> {
    if |queue| == 0 then []
    else Due(queue[..|queue| - 1], now) + if queue[|queue| - 1].priority < now then [queue[|queue| - 1]] else []
  }

  /** The queue and the time after some effects. */
  function Applied(queue: seq<Event>, now: int, effects: seq<Effect>): (seq<Event>, int) {
    if |effects| == 0 then (queue, now)
    else
      var (q, t) := Applied(queue, now, effects[..|effects| - 1]);
      match effects[|effects| - 1]
      case Later(delay, name) => (q + [Event(delay + t, name)], t)
      case Stop => ([], 0)
  }

  /** No delay is negative. */
  predicate Forward(effects: seq<Effect>) {
    forall effect | effect in effects :: effect.Later? ==> effect.delay >= 0
  }

  predicate Ordered(events: seq<Event>) {
    forall i, j | 0 <= i < j < |events| :: events[i].priority <= events[j].priority
  }

  // ---------- facts about due events ----------

  lemma {:induction false} DueConcat(a: seq<Event>, b: seq<Event>, now: int)
    ensures Due(a + b, now) == Due(a, now) + Due(b, now)
  {
    if |b| == 0 {
      assert a + b == a;
    } else {
      DueConcat(a, b[..|b| - 1], now);
      assert (a + b)[..|a + b| - 1] == a + b[..|b| - 1];
    }
  }

  lemma DueOne(event: Event, now: int)
    ensures Due([event], now) == if event.priority < now then [event] else []
  {
    assert [event][..0] == [];
  }

  lemma {:induction false} DueIn(queue: seq<Event>, now: int, event: Event)
    ensures event in Due(queue, now) <==> event in queue && event.priority < now
  {
    if |queue| > 0 {
      DueIn(queue[..|queue| - 1], now, event);
      assert queue == queue[..|queue| - 1] + [queue[|queue| - 1]];
    }
  }

  lemma DueWithout(queue: seq<Event>, i: nat, now: int)
    requires i < |queue| && queue[i].priority < now
    ensures multiset(Due(queue, now)) == multiset(Due(queue[..i] + queue[i + 1..], now)) + multiset{queue[i]}
    ensures |Due(queue, now)| == |Due(queue[..i] + queue[i + 1..], now)| + 1
  {
    var a, b := queue[..i], queue[i + 1..];
    assert queue == a + ([queue[i]] + b);
    DueConcat(a, [queue[i]] + b, now);
    DueConcat([queue[i]], b, now);
    DueOne(queue[i], now);
    DueConcat(a, b, now);
  }

  predicate Least(queue: seq<Event>, i: nat) {
    i < |queue| && forall j | 0 <= j < |queue| :: queue[i].priority <= queue[j].priority
  }

  lemma {:induction false} LeastExists(queue: seq<Event>) returns (i: nat)
    requires |queue| > 0
    ensures Least(queue, i)
  {
    i := 0;
    if |queue| > 1 {
      var k := LeastExists(queue[..|queue| - 1]);
      i := if queue[|queue| - 1].priority < queue[k].priority then |queue| - 1 else k;
    }
  }

  lemma LeastBelow(queue: seq<Event>, i: nat)
    requires Least(queue, i)
    ensures forall e | e in queue :: queue[i].priority <= e.priority
  {
  }

  /** The first event decides whether anything is due. */
  lemma NothingDue(queue: seq<Event>, now: int, i: nat)
    requires Least(queue, i)
    ensures Due(queue, now) == [] <==> queue[i].priority >= now
  {
    DueIn(queue, now, queue[i]);
    if Due(queue, now) != [] {
      DueIn(queue, now, Due(queue, now)[0]);
    }
  }

  /** Without a stop, the effects add to the queue, and what is due stays the same exactly when no delay is
      negative; after a stop with no negative delay behind it, nothing is due. */
  lemma {:induction false} AppliedDue(queue: seq<Event>, now: int, effects: seq<Effect>)
    ensures
      var (q, t) := Applied(queue, now, effects);
      && (Stop !in effects ==> t == now && queue <= q && Due(queue, now) <= Due(q, t))
      && (Stop !in effects ==> (Due(q, t) == Due(queue, now) <==> Forward(effects)))
      && (Stop in effects ==> t == 0 && (Forward(effects) ==> Due(q, t) == []))
  {
    hide Applied, Forward, Due;
    AppliedLast(queue, now, effects);
    if |effects| > 0 {
      var front, last := effects[..|effects| - 1], effects[|effects| - 1];
      AppliedDue(queue, now, front);
      var (q, t) := Applied(queue, now, front);
      if last.Later? {
        DueConcat(q, [Event(last.delay + t, last.name)], t);
        DueOne(Event(last.delay + t, last.name), t);
      } else {
        DueNone();
      }
    }
  }

  /** The events that some effects schedule into the past. */
  function Past(effects: seq<Effect>): nat {
    if |effects| == 0 then 0
    else
      var last := effects[|effects| - 1];
      Past(effects[..|effects| - 1]) + if last.Later? && last.delay < 0 then 1 else 0
  }

  lemma {:induction false} PastIff(effects: seq<Effect>)
    ensures Past(effects) == 0 <==> Forward(effects)
  {
    hide Applied, Forward;
    AppliedLast([], 0, effects);
    if |effects| > 0 {
      PastIff(effects[..|effects| - 1]);
    }
  }

  /** How many events are due after some effects, of `d` before: one more for each that is scheduled into the past,
      and none behind a stop. */
  function Left(d: nat, effects: seq<Effect>): nat {
    if |effects| == 0 then d
    else
      var left := Left(d, effects[..|effects| - 1]);
      match effects[|effects| - 1]
      case Later(delay, _) => if delay < 0 then left + 1 else left
      case Stop => 0
  }

  /** The number of due events after a call depends on their number before and on the effects alone. */
  lemma {:induction false} PastDue(queue: seq<Event>, now: int, effects: seq<Effect>)
    ensures |Due(Applied(queue, now, effects).0, Applied(queue, now, effects).1)| == Left(|Due(queue, now)|, effects)
    ensures Stop !in effects ==> Left(|Due(queue, now)|, effects) == |Due(queue, now)| + Past(effects)
  {
    hide Applied, Forward, Due;
    AppliedLast(queue, now, effects);
    if |effects| > 0 {
      var front, last := effects[..|effects| - 1], effects[|effects| - 1];
      PastDue(queue, now, front);
      var (q, t) := Applied(queue, now, front);
      if last.Later? {
        DueConcat(q, [Event(last.delay + t, last.name)], t);
        DueOne(Event(last.delay + t, last.name), t);
      } else {
        DueNone();
      }
    }
  }

  lemma DueNone()
    ensures Due([], 0) == []
  {
  }

  lemma AppliedLast(queue: seq<Event>, now: int, effects: seq<Effect>)
    ensures |effects| == 0 ==> Applied(queue, now, effects) == (queue, now) && Forward(effects)
    ensures |effects| > 0 ==>
      var front, last := effects[..|effects| - 1], effects[|effects| - 1];
      var (q, t) := Applied(queue, now, front);
      && Applied(queue, now, effects) == (if last.Stop? then ([], 0) else (q + [Event(last.delay + t, last.name)], t))
      && (Stop in effects <==> Stop in front || last == Stop)
      && (Forward(effects) <==> Forward(front) && (last.Later? ==> last.delay >= 0))
  {
    if |effects| > 0 {
      assert effects == effects[..|effects| - 1] + [effects[|effects| - 1]];
    }
  }

  // ---------- drains ----------

  /** One turn of the drain: the place of the event that is called, and what it does. */
  datatype Turn = Turn(place: nat, effects: seq<Effect>)

  /** A drain under way: the queue and the time, the events called and, unless one of them stopped the clock, those
      scheduled, in order. */
  datatype Drain = Drain(queue: seq<Event>, now: int, called: seq<Event>, scheduled: seq<Event>)

  function Drained(queue: seq<Event>, now: int, turns: seq<Turn>): Drain {
    if |turns| == 0 then Drain(queue, now, [], [])
    else
      var d, turn := Drained(queue, now, turns[..|turns| - 1]), turns[|turns| - 1];
      if turn.place >= |d.queue| then d
      else
        var (q, t) := Applied(d.queue[..turn.place] + d.queue[turn.place + 1..], d.now, turn.effects);
        Drain(q, t, d.called + [d.queue[turn.place]], d.scheduled + Applied([], d.now, turn.effects).0)
  }

  /** As long as something is due, an event of least priority is called; which one of several is up to the queue. */
  predicate Drains(queue: seq<Event>, now: int, turns: seq<Turn>) {
    |turns| > 0 ==>
      var d := Drained(queue, now, turns[..|turns| - 1]);
      Drains(queue, now, turns[..|turns| - 1]) && Due(d.queue, d.now) != [] && Least(d.queue, turns[|turns| - 1].place)
  }

  predicate NoStop(turns: seq<Turn>) {
    forall turn | turn in turns :: Stop !in turn.effects
  }

  predicate AllForward(turns: seq<Turn>) {
    forall turn | turn in turns :: Forward(turn.effects)
  }

  /** What the `k`-th call does is `calls(k)`. */
  predicate Follows(turns: seq<Turn>, calls: nat -> seq<Effect>) {
    forall k | 0 <= k < |turns| :: turns[k].effects == calls(k)
  }

  /** The number of due events after `n` calls, of `d` before: it does not depend on which events are called. */
  function Remaining(d: nat, calls: nat -> seq<Effect>, n: nat): nat {
    if n == 0 then d
    else if Remaining(d, calls, n - 1) == 0 then 0
    else Left(Remaining(d, calls, n - 1) - 1, calls(n - 1))
  }

  ghost predicate Ends(d: nat, calls: nat -> seq<Effect>) {
    exists n: nat :: Remaining(d, calls, n) == 0
  }

  function AllPast(turns: seq<Turn>): nat {
    if |turns| == 0 then 0 else AllPast(turns[..|turns| - 1]) + Past(turns[|turns| - 1].effects)
  }

  lemma FollowsNothing(calls: nat -> seq<Effect>)
    ensures Follows([], calls)
  {
  }

  lemma FollowsStep(turns: seq<Turn>, calls: nat -> seq<Effect>, turn: Turn)
    ensures Follows(turns + [turn], calls) <==> Follows(turns, calls) && turn.effects == calls(|turns|)
  {
    var more := turns + [turn];
    assert more[|turns|] == turn;
    assert forall k | 0 <= k < |turns| :: more[k] == turns[k];
  }

  lemma DrainStep(queue: seq<Event>, now: int, turns: seq<Turn>, turn: Turn)
    ensures
      var d := Drained(queue, now, turns);
      && (Drains(queue, now, turns + [turn]) <==>
            Drains(queue, now, turns) && Due(d.queue, d.now) != [] && Least(d.queue, turn.place))
      && (turn.place < |d.queue| ==>
            var (q, t) := Applied(d.queue[..turn.place] + d.queue[turn.place + 1..], d.now, turn.effects);
            Drained(queue, now, turns + [turn]) ==
            Drain(q, t, d.called + [d.queue[turn.place]], d.scheduled + Applied([], d.now, turn.effects).0))
  {
    hide Due, Applied, Least;
    assert (turns + [turn])[..|turns|] == turns;
  }

  lemma ForwardStep(turns: seq<Turn>)
    requires |turns| > 0
    ensures
      var front, last := turns[..|turns| - 1], turns[|turns| - 1];
      && (AllForward(turns) <==> AllForward(front) && Forward(last.effects))
      && (NoStop(turns) <==> NoStop(front) && Stop !in last.effects)
  {
    hide Forward;
    assert turns == turns[..|turns| - 1] + [turns[|turns| - 1]];
  }

  /** One call, and how many events are due then. */
  lemma TurnDue(queue: seq<Event>, now: int, turns: seq<Turn>)
    requires |turns| > 0 && Drains(queue, now, turns)
    ensures
      var d, e := Drained(queue, now, turns[..|turns| - 1]), Drained(queue, now, turns);
      && |Due(d.queue, d.now)| > 0
      && |Due(e.queue, e.now)| == Left(|Due(d.queue, d.now)| - 1, turns[|turns| - 1].effects)
      && |e.called| == |d.called| + 1
      && (Stop !in turns[|turns| - 1].effects ==>
            |Due(e.queue, e.now)| == |Due(d.queue, d.now)| - 1 + Past(turns[|turns| - 1].effects) && e.now == d.now)
  {
    hide Due, Least, Applied, Left;
    var front, turn := turns[..|turns| - 1], turns[|turns| - 1];
    assert turns == front + [turn];
    DrainStep(queue, now, front, turn);
    var d := Drained(queue, now, front);
    LeastDue(d.queue, d.now, turn.place);
    DueWithout(d.queue, turn.place, d.now);
    var rest := d.queue[..turn.place] + d.queue[turn.place + 1..];
    PastDue(rest, d.now, turn.effects);
    AppliedDue(rest, d.now, turn.effects);
  }

  lemma LeastDue(queue: seq<Event>, now: int, i: nat)
    requires Least(queue, i) && Due(queue, now) != []
    ensures i < |queue| && queue[i].priority < now
  {
    NothingDue(queue, now, i);
  }

  /** Whichever events are called: after a drain of `n` turns, as many are due as their effects say. */
  lemma {:induction false} DrainRemaining(queue: seq<Event>, now: int, turns: seq<Turn>, calls: nat -> seq<Effect>)
    requires Drains(queue, now, turns) && Follows(turns, calls)
    ensures
      var d := Drained(queue, now, turns);
      |Due(d.queue, d.now)| == Remaining(|Due(queue, now)|, calls, |turns|) && |d.called| == |turns|
  {
    hide Due, Left, Follows;
    if |turns| > 0 {
      var front := turns[..|turns| - 1];
      assert turns == front + [turns[|turns| - 1]];
      FollowsStep(front, calls, turns[|turns| - 1]);
      DrainRemaining(queue, now, front, calls);
      TurnDue(queue, now, turns);
    }
  }

  lemma {:induction false} RemainingStays(d: nat, calls: nat -> seq<Effect>, m: nat, n: nat)
    requires m <= n && Remaining(d, calls, m) == 0
    ensures Remaining(d, calls, n) == 0
    decreases n
  {
    hide Left;
    if m < n {
      RemainingStays(d, calls, m, n - 1);
    }
  }

  lemma RemainingTurns(queue: seq<Event>, now: int, turns: seq<Turn>, calls: nat -> seq<Effect>, n: nat)
    requires Drains(queue, now, turns) && Follows(turns, calls) && Remaining(|Due(queue, now)|, calls, n) == 0
    ensures
      var d := Drained(queue, now, turns);
      |d.called| == |turns| && (Due(d.queue, d.now) != [] ==> |turns| < n)
  {
    hide Due, Left, Follows;
    DrainRemaining(queue, now, turns, calls);
    if n <= |turns| {
      RemainingStays(|Due(queue, now)|, calls, n, |turns|);
    }
  }

  /** `Update` has an end exactly when its condition says so: if so, there is a drain that leaves nothing due, and no
      drain can go on beyond; if not, something is due after every drain. */
  lemma EndsIff(queue: seq<Event>, now: int, calls: nat -> seq<Effect>)
    ensures Ends(|Due(queue, now)|, calls) <==>
            exists turns :: Drains(queue, now, turns) && Follows(turns, calls) && DrainedDue(queue, now, turns) == []
  {
    hide Due, Left, Follows, Drains, Drained;
    if Ends(|Due(queue, now)|, calls) {
      var n: nat :| Remaining(|Due(queue, now)|, calls, n) == 0;
      var turns := DrainTo(queue, now, calls, n);
    } else {
      forall turns | Drains(queue, now, turns) && Follows(turns, calls)
        ensures DrainedDue(queue, now, turns) != []
      {
        DrainRemaining(queue, now, turns, calls);
      }
    }
  }

  function DrainedDue(queue: seq<Event>, now: int, turns: seq<Turn>): seq<Event> {
    Due(Drained(queue, now, turns).queue, Drained(queue, now, turns).now)
  }

  /** A drain of `n` turns, or one that ended before. */
  lemma {:induction false} DrainTo(queue: seq<Event>, now: int, calls: nat -> seq<Effect>, n: nat)
    returns (turns: seq<Turn>)
    ensures Drains(queue, now, turns) && Follows(turns, calls) && |turns| <= n
    ensures |turns| == n || DrainedDue(queue, now, turns) == []
    ensures Remaining(|Due(queue, now)|, calls, n) == 0 ==> DrainedDue(queue, now, turns) == []
  {
    hide Due, Left, Follows, Least, Applied;
    if n == 0 {
      turns := [];
      FollowsNothing(calls);
    } else {
      turns := DrainTo(queue, now, calls, n - 1);
      if DrainedDue(queue, now, turns) != [] {
        var d := Drained(queue, now, turns);
        SomethingQueued(d.queue, d.now);
        var i := LeastExists(d.queue);
        var turn := Turn(i, calls(n - 1));
        DrainStep(queue, now, turns, turn);
        FollowsStep(turns, calls, turn);
        turns := turns + [turn];
        DrainRemaining(queue, now, turns, calls);
      }
    }
  }

  lemma SomethingQueued(queue: seq<Event>, now: int)
    requires Due(queue, now) != []
    ensures |queue| > 0
  {
  }

  /** Without a stop: what was due and what was scheduled into the past was called or is due. */
  lemma {:induction false} DrainCounts(queue: seq<Event>, now: int, turns: seq<Turn>)
    requires Drains(queue, now, turns) && NoStop(turns)
    ensures |DrainedDue(queue, now, turns)| + |turns| == |Due(queue, now)| + AllPast(turns)
    ensures AllPast(turns) == 0 <==> AllForward(turns)
    ensures Drained(queue, now, turns).now == now && |Drained(queue, now, turns).called| == |turns|
  {
    hide Due, Left, Forward, NoStop, AllForward, Past;
    if |turns| > 0 {
      ForwardStep(turns);
      PastIff(turns[|turns| - 1].effects);
      DrainCounts(queue, now, turns[..|turns| - 1]);
      TurnDue(queue, now, turns);
    } else {
      EmptyForward();
    }
  }

  lemma EmptyForward()
    ensures AllForward([]) && NoStop([])
  {
  }

  /** A drain that ends without a stop makes as many calls as events were due exactly when nothing was scheduled into
      the past. */
  lemma EndsOnTimeIff(queue: seq<Event>, now: int, turns: seq<Turn>)
    requires Drains(queue, now, turns) && NoStop(turns) && DrainedDue(queue, now, turns) == []
    ensures |turns| == |Due(queue, now)| <==> AllForward(turns)
  {
    hide Due, Drains, Drained, NoStop, AllForward;
    DrainCounts(queue, now, turns);
  }

  /** It never ends as long as each call schedules something into the past. */
  lemma {:induction false} NeverEnds(queue: seq<Event>, now: int, turns: seq<Turn>)
    requires Drains(queue, now, turns) && Due(queue, now) != []
    requires forall turn | turn in turns :: Stop !in turn.effects && Past(turn.effects) >= 1
    ensures DrainedDue(queue, now, turns) != []
  {
    hide Due, Left, Past;
    if |turns| > 0 {
      NeverEnds(queue, now, turns[..|turns| - 1]);
      assert turns[|turns| - 1] in turns;
      TurnDue(queue, now, turns);
    }
  }

  /** It always ends where no call schedules anything into the past. */
  lemma ForwardEnds(d: nat, calls: nat -> seq<Effect>)
    requires forall k :: Forward(calls(k))
    ensures Ends(d, calls)
  {
    ForwardRemaining(d, calls, d);
  }

  lemma {:induction false} ForwardRemaining(d: nat, calls: nat -> seq<Effect>, n: nat)
    requires forall k :: Forward(calls(k))
    ensures Remaining(d, calls, n) + n <= d || Remaining(d, calls, n) == 0
  {
    hide Left, Forward;
    if n > 0 {
      ForwardRemaining(d, calls, n - 1);
      if Remaining(d, calls, n - 1) > 0 {
        ForwardLeft(Remaining(d, calls, n - 1) - 1, calls(n - 1));
      }
    }
  }

  lemma {:induction false} ForwardLeft(d: nat, effects: seq<Effect>)
    requires Forward(effects)
    ensures Left(d, effects) <= d
  {
    hide Forward;
    AppliedLast([], 0, effects);
    if |effects| > 0 {
      ForwardLeft(d, effects[..|effects| - 1]);
    }
  }

  /** The drain that never ends: one due event, which schedules itself one millisecond into the past. After any number
      of turns, all is as it was. */
  function Spinning(n: nat): (turns: seq<Turn>)
    ensures |turns| == n
  {
    seq(n, _ => Turn(0, [Later(-1, 0)]))
  }

  function BackOne(k: nat): seq<Effect> {
    [Later(-1, 0)]
  }

  lemma {:induction false} SpinsForEver(n: nat)
    ensures Drains([Event(0, 0)], 1, Spinning(n))
    ensures Drained([Event(0, 0)], 1, Spinning(n)).queue == [Event(0, 0)]
    ensures Drained([Event(0, 0)], 1, Spinning(n)).now == 1
    ensures !Ends(1, BackOne)
  {
    hide Ends;
    var queue, turn := [Event(0, 0)], Turn(0, [Later(-1, 0)]);
    NoEnd();
    if n > 0 {
      SpinsForEver(n - 1);
      assert Spinning(n) == Spinning(n - 1) + [turn];
      DrainStep(queue, 1, Spinning(n - 1), turn);
      DueOne(Event(0, 0), 1);
      OneLater();
      assert queue[..0] + queue[1..] == [];
    }
  }

  lemma OneLater()
    ensures Applied([], 1, [Later(-1, 0)]) == ([Event(0, 0)], 1)
  {
    var effects := [Later(-1, 0)];
    AppliedLast([], 1, effects);
    assert effects[..0] == [];
    AppliedLast([], 1, []);
    var none: seq<Event> := [];
    assert none + [Event(0, 0)] == [Event(0, 0)];
  }

  lemma NoEnd()
    ensures !Ends(1, BackOne)
  {
    forall n: nat
      ensures Remaining(1, BackOne, n) == 1
    {
      OneRemains(n);
    }
  }

  lemma {:induction false} OneRemains(n: nat)
    ensures Remaining(1, BackOne, n) == 1
  {
    var effects := [Later(-1, 0)];
    assert effects[..0] == [];
    assert Left(0, effects) == 1;
    if n > 0 {
      OneRemains(n - 1);
    }
  }

  /** Nothing in `later` comes before anything in `earlier`. */
  predicate Before(earlier: seq<Event>, later: seq<Event>) {
    forall a, b | a in earlier && b in later :: a.priority <= b.priority
  }

  /** Between two turns of the drain: the calls so far are in order, nothing due comes before them, and no event
      was lost. */
  ghost predicate Going(start: seq<Event>, queue: seq<Event>, called: seq<Event>, scheduled: seq<Event>, now: int) {
    && Ordered(called) && Before(called, Due(queue, now))
    && multiset(called) + multiset(Due(queue, now)) == multiset(Due(start, now))
    && multiset(queue) + multiset(called) == multiset(start) + multiset(scheduled)
    && forall e | e in scheduled :: e.priority >= now
  }

  lemma GoingStart(start: seq<Event>, now: int)
    ensures Going(start, start, [], [], now)
  {
    hide Due;
  }

  lemma GoingCalled(start: seq<Event>, queue: seq<Event>, i: nat, called: seq<Event>, scheduled: seq<Event>, now: int)
    requires Going(start, queue, called, scheduled, now) && Least(queue, i) && queue[i].priority < now
    ensures Going(start, queue[..i] + queue[i + 1..], called + [queue[i]], scheduled, now)
  {
    hide Due, Ordered, Before;
    DueWithout(queue, i, now);
    Append(called, queue[i], queue, i, now);
    Removed(queue, i);
  }

  lemma GoingScheduled(start: seq<Event>, waiting: seq<Event>, queue: seq<Event>, called: seq<Event>,
                       scheduled: seq<Event>, now: int)
    requires Going(start, waiting, called, scheduled, now) && waiting <= queue && Due(queue, now) == Due(waiting, now)
    ensures Going(start, queue, called, scheduled + queue[|waiting|..], now)
  {
    hide Due, Ordered, Before;
    assert queue == waiting + queue[|waiting|..];
    var added := queue[|waiting|..];
    assert multiset(queue) == multiset(waiting) + multiset(added);
    assert multiset(scheduled + added) == multiset(scheduled) + multiset(added);
    assert multiset(queue) + multiset(called) == (multiset(waiting) + multiset(called)) + multiset(added);
    DueConcat(waiting, added, now);
    forall e | e in added
      ensures e.priority >= now
    {
      DueIn(added, now, e);
    }
  }

  lemma GoingStopped(start: seq<Event>, queue: seq<Event>, called: seq<Event>, scheduled: seq<Event>, now: int)
    requires Going(start, queue, called, scheduled, now)
    ensures Ordered(called) && multiset(called) <= multiset(Due(start, now))
  {
    hide Due, Ordered, Before;
  }

  lemma GoingDone(start: seq<Event>, queue: seq<Event>, called: seq<Event>, scheduled: seq<Event>, now: int)
    requires Going(start, queue, called, scheduled, now) && Due(queue, now) == []
    ensures Ordered(called) && multiset(called) == multiset(Due(start, now))
    ensures multiset(queue) + multiset(called) == multiset(start) + multiset(scheduled)
    ensures forall e | e in scheduled :: e.priority >= now
  {
    hide Due, Ordered, Before;
  }

  lemma Removed(queue: seq<Event>, i: nat)
    requires i < |queue|
    ensures multiset(queue[..i] + queue[i + 1..]) + multiset{queue[i]} == multiset(queue)
  {
    assert queue == queue[..i] + [queue[i]] + queue[i + 1..];
  }

  /** Calling the first event of the queue next keeps the calls in order. */
  lemma Append(called: seq<Event>, event: Event, queue: seq<Event>, i: nat, now: int)
    requires Ordered(called) && Before(called, Due(queue, now)) && Least(queue, i) && event == queue[i] &&
      event.priority < now
    ensures Ordered(called + [event])
    ensures Before(called + [event], Due(queue[..i] + queue[i + 1..], now))
  {
    DueIn(queue, now, event);
    assert event in Due(queue, now);
    var rest := queue[..i] + queue[i + 1..];
    forall b | b in Due(rest, now)
      ensures b in Due(queue, now) && event.priority <= b.priority
    {
      DueIn(rest, now, b);
      assert b in queue;
      DueIn(queue, now, b);
    }
  }

  // ---------- what a drain calls ----------

  /** A drain that leaves nothing due. */
  lemma DrainRight(queue: seq<Event>, now: int, turns: seq<Turn>)
    requires Drains(queue, now, turns) && DrainedDue(queue, now, turns) == []
    ensures
      var d := Drained(queue, now, turns);
      && (NoStop(turns) ==>
            && d.now == now
            && multiset(d.queue) + multiset(d.called) == multiset(queue) + multiset(d.scheduled)
            && (AllForward(turns) <==> multiset(d.called) == multiset(Due(queue, now)))
            && (Ordered(d.called) <==> NoneBefore(queue, now, turns)))
      && (AllForward(turns) ==> Ordered(d.called) && multiset(d.called) <= multiset(Due(queue, now)))
  {
    hide Due, Ordered, Drains, Drained, NoStop, AllForward, Going, NoneBefore;
    var d := Drained(queue, now, turns);
    if NoStop(turns) {
      OrderedIff(queue, now, turns);
      DrainCounts(queue, now, turns);
      DrainKeeps(queue, now, turns);
      if AllForward(turns) {
        DrainGoing(queue, now, turns);
        GoingDone(queue, d.queue, d.called, d.scheduled, now);
      } else {
        assert |multiset(d.called)| == |d.called| && |multiset(Due(queue, now))| == |Due(queue, now)|;
      }
    }
    if AllForward(turns) {
      DrainStopped(queue, now, turns);
    }
  }

  /** Without a stop no event is lost. */
  lemma {:induction false} DrainKeeps(queue: seq<Event>, now: int, turns: seq<Turn>)
    requires Drains(queue, now, turns) && NoStop(turns)
    ensures
      var d := Drained(queue, now, turns);
      multiset(d.queue) + multiset(d.called) == multiset(queue) + multiset(d.scheduled)
  {
    hide Due, NoStop, AllForward, Least, Applied;
    if |turns| > 0 {
      var front, turn := turns[..|turns| - 1], turns[|turns| - 1];
      ForwardStep(turns);
      DrainKeeps(queue, now, front);
      var d := Drained(queue, now, front);
      LeastDue(d.queue, d.now, turn.place);
      var rest := d.queue[..turn.place] + d.queue[turn.place + 1..];
      Removed(d.queue, turn.place);
      AppliedAdds(rest, d.now, turn.effects);
      Moved(queue, d, turn.place, rest, Applied([], d.now, turn.effects).0);
    }
  }

  lemma Moved(queue: seq<Event>, d: Drain, i: nat, rest: seq<Event>, added: seq<Event>)
    requires multiset(d.queue) + multiset(d.called) == multiset(queue) + multiset(d.scheduled)
    requires i < |d.queue| && multiset(rest) + multiset{d.queue[i]} == multiset(d.queue)
    ensures multiset(rest + added) + multiset(d.called + [d.queue[i]]) ==
            multiset(queue) + multiset(d.scheduled + added)
  {
    assert multiset(rest + added) == multiset(rest) + multiset(added);
    assert multiset(d.scheduled + added) == multiset(d.scheduled) + multiset(added);
    assert multiset(d.called + [d.queue[i]]) == multiset(d.called) + multiset{d.queue[i]};
    assert multiset(rest + added) + multiset(d.called + [d.queue[i]]) ==
           (multiset(d.queue) + multiset(d.called)) + multiset(added);
  }

  lemma {:induction false} AppliedAdds(queue: seq<Event>, now: int, effects: seq<Effect>)
    requires Stop !in effects
    ensures Applied(queue, now, effects) == (queue + Applied([], now, effects).0, now)
  {
    hide Applied;
    AppliedLast(queue, now, effects);
    AppliedLast([], now, effects);
    AppliedDue([], now, effects);
    if |effects| > 0 {
      var front := effects[..|effects| - 1];
      AppliedAdds(queue, now, front);
      AppliedDue([], now, front);
      var added := Applied([], now, front).0;
      var last := effects[|effects| - 1];
      var event := Event(last.delay + now, last.name);
      assert queue + added + [event] == queue + (added + [event]);
    } else {
      assert queue + [] == queue;
    }
  }

  lemma {:induction false} DrainGoing(queue: seq<Event>, now: int, turns: seq<Turn>)
    requires Drains(queue, now, turns) && NoStop(turns) && AllForward(turns)
    ensures
      var d := Drained(queue, now, turns);
      d.now == now && Going(queue, d.queue, d.called, d.scheduled, now)
  {
    hide Due, NoStop, AllForward, Least, Applied, Forward, Going;
    if |turns| == 0 {
      GoingStart(queue, now);
    } else {
      var front, turn := turns[..|turns| - 1], turns[|turns| - 1];
      ForwardStep(turns);
      DrainGoing(queue, now, front);
      var d := Drained(queue, now, front);
      LeastDue(d.queue, d.now, turn.place);
      GoingCalled(queue, d.queue, turn.place, d.called, d.scheduled, now);
      var rest := d.queue[..turn.place] + d.queue[turn.place + 1..];
      var added := Applied([], now, turn.effects).0;
      AppliedAdds(rest, now, turn.effects);
      AppliedDue(rest, now, turn.effects);
      GoingScheduled(queue, rest, rest + added, d.called + [d.queue[turn.place]], d.scheduled, now);
      assert (rest + added)[|rest|..] == added;
    }
  }

  /** A stop that nothing follows into the past ends the drain. */
  lemma DrainStopped(queue: seq<Event>, now: int, turns: seq<Turn>)
    requires Drains(queue, now, turns) && AllForward(turns)
    ensures
      var d := Drained(queue, now, turns);
      && Ordered(d.called) && multiset(d.called) <= multiset(Due(queue, now))
      && (!NoStop(turns) ==> Due(d.queue, d.now) == [])
  {
    hide Due, NoStop, AllForward, Least, Applied, Forward, Going, Ordered, Drained;
    var d := Drained(queue, now, turns);
    if NoStop(turns) {
      DrainGoing(queue, now, turns);
      GoingStopped(queue, d.queue, d.called, d.scheduled, now);
    } else {
      StoppedStep(queue, now, turns);
    }
  }

  lemma {:induction false} StoppedStep(queue: seq<Event>, now: int, turns: seq<Turn>)
    requires Drains(queue, now, turns) && AllForward(turns) && !NoStop(turns)
    ensures
      var d := Drained(queue, now, turns);
      Ordered(d.called) && multiset(d.called) <= multiset(Due(queue, now)) && Due(d.queue, d.now) == []
  {
    hide Due, NoStop, AllForward, Least, Applied, Forward, Going, Ordered;
    if |turns| == 0 {
      EmptyForward();
    } else {
      var front, turn := turns[..|turns| - 1], turns[|turns| - 1];
      ForwardStep(turns);
      if !NoStop(front) {
        StoppedStep(queue, now, front);
      } else {
        DrainGoing(queue, now, front);
        var d := Drained(queue, now, front);
        LeastDue(d.queue, d.now, turn.place);
        GoingCalled(queue, d.queue, turn.place, d.called, d.scheduled, now);
        var rest := d.queue[..turn.place] + d.queue[turn.place + 1..];
        GoingStopped(queue, rest, d.called + [d.queue[turn.place]], d.scheduled, now);
        AppliedDue(rest, now, turn.effects);
      }
    }
  }

  // ---------- the order of the calls ----------

  /** No call schedules an event before the one that is being called. */
  predicate NoneBefore(queue: seq<Event>, now: int, turns: seq<Turn>) {
    |turns| > 0 ==>
      var d, turn := Drained(queue, now, turns[..|turns| - 1]), turns[|turns| - 1];
      && NoneBefore(queue, now, turns[..|turns| - 1])
      && (turn.place < |d.queue| ==>
            forall e | e in Applied([], d.now, turn.effects).0 :: d.queue[turn.place].priority <= e.priority)
  }

  /** The calls of a drain that ends without a stop are in the order of their priorities exactly when none of them
      schedules an event before itself. */
  lemma OrderedIff(queue: seq<Event>, now: int, turns: seq<Turn>)
    requires Drains(queue, now, turns) && NoStop(turns) && DrainedDue(queue, now, turns) == []
    ensures Ordered(Drained(queue, now, turns).called) <==> NoneBefore(queue, now, turns)
  {
    hide Due, Ordered, Drains, Drained, NoStop, NoneBefore;
    if NoneBefore(queue, now, turns) {
      CallsOrdered(queue, now, turns);
    }
    if Ordered(Drained(queue, now, turns).called) {
      assert turns[..|turns|] == turns;
      OrderedBefore(queue, now, turns, |turns|);
    }
  }

  lemma {:induction false} CallsOrdered(queue: seq<Event>, now: int, turns: seq<Turn>)
    requires Drains(queue, now, turns) && NoStop(turns) && NoneBefore(queue, now, turns)
    ensures
      var d := Drained(queue, now, turns);
      d.now == now && Ordered(d.called) && Before(d.called, Due(d.queue, now))
  {
    hide Due, Ordered, NoStop, Applied, Least, Before;
    if |turns| == 0 {
      NothingCalled(Due(queue, now));
    } else {
      var front, turn := turns[..|turns| - 1], turns[|turns| - 1];
      ForwardStep(turns);
      CallsOrdered(queue, now, front);
      var d := Drained(queue, now, front);
      LeastDue(d.queue, now, turn.place);
      var event, rest := d.queue[turn.place], d.queue[..turn.place] + d.queue[turn.place + 1..];
      Append(d.called, event, d.queue, turn.place, now);
      AppliedAdds(rest, now, turn.effects);
      AddedBehind(d.called, event, rest, Applied([], now, turn.effects).0, now);
    }
  }

  lemma NothingCalled(events: seq<Event>)
    ensures Ordered([]) && Before([], events)
  {
  }

  lemma AddedBehind(called: seq<Event>, event: Event, rest: seq<Event>, added: seq<Event>, now: int)
    requires Ordered(called + [event]) && Before(called + [event], Due(rest, now))
    requires forall e | e in added :: event.priority <= e.priority
    ensures Before(called + [event], Due(rest + added, now))
  {
    hide Due;
    DueConcat(rest, added, now);
    var all := called + [event];
    forall a, b | a in all && b in Due(rest + added, now)
      ensures a.priority <= b.priority
    {
      if b !in Due(rest, now) {
        DueIn(added, now, b);
        var i :| 0 <= i < |all| && all[i] == a;
        assert all[|called|] == event;
      }
    }
  }

  lemma {:induction false} OrderedBefore(queue: seq<Event>, now: int, turns: seq<Turn>, n: nat)
    requires n <= |turns| && Drains(queue, now, turns) && NoStop(turns) && DrainedDue(queue, now, turns) == []
    requires Ordered(Drained(queue, now, turns).called)
    ensures NoneBefore(queue, now, turns[..n])
    decreases n
  {
    hide Due, Ordered, NoStop, Applied, Least, Drains, Drained;
    if n > 0 {
      OrderedBefore(queue, now, turns, n - 1);
      assert turns[..n][..n - 1] == turns[..n - 1];
      var d, turn := Drained(queue, now, turns[..n - 1]), turns[n - 1];
      PrefixDrains(queue, now, turns, n - 1);
      PrefixDrains(queue, now, turns, n);
      PrefixTurn(queue, now, turns, n);
      forall e | e in Applied([], d.now, turn.effects).0
        ensures d.queue[turn.place].priority <= e.priority
      {
        if e.priority < d.queue[turn.place].priority {
          CalledLater(queue, now, turns, n, e);
        }
      }
    }
  }

  lemma {:induction false} PrefixDrains(queue: seq<Event>, now: int, turns: seq<Turn>, n: nat)
    requires n <= |turns| && Drains(queue, now, turns) && NoStop(turns)
    ensures Drains(queue, now, turns[..n]) && NoStop(turns[..n])
    ensures Drained(queue, now, turns[..n]).now == now && |Drained(queue, now, turns[..n]).called| == n
    ensures Drained(queue, now, turns[..n]).called <= Drained(queue, now, turns).called
    decreases |turns|
  {
    hide Due, Applied, Least;
    if n == |turns| {
      assert turns[..n] == turns;
      DrainCounts(queue, now, turns);
    } else {
      var front := turns[..|turns| - 1];
      ForwardStep(turns);
      PrefixDrains(queue, now, front, n);
      assert front[..n] == turns[..n];
    }
  }

  /** The turn in the middle of a drain. */
  lemma PrefixTurn(queue: seq<Event>, now: int, turns: seq<Turn>, n: nat)
    requires 0 < n <= |turns| && Drains(queue, now, turns) && NoStop(turns)
    ensures
      var d, e, turn := Drained(queue, now, turns[..n - 1]), Drained(queue, now, turns[..n]), turns[n - 1];
      && d.now == now && turn.place < |d.queue| && d.queue[turn.place].priority < now
      && |Drained(queue, now, turns).called| >= n && Drained(queue, now, turns).called[n - 1] == d.queue[turn.place]
      && e.called == d.called + [d.queue[turn.place]]
      && e.queue == d.queue[..turn.place] + d.queue[turn.place + 1..] + Applied([], now, turn.effects).0
  {
    hide Due, Applied, Least, Drains, Drained, NoStop;
    PrefixDrains(queue, now, turns, n);
    PrefixDrains(queue, now, turns, n - 1);
    assert turns[..n] == turns[..n - 1] + [turns[n - 1]];
    LastTurn(queue, now, turns[..n - 1], turns[n - 1]);
    var called, all := Drained(queue, now, turns[..n]).called, Drained(queue, now, turns).called;
    assert all[n - 1] == called[n - 1];
  }

  lemma LastTurn(queue: seq<Event>, now: int, front: seq<Turn>, turn: Turn)
    requires Drains(queue, now, front + [turn]) && NoStop(front + [turn])
    ensures
      var d, e := Drained(queue, now, front), Drained(queue, now, front + [turn]);
      && d.now == now && turn.place < |d.queue| && d.queue[turn.place].priority < now
      && |d.called| == |front| && e.called == d.called + [d.queue[turn.place]]
      && e.queue == d.queue[..turn.place] + d.queue[turn.place + 1..] + Applied([], now, turn.effects).0
  {
    hide Due, Applied, Least, Drains, Drained, NoStop;
    var turns := front + [turn];
    assert turns[..|turns| - 1] == front && turns[|turns| - 1] == turn;
    ForwardStep(turns);
    DrainStep(queue, now, front, turn);
    var d := Drained(queue, now, front);
    DrainCounts(queue, now, front);
    LeastDue(d.queue, d.now, turn.place);
    AppliedAdds(d.queue[..turn.place] + d.queue[turn.place + 1..], now, turn.effects);
  }

  /** An event scheduled before the one that is being called is called afterwards, and out of order. */
  lemma CalledLater(queue: seq<Event>, now: int, turns: seq<Turn>, n: nat, e: Event)
    requires 0 < n <= |turns| && Drains(queue, now, turns) && NoStop(turns) && DrainedDue(queue, now, turns) == []
    requires
      var d := Drained(queue, now, turns[..n - 1]);
      && d.now == now && turns[n - 1].place < |d.queue| && d.queue[turns[n - 1].place].priority < now
      && e in Applied([], now, turns[n - 1].effects).0 && e.priority < d.queue[turns[n - 1].place].priority
    ensures !Ordered(Drained(queue, now, turns).called)
  {
    hide Due, Applied, Least, Drains, Drained, NoStop;
    var called := Drained(queue, now, turns).called;
    PrefixTurn(queue, now, turns, n);
    PrefixDrains(queue, now, turns, n);
    DrainCounts(queue, now, turns);
    DueIn(Drained(queue, now, turns[..n]).queue, now, e);
    Waits(queue, now, turns, n, e);
    var j :| 0 <= j < |called[n..]| && called[n..][j] == e;
    assert called[n + j] == e;
  }

  /** What is due is called later, or still due. */
  lemma {:induction false} Waits(queue: seq<Event>, now: int, turns: seq<Turn>, n: nat, e: Event)
    requires n <= |turns| && Drains(queue, now, turns) && NoStop(turns)
    requires e in Due(Drained(queue, now, turns[..n]).queue, now)
    ensures |Drained(queue, now, turns).called| == |turns|
    ensures e in Drained(queue, now, turns).called[n..] || e in DrainedDue(queue, now, turns)
    decreases |turns|
  {
    hide Due, Applied, Least;
    DrainCounts(queue, now, turns);
    if n == |turns| {
      assert turns[..n] == turns;
    } else {
      var front := turns[..|turns| - 1];
      ForwardStep(turns);
      assert front[..n] == turns[..n];
      Waits(queue, now, front, n, e);
      PrefixTurn(queue, now, turns, |turns|);
      assert turns[..|turns|] == turns;
      var d, turn := Drained(queue, now, front), turns[|turns| - 1];
      var after := Drained(queue, now, turns);
      assert after.called[n..] == d.called[n..] + [d.queue[turn.place]];
      if e !in d.called[n..] && e != d.queue[turn.place] {
        StillQueued(d.queue, turn.place, Applied([], now, turn.effects).0, now, e);
      }
    }
  }

  lemma StillQueued(queue: seq<Event>, i: nat, added: seq<Event>, now: int, e: Event)
    requires i < |queue| && e in Due(queue, now) && e != queue[i]
    ensures e in Due(queue[..i] + queue[i + 1..] + added, now)
  {
    hide Due;
    DueIn(queue, now, e);
    assert queue == queue[..i] + [queue[i]] + queue[i + 1..];
    DueIn(queue[..i] + queue[i + 1..] + added, now, e);
  }

  // ---------- the class ----------

  class Peer {
    var currentTime: int
    var eventQueue: seq<Event>

    constructor ()
      ensures currentTime == 0 && eventQueue == []
    {
      currentTime, eventQueue := 0, [];
    }

    method StopTime()
      modifies this
      ensures currentTime == 0 && eventQueue == []
    {
      currentTime := 0;
      eventQueue := [];
    }

    method ExecuteLater(delay: int, name: nat)
      modifies this`eventQueue
      ensures eventQueue == old(eventQueue) + [Event(delay + currentTime, name)]
    {
      eventQueue := eventQueue + [Event(delay + currentTime, name)];
    }

    /** Calling an event: any effects in any order. */
    method Call(effects: seq<Effect>)
      modifies this
      ensures (eventQueue, currentTime) == Applied(old(eventQueue), old(currentTime), effects)
    {
      for i := 0 to |effects|
        invariant (eventQueue, currentTime) == Applied(old(eventQueue), old(currentTime), effects[..i])
      {
        assert effects[..i + 1][..i] == effects[..i];
        match effects[i] {
          case Later(delay, name) => ExecuteLater(delay, name);
          case Stop => StopTime();
        }
      }
      assert effects[..|effects|] == effects;
    }

    /** `PriorityQueue.get`: some event of least priority; its place in the queue is returned for specification. */
    method Get() returns (event: Event, ghost i: nat)
      requires |eventQueue| > 0
      modifies this`eventQueue
      ensures i < |old(eventQueue)| && Least(old(eventQueue), i) && event == old(eventQueue)[i]
      ensures eventQueue == old(eventQueue)[..i] + old(eventQueue)[i + 1..]
    {
      hide Least;
      ghost var _ := LeastExists(eventQueue);
      var k: nat :| k < |eventQueue| && Least(eventQueue, k);
      event, i := eventQueue[k], k;
      eventQueue := eventQueue[..k] + eventQueue[k + 1..];
    }

    /** The priority of the first event of the queue. */
    method First() returns (priority: int, ghost i: nat)
      requires |eventQueue| > 0
      ensures i < |eventQueue| && Least(eventQueue, i) && priority == eventQueue[i].priority
      ensures forall e | e in eventQueue :: priority <= e.priority
    {
      hide Least;
      ghost var _ := LeastExists(eventQueue);
      var k: nat :| k < |eventQueue| && Least(eventQueue, k);
      LeastBelow(eventQueue, k);
      return eventQueue[k].priority, k;
    }

    /** `update` at time `now`, where `calls(k)` is what the `k`-th event to be called does. It ends exactly when there
        is an end (see `EndsIff`), and then leaves nothing due. Without a stop no event is lost, and the events called
        are those that were due at the beginning exactly when none of the calls that happened scheduled into the past,
        and in the order of their priorities exactly when none scheduled an event before itself. With a stop and nothing
        scheduled into the past, they are some of those that were due, in order. */
    method Update(now: int, calls: nat -> seq<Effect>) returns (called: seq<Event>, ghost turns: seq<Turn>)
      requires Ends(|Due(eventQueue, now)|, calls)
      modifies this
      ensures Drains(old(eventQueue), now, turns) && Follows(turns, calls)
      ensures Drain(eventQueue, currentTime, called, Drained(old(eventQueue), now, turns).scheduled) ==
              Drained(old(eventQueue), now, turns)
      ensures Due(eventQueue, currentTime) == []
      ensures NoStop(turns) ==>
        var scheduled := Drained(old(eventQueue), now, turns).scheduled;
        && currentTime == now
        && multiset(eventQueue) + multiset(called) == multiset(old(eventQueue)) + multiset(scheduled)
        && (AllForward(turns) <==> multiset(called) == multiset(Due(old(eventQueue), now)))
        && (Ordered(called) <==> NoneBefore(old(eventQueue), now, turns))
      ensures AllForward(turns) ==> Ordered(called) && multiset(called) <= multiset(Due(old(eventQueue), now))
    {
      hide Due, Ordered, Least, Applied, Forward, NoStop, AllForward, Follows, NoneBefore;
      ghost var start, d := eventQueue, |Due(eventQueue, now)|;
      ghost var n: nat :| Remaining(d, calls, n) == 0;
      called, turns := [], [];
      currentTime := now;
      FollowsNothing(calls);
      var due := IsDue();
      while due
        invariant Drains(start, now, turns) && Follows(turns, calls) && |called| == |turns|
        invariant Drain(eventQueue, currentTime, called, Drained(start, now, turns).scheduled) ==
                  Drained(start, now, turns)
        invariant due <==> Due(eventQueue, currentTime) != []
        invariant due ==> |eventQueue| > 0 && |turns| < n
        decreases n - |turns|, due
      {
        var event;
        ghost var i;
        event, i := Get();
        var effects := calls(|called|);
        Call(effects);
        DrainStep(start, now, turns, Turn(i, effects));
        FollowsStep(turns, calls, Turn(i, effects));
        called := called + [event];
        turns := turns + [Turn(i, effects)];
        due := IsDue();
        RemainingTurns(start, now, turns, calls, n);
      }
      DrainRight(start, now, turns);
    }

    /** The loop's condition. */
    method IsDue() returns (due: bool)
      ensures due <==> Due(eventQueue, currentTime) != []
      ensures due ==> |eventQueue| > 0
    {
      hide Least;
      if |eventQueue| == 0 {
        return false;
      }
      var priority;
      ghost var i;
      priority, i := First();
      NothingDue(eventQueue, currentTime, i);
      return priority < currentTime;
    }
  }
}
