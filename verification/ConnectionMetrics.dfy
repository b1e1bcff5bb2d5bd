/** The outcome of the last 64 notify messages, kept in an integer of which no bit is ever dropped. */
module ConnectionMetrics {
  import opened PyInt
  import opened Bitfields

  const WINDOW := 64

  /** The values of the fields concerned. */
  datatype Counts = Counts(lost: int, delivered: int, rollingLost: int, rollingDelivered: int, tracker: int,
      bufferCount: int)

  const NOTHING := Counts(0, 0, 0, 0, 0, 0)

  function Told(c: Counts, delivered: bool): Counts {
    var filling := c.bufferCount < WINDOW;
    var oldest := Bit(c.tracker, WINDOW - 1);
    var count := if filling then c.bufferCount + 1 else c.bufferCount;
    if delivered then
      Counts(if !filling && !oldest then c.lost - 1 else c.lost, c.delivered + 1, c.rollingLost,
             if filling || !oldest then c.rollingDelivered + 1 else c.rollingDelivered, Or(Shl(c.tracker, 1), 1), count)
    else
      Counts(c.lost + 1, c.delivered, if filling || oldest then c.rollingLost + 1 else c.rollingLost,
             if !filling && oldest then c.rollingDelivered - 1 else c.rollingDelivered, Shl(c.tracker, 1), count)
  }

  class Metrics {
    var notifyLost: int
    var notifyDelivered: int
    var rollingNotifyLost: int
    var rollingNotifyDelivered: int
    var notifyLossTracker: int
    var notifyBufferCount: int

    ghost function State(): Counts
      reads this
    {
      Counts(notifyLost, notifyDelivered, rollingNotifyLost, rollingNotifyDelivered, notifyLossTracker,
          notifyBufferCount)
    }

    constructor ()
      ensures State() == NOTHING
    {
      notifyLost, notifyDelivered, rollingNotifyLost, rollingNotifyDelivered := 0, 0, 0, 0;
      notifyLossTracker, notifyBufferCount := 0, 0;
    }

    method DeliveredNotify()
      modifies this
      ensures State() == Told(old(State()), true)
    {
      hide And, Or, Shl, Bit;
      AndOne(notifyLossTracker, WINDOW - 1);
      notifyDelivered := notifyDelivered + 1;
      if notifyBufferCount < WINDOW {
        rollingNotifyDelivered := rollingNotifyDelivered + 1;
        notifyBufferCount := notifyBufferCount + 1;
      } else if And(notifyLossTracker, Shl(1, 63)) == 0 {
        rollingNotifyDelivered := rollingNotifyDelivered + 1;
        notifyLost := notifyLost - 1;
      }
      notifyLossTracker := Shl(notifyLossTracker, 1);
      notifyLossTracker := Or(notifyLossTracker, 1);
    }

    method LostNotify()
      modifies this
      ensures State() == Told(old(State()), false)
    {
      hide And, Or, Shl, Bit;
      AndOne(notifyLossTracker, WINDOW - 1);
      notifyLost := notifyLost + 1;
      if notifyBufferCount < WINDOW {
        rollingNotifyLost := rollingNotifyLost + 1;
        notifyBufferCount := notifyBufferCount + 1;
      } else if And(notifyLossTracker, Shl(1, 63)) != 0 {
        rollingNotifyDelivered := rollingNotifyDelivered - 1;
        rollingNotifyLost := rollingNotifyLost + 1;
      }
      notifyLossTracker := Shl(notifyLossTracker, 1);
    }
  }

  // ---------- runs ----------

  function After(outcomes: seq<bool>): Counts {
    if |outcomes| == 0 then NOTHING else Told(After(outcomes[..|outcomes| - 1]), outcomes[|outcomes| - 1])
  }

  function Number(outcomes: seq<bool>, delivered: bool): nat {
    if |outcomes| == 0 then 0
    else Number(outcomes[..|outcomes| - 1], delivered) + if outcomes[|outcomes| - 1] == delivered then 1 else 0
  }

  /** The last 64 outcomes, or all if there are fewer. */
  function Window(outcomes: seq<bool>): seq<bool> {
    if |outcomes| <= WINDOW then outcomes else outcomes[|outcomes| - WINDOW..]
  }

  /** How often a delivery pushed a loss out of the window. */
  function Displaced(outcomes: seq<bool>): nat {
    if |outcomes| == 0 then 0
    else
      var n := |outcomes| - 1;
      Displaced(outcomes[..n]) + if n >= WINDOW && outcomes[n] && !outcomes[n - WINDOW] then 1 else 0
  }

  lemma {:induction false} NumberFirst(first: bool, others: seq<bool>, delivered: bool)
    ensures Number([first] + others, delivered) == Number(others, delivered) + if first == delivered then 1 else 0
  {
    var all := [first] + others;
    if |others| == 0 {
      assert all[..0] == [];
    } else {
      NumberFirst(first, others[..|others| - 1], delivered);
      assert all[..|all| - 1] == [first] + others[..|others| - 1];
    }
  }

  lemma Tail(s: seq<bool>, k: nat, last: bool)
    requires k < |s|
    ensures s[k..] == [s[k]] + s[k + 1..]
    ensures (s + [last])[k + 1..] == s[k + 1..] + [last]
  {
  }

  lemma WindowSlides(outcomes: seq<bool>, last: bool)
    ensures |outcomes| < WINDOW ==> Window(outcomes) == outcomes && Window(outcomes + [last]) == outcomes + [last]
    ensures |outcomes| >= WINDOW ==>
      var others := outcomes[|outcomes| - WINDOW + 1..];
      Window(outcomes) == [outcomes[|outcomes| - WINDOW]] + others && Window(outcomes + [last]) == others + [last]
  {
    if |outcomes| >= WINDOW {
      Tail(outcomes, |outcomes| - WINDOW, last);
      assert |outcomes| == WINDOW ==> outcomes[0..] == outcomes;
    }
  }

  /** The window moves on by one outcome. */
  lemma NumberSlides(outcomes: seq<bool>, last: bool, delivered: bool)
    ensures
      var n := |outcomes|;
      Number(Window(outcomes + [last]), delivered) ==
      Number(Window(outcomes), delivered) + (if last == delivered then 1 else 0)
      - (if n >= WINDOW && outcomes[n - WINDOW] == delivered then 1 else 0)
  {
    hide Number, Window;
    var n := |outcomes|;
    WindowSlides(outcomes, last);
    if n >= WINDOW {
      var first, others := outcomes[n - WINDOW], outcomes[n - WINDOW + 1..];
      NumberFirst(first, others, delivered);
      NumberLast(others, last, delivered);
    } else {
      NumberLast(outcomes, last, delivered);
    }
  }

  lemma NumberLast(others: seq<bool>, last: bool, delivered: bool)
    ensures Number(others + [last], delivered) == Number(others, delivered) + if last == delivered then 1 else 0
  {
    assert (others + [last])[..|others|] == others;
  }

  /** The tracker holds the outcomes, the latest in bit 0. */
  ghost predicate Tracks(c: Counts, outcomes: seq<bool>) {
    && c.bufferCount == |Window(outcomes)|
    && forall k: nat :: Bit(c.tracker, k) == (k < |outcomes| && outcomes[|outcomes| - 1 - k])
  }

  lemma ToldTracks(c: Counts, outcomes: seq<bool>, last: bool)
    requires Tracks(c, outcomes)
    ensures Tracks(Told(c, last), outcomes + [last])
  {
    hide Bit, Or, Shl;
    forall k: nat
      ensures Bit(Told(c, last).tracker, k) == (k < |outcomes| + 1 && (outcomes + [last])[|outcomes| - k])
    {
      BitShl(c.tracker, 1, k);
      BitOr(Shl(c.tracker, 1), 1, k);
      OneBit(k);
      if k > 0 {
        assert Bit(c.tracker, k - 1) == (k - 1 < |outcomes| && outcomes[|outcomes| - k]);
      }
    }
  }

  /** Whatever the outcomes: the rolling count of deliveries is that of the last 64 outcomes. A loss pushed out of
      the window by a delivery is taken from the total instead of the rolling count, so that together the two stay
      right, while the rolling count of losses never goes down. */
  lemma {:induction false} WindowCounts(outcomes: seq<bool>)
    ensures Tracks(After(outcomes), outcomes)
    ensures After(outcomes).rollingDelivered == Number(Window(outcomes), true)
    ensures After(outcomes).delivered == Number(outcomes, true)
    ensures After(outcomes).rollingLost == Number(Window(outcomes), false) + Displaced(outcomes)
    ensures After(outcomes).lost == Number(outcomes, false) - Displaced(outcomes)
  {
    hide Bit, Or, Shl;
    if |outcomes| == 0 {
      forall k: nat
        ensures !Bit(0, k)
      {
        BitOfZero(k);
      }
    } else {
      var front, last := outcomes[..|outcomes| - 1], outcomes[|outcomes| - 1];
      WindowCounts(front);
      ToldTracks(After(front), front, last);
      NumberSlides(front, last, true);
      NumberSlides(front, last, false);
      assert outcomes == front + [last];
    }
  }

  /** The rolling losses, and with them the loss rate and the total, are right exactly when no delivery ever pushed
      a loss out of the window. */
  lemma RollingLostIff(outcomes: seq<bool>)
    ensures After(outcomes).rollingLost == Number(Window(outcomes), false) <==> NoneDisplaced(outcomes)
    ensures After(outcomes).lost == Number(outcomes, false) <==> NoneDisplaced(outcomes)
  {
    hide After, Number, Window, Tracks, NoneDisplaced;
    WindowCounts(outcomes);
    DisplacedIff(outcomes);
  }

  predicate NoneDisplaced(outcomes: seq<bool>) {
    forall i | 0 <= i < |outcomes| - WINDOW :: outcomes[i] || !outcomes[i + WINDOW]
  }

  lemma {:induction false} DisplacedIff(outcomes: seq<bool>)
    ensures Displaced(outcomes) == 0 <==> NoneDisplaced(outcomes)
  {
    if |outcomes| > 0 {
      var n := |outcomes| - 1;
      DisplacedIff(outcomes[..n]);
      NoneDisplacedLast(outcomes);
    }
  }

  lemma NoneDisplacedLast(outcomes: seq<bool>)
    requires |outcomes| > 0
    ensures
      var n := |outcomes| - 1;
      NoneDisplaced(outcomes) <==> NoneDisplaced(outcomes[..n]) && (n < WINDOW || outcomes[n - WINDOW] || !outcomes[n])
  {
    var n := |outcomes| - 1;
    assert forall i | 0 <= i < n :: outcomes[..n][i] == outcomes[i];
  }

  /** Sixty-four losses and a delivery leave the rolling count at 64, though the window holds 63. */
  lemma OneDisplaced()
    ensures
      var outcomes := seq(64, _ => false) + [true];
      After(outcomes).rollingLost == 64 && Number(Window(outcomes), false) == 63 && After(outcomes).lost == 63
  {
    var losses := seq(64, _ => false);
    AllLost(64);
    WindowCounts(losses);
    NumberSlides(losses, true, false);
    NumberLast(losses, true, false);
    WindowCounts(losses + [true]);
    assert (losses + [true])[..64] == losses;
    assert Displaced(losses + [true]) == Displaced(losses) + 1;
    DisplacedIff(losses);
  }

  lemma {:induction false} AllLost(n: nat)
    ensures Number(seq(n, _ => false), false) == n
  {
    if n > 0 {
      AllLost(n - 1);
      assert seq(n, _ => false)[..n - 1] == seq(n - 1, _ => false);
    }
  }
}
