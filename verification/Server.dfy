/** The clients of a server: the pool of client IDs, the connections registered under them, and the life of each
    connection with the events it raises. */
module ServerClients {
  import opened DistinctIds

  datatype Status = NotConnected | Connecting | Pending | Connected

  datatype Event = ClientConnected | ClientDisconnected | ConnectionFailed

  /** The values of a connection's fields, with the events raised for it. */
  datatype Life = Life(status: Status, id: int, events: seq<Event>)

  const NEW := Life(Connecting, 0, [])

  /** The values of a server's fields, with the lives of all connections it knows and the IDs issued and freed
      since the start, in order. */
  datatype World<H> = World(clients: map<int, H>, available: seq<int>, pending: seq<H>, maxCount: int,
                            lives: map<H, Life>, issued: seq<int>, freed: seq<int>)

  function IdsUpTo(n: int): (r: seq<int>)
    ensures |r| == if n > 0 then n else 0
    ensures forall i | 0 <= i < |r| :: r[i] == i + 1
  {
    if n <= 0 then [] else IdsUpTo(n - 1) + [n]
  }

  /** The clients after a start. */
  function Started<H>(maxCount: int, lives: map<H, Life>): World<H> {
    World(map[], IdsUpTo(maxCount), [], maxCount, lives, [], [])
  }

  // ---------- specification of the operations ----------

  function WithStatus<H(==)>(w: World<H>, h: H, status: Status, events: seq<Event>): World<H>
    requires h in w.lives
  {
    w.(lives := w.lives[h := w.lives[h].(status := status, events := w.lives[h].events + events)])
  }

  function MadePending<H(==)>(w: World<H>, h: H): World<H>
    requires h in w.lives
  {
    if w.lives[h].status == Connecting then WithStatus(w, h, Pending, []) else w
  }

  /** `__reject`: no event, whatever the connection was. */
  function Rejected<H(==)>(w: World<H>, h: H): World<H>
    requires h in w.lives
  {
    WithStatus(w, h, NotConnected, [])
  }

  /** `acceptConnection`. The test for a connection that is there already looks among the IDs, so that it never
      finds one. */
  function Admitted<H(==)>(w: World<H>, h: H): World<H>
    requires h in w.lives
  {
    if |w.clients| >= w.maxCount then Rejected(w, h)
    else
      var id := if |w.available| > 0 then w.available[0] else 0;
      w.(clients := w.clients[id := h],
         available := if |w.available| > 0 then w.available[1..] else [],
         lives := w.lives[h := w.lives[h].(id := id)],
         issued := w.issued + [id])
  }

  function HandledConnect<H(==)>(w: World<H>, h: H, asks: bool): World<H>
    requires h in w.lives
  {
    var v := MadePending(w, h);
    if !asks then Admitted(v, h)
    else if |v.clients| < v.maxCount && h !in v.clients.Values && h !in v.pending then v.(pending := v.pending + [h])
    else Rejected(v, h)
  }

  function Without<T(==)>(s: seq<T>, x: T): seq<T> {
    if |s| == 0 then [] else if s[0] == x then s[1..] else [s[0]] + Without(s[1..], x)
  }

  function Accepted<H(==)>(w: World<H>, h: H): World<H>
    requires h in w.lives
  {
    if h in w.pending then Admitted(w.(pending := Without(w.pending, h)), h) else w
  }

  function Refused<H(==)>(w: World<H>, h: H): World<H>
    requires h in w.lives
  {
    if h in w.pending then Rejected(w.(pending := Without(w.pending, h)), h) else w
  }

  function Welcomed<H(==)>(w: World<H>, h: H): World<H>
    requires h in w.lives
  {
    if w.lives[h].status == Pending then WithStatus(w, h, Connected, [ClientConnected]) else w
  }

  /** `localDisconnect` of the server: whatever is registered under the connection's ID is removed. */
  function Disconnected<H(==)>(w: World<H>, h: H): World<H>
    requires h in w.lives
  {
    var id, status := w.lives[h].id, w.lives[h].status;
    var v := if id in w.clients
        then w.(clients := w.clients - {id}, available := w.available + [id], freed := w.freed + [id]) else w;
    WithStatus(v, h, NotConnected,
               if status == Connected then [ClientDisconnected] else if status == Pending then [ConnectionFailed]
                   else [])
  }

  // ---------- the classes ----------

  class Connection {
    var status: Status
    var id: int
    var events: seq<Event>

    function Value(): Life
      reads this
    {
      Life(status, id, events)
    }

    constructor ()
      ensures Value() == NEW
    {
      status, id, events := Connecting, 0, [];
    }

    method SetPending()
      modifies this
      ensures Value() == if old(status) == Connecting then old(Value()).(status := Pending) else old(Value())
    {
      if status == Connecting {
        status := Pending;
      }
    }

    method LocalDisconnect()
      modifies this
      ensures Value() == old(Value()).(status := NotConnected)
    {
      status := NotConnected;
    }

    method HandleWelcomeResponse() returns (ok: bool)
      modifies this
      ensures ok == (old(status) == Pending)
      ensures Value() == if ok then old(Value()).(status := Connected) else old(Value())
    {
      if status != Pending {
        return false;
      }
      status := Connected;
      return true;
    }
  }

  class Server {
    var clients: map<int, Connection>
    var availableClientIDs: seq<int>
    var pendingConnections: seq<Connection>
    var maxClientCount: int
    var known: set<Connection>
    var issued: seq<int>
    var freed: seq<int>

    ghost function Lives(): map<Connection, Life>
      reads this, known
    {
      map c | c in known :: c.Value()
    }

    ghost function State(): World<Connection>
      reads this, known
    {
      World(clients, availableClientIDs, pendingConnections, maxClientCount, Lives(), issued, freed)
    }

    twostate lemma OnlyChanged(connection: Connection)
      requires connection in known && known == old(known)
      requires forall c | c in known && c != connection :: c.Value() == old(c.Value())
      ensures Lives() == old(Lives())[connection := connection.Value()]
    {
    }

    constructor ()
      ensures known == {} && clients == map[] && pendingConnections == []
    {
      clients, availableClientIDs, pendingConnections, maxClientCount, known, issued, freed := map[], [], [], 5, {},
          [], [];
    }

    /** `false` where the count is refused; the IDs are then those of the last start. */
    method Start(maxCount: int) returns (ok: bool)
      modifies this
      ensures ok == (maxCount <= 65535) && known == old(known)
      ensures ok ==> State() == Started(maxCount, old(State()).lives)
      ensures !ok ==> clients == map[] && pendingConnections == [] && availableClientIDs == old(availableClientIDs)
    {
      maxClientCount, pendingConnections, clients := maxCount, [], map[];
      issued, freed := [], [];
      if maxClientCount > 65535 {
        return false;
      }
      availableClientIDs := IdsUpTo(maxClientCount);
      return true;
    }

    method HandleConnectionAttempt(connection: Connection)
      requires connection !in known
      modifies this`known
      ensures known == old(known) + {connection}
      ensures State() == old(State()).(lives := old(State()).lives[connection := connection.Value()])
    {
      known := known + {connection};
    }

    method HandleConnect(connection: Connection, asks: bool)
      requires connection in known
      modifies this, connection
      ensures known == old(known) && State() == HandledConnect(old(State()), connection, asks)
    {
      connection.SetPending();
      OnlyChanged(connection);
      assert old(connection.events) + [] == old(connection.events);
      assert old(Lives())[connection := old(connection.Value())] == old(Lives());
      assert State() == MadePending(old(State()), connection);
      if !asks {
        AcceptConnection(connection);
      } else if |clients| < maxClientCount {
        if connection !in clients.Values && connection !in pendingConnections {
          pendingConnections := pendingConnections + [connection];
        } else {
          DoReject(connection);
        }
      } else {
        DoReject(connection);
      }
    }

    method DoReject(connection: Connection)
      requires connection in known
      modifies connection
      ensures State() == Rejected(old(State()), connection)
    {
      connection.LocalDisconnect();
      OnlyChanged(connection);
      assert connection.events == old(connection.events) + [];
    }

    method AcceptConnection(connection: Connection)
      requires connection in known
      modifies this, connection
      ensures known == old(known) && State() == Admitted(old(State()), connection)
    {
      hide Rejected;
      if |clients| < maxClientCount {
        var clientID := GetAvailableClientId();
        connection.id := clientID;
        clients := clients[clientID := connection];
        OnlyChanged(connection);
        assert connection.Value() == old(connection.Value()).(id := clientID);
      } else {
        DoReject(connection);
      }
    }

    /** 0 when none is available. */
    method GetAvailableClientId() returns (id: int)
      modifies this`availableClientIDs, this`issued
      ensures |old(availableClientIDs)| > 0 ==>
        id == old(availableClientIDs)[0] && availableClientIDs == old(availableClientIDs)[1..]
      ensures |old(availableClientIDs)| == 0 ==> id == 0 && availableClientIDs == []
      ensures issued == old(issued) + [id]
    {
      id := 0;
      if |availableClientIDs| > 0 {
        id := availableClientIDs[0];
        availableClientIDs := availableClientIDs[1..];
      }
      issued := issued + [id];
    }

    method Accept(connection: Connection)
      requires connection in known
      modifies this, connection
      ensures known == old(known) && State() == Accepted(old(State()), connection)
    {
      hide Without, Admitted;
      if connection in pendingConnections {
        pendingConnections := Without(pendingConnections, connection);
        assert State() == old(State()).(pending := Without(old(pendingConnections), connection));
        AcceptConnection(connection);
      }
    }

    method Reject(connection: Connection)
      requires connection in known
      modifies this, connection
      ensures known == old(known) && State() == Refused(old(State()), connection)
    {
      if connection in pendingConnections {
        pendingConnections := Without(pendingConnections, connection);
        DoReject(connection);
      }
    }

    method HandleWelcome(connection: Connection)
      requires connection in known
      modifies connection
      ensures State() == Welcomed(old(State()), connection)
    {
      var ok := connection.HandleWelcomeResponse();
      if ok {
        connection.events := connection.events + [ClientConnected];
        OnlyChanged(connection);
      }
    }

    method LocalDisconnect(client: Connection)
      requires client in known
      modifies this, client
      ensures known == old(known) && State() == Disconnected(old(State()), client)
    {
      if client.id in clients {
        clients := clients - {client.id};
        availableClientIDs := availableClientIDs + [client.id];
        freed := freed + [client.id];
      }
      if client.status == Connected {
        client.events := client.events + [ClientDisconnected];
      } else if client.status == Pending {
        client.events := client.events + [ConnectionFailed];
      }
      client.LocalDisconnect();
      OnlyChanged(client);
      assert old(client.events) + [] == old(client.events);
    }
  }

  // ---------- runs ----------

  datatype Step<H> =
    | Attempt(h: H) | Connect(h: H, asks: bool) | Accept(h: H) | Reject(h: H) | Welcome(h: H) | Disconnect(h: H)

  predicate Possible<H(==)>(w: World<H>, step: Step<H>) {
    if step.Attempt? then step.h !in w.lives else step.h in w.lives
  }

  function Next<H(==)>(w: World<H>, step: Step<H>): World<H>
    requires Possible(w, step)
  {
    match step
    case Attempt(h) => w.(lives := w.lives[h := NEW])
    case Connect(h, asks) => HandledConnect(w, h, asks)
    case Accept(h) => Accepted(w, h)
    case Reject(h) => Refused(w, h)
    case Welcome(h) => Welcomed(w, h)
    case Disconnect(h) => Disconnected(w, h)
  }

  /** The state after a run; impossible steps do nothing. */
  function After<H(==)>(w: World<H>, steps: seq<Step<H>>): World<H> {
    if |steps| == 0 then w
    else
      var v := After(w, steps[..|steps| - 1]);
      if Possible(v, steps[|steps| - 1]) then Next(v, steps[|steps| - 1]) else v
  }

  // ---------- the pool of IDs ----------

  /** Free and registered IDs partition the range from 1 to the maximum, and IDs are issued in the order in which
      they became free. */
  ghost predicate Partition<H(!new)>(w: World<H>) {
    && (forall id :: (id in w.clients || id in w.available) <==> 1 <= id <= w.maxCount)
    && (forall id :: !(id in w.clients && id in w.available))
    && Distinct(w.available)
    && |w.clients| + |w.available| == (if w.maxCount > 0 then w.maxCount else 0)
    && w.issued + w.available == IdsUpTo(w.maxCount) + w.freed
    && forall id | id in w.issued :: 1 <= id <= w.maxCount
  }

  predicate SamePool<H(==)>(w: World<H>, v: World<H>) {
    && w.clients.Keys == v.clients.Keys && |w.clients| == |v.clients| && w.available == v.available &&
        w.maxCount == v.maxCount
    && w.issued == v.issued && w.freed == v.freed
  }

  lemma SamePartition<H(!new)>(w: World<H>, v: World<H>)
    requires SamePool(w, v) && Partition(w)
    ensures Partition(v)
  {
    hide Distinct;
    assert forall id :: id in v.clients <==> id in w.clients.Keys;
  }

  /** Taking the first free ID. In particular one is free whenever there is room for another client. */
  lemma TakePartition<H(!new)>(w: World<H>, h: H)
    requires Partition(w) && |w.clients| < w.maxCount
    ensures |w.available| > 0 && w.available[0] !in w.clients
    ensures Partition(w.(clients := w.clients[w.available[0] := h], available := w.available[1..],
      issued := w.issued + [w.available[0]]))
  {
    hide Distinct, IdsUpTo;
    var id, rest := w.available[0], w.available[1..];
    DistinctRest(w.available);
    assert w.available == [id] + rest;
    forall other
      ensures other in w.available <==> other == id || other in rest
    {
    }
    assert id in w.available;
    assert w.clients[id := h].Keys == w.clients.Keys + {id};
    assert w.issued + [id] + rest == w.issued + w.available;
  }

  lemma FreePartition<H(!new)>(w: World<H>, id: int)
    requires Partition(w) && id in w.clients
    ensures Partition(w.(clients := w.clients - {id}, available := w.available + [id], freed := w.freed + [id]))
  {
    hide Distinct, IdsUpTo;
    DistinctAppend(w.available, id);
    assert (w.clients - {id}).Keys == w.clients.Keys - {id};
    assert w.issued + (w.available + [id]) == (w.issued + w.available) + [id];
    assert IdsUpTo(w.maxCount) + (w.freed + [id]) == (IdsUpTo(w.maxCount) + w.freed) + [id];
  }

  lemma AdmittedPartition<H(!new)>(w: World<H>, h: H)
    requires Partition(w) && h in w.lives
    ensures Partition(Admitted(w, h))
  {
    hide Partition, IdsUpTo;
    if |w.clients| < w.maxCount {
      TakePartition(w, h);
      var v := w.(clients := w.clients[w.available[0] := h], available := w.available[1..],
          issued := w.issued + [w.available[0]]);
      SamePartition(v, Admitted(w, h));
    } else {
      SamePartition(w, Admitted(w, h));
    }
  }

  lemma StepPartition<H(!new)>(w: World<H>, step: Step<H>)
    requires Partition(w) && Possible(w, step)
    ensures Partition(Next(w, step))
  {
    hide Partition, Admitted, Without;
    match step
    case Attempt(h) => SamePartition(w, Next(w, step));
    case Connect(h, asks) =>
      var v := MadePending(w, h);
      SamePartition(w, v);
      if !asks {
        AdmittedPartition(v, h);
      } else {
        SamePartition(w, Next(w, step));
      }
    case Accept(h) =>
      if h in w.pending {
        var v := w.(pending := Without(w.pending, h));
        SamePartition(w, v);
        AdmittedPartition(v, h);
      }
    case Reject(h) => SamePartition(w, Next(w, step));
    case Welcome(h) => SamePartition(w, Next(w, step));
    case Disconnect(h) =>
      var id := w.lives[h].id;
      if id in w.clients {
        FreePartition(w, id);
        SamePartition(w.(clients := w.clients - {id}, available := w.available + [id], freed := w.freed + [id]),
            Next(w, step));
      } else {
        SamePartition(w, Next(w, step));
      }
  }

  lemma StartPartition<H(!new)>(maxCount: int, lives: map<H, Life>)
    ensures Partition(Started(maxCount, lives))
  {
    var ids := IdsUpTo(maxCount);
    assert [] + ids == ids + [];
    forall id
      ensures id in ids <==> 1 <= id <= maxCount
    {
      if 1 <= id <= maxCount {
        assert ids[id - 1] == id;
      }
    }
  }

  /** In every run after a start: free and registered IDs partition the range, ID 0 is never issued, and a freed ID
      is issued again only after all that were free before it. */
  lemma {:induction false} RunPartition<H(!new)>(maxCount: int, lives: map<H, Life>, steps: seq<Step<H>>)
    ensures Partition(After(Started(maxCount, lives), steps))
  {
    hide Partition, Next;
    if |steps| == 0 {
      StartPartition(maxCount, lives);
    } else {
      RunPartition(maxCount, lives, steps[..|steps| - 1]);
      var v := After(Started(maxCount, lives), steps[..|steps| - 1]);
      if Possible(v, steps[|steps| - 1]) {
        StepPartition(v, steps[|steps| - 1]);
      }
    }
  }

  // ---------- the life of a connection ----------

  /** The events raised for a connection are a beginning of [ClientConnected, ClientDisconnected] or
      [ConnectionFailed], and the status says how far it got. */
  predicate Orderly(life: Life) {
    match life.status
    case Connecting => life.events == []
    case Pending => life.events == []
    case Connected => life.events == [ClientConnected]
    case NotConnected => life.events in {[], [ClientConnected], [ClientConnected, ClientDisconnected],
        [ConnectionFailed]}
  }

  predicate AllOrderly<H(==)>(w: World<H>) {
    forall h | h in w.lives :: Orderly(w.lives[h])
  }

  /** One step touches one life only, keeps it orderly, and never brings a dead connection back or raises an event
      for it. */
  lemma StepLife<H(!new)>(w: World<H>, step: Step<H>, h: H)
    requires Possible(w, step) && h in w.lives && Orderly(w.lives[h])
    ensures h in Next(w, step).lives && Orderly(Next(w, step).lives[h])
    ensures h != step.h ==> Next(w, step).lives[h] == w.lives[h]
    ensures w.lives[h].status == NotConnected ==>
      Next(w, step).lives[h].status == NotConnected && Next(w, step).lives[h].events == w.lives[h].events
  {
    hide Next, Orderly;
    if h == step.h {
      OwnLife(w, step);
    } else {
      OtherLife(w, step, h);
    }
  }

  lemma OtherLife<H(!new)>(w: World<H>, step: Step<H>, h: H)
    requires Possible(w, step) && h in w.lives && h != step.h
    ensures h in Next(w, step).lives && Next(w, step).lives[h] == w.lives[h]
  {
    hide Without, IdsUpTo;
  }

  lemma OwnLife<H(!new)>(w: World<H>, step: Step<H>)
    requires Possible(w, step) && step.h in w.lives && Orderly(w.lives[step.h])
    ensures step.h in Next(w, step).lives && Orderly(Next(w, step).lives[step.h])
    ensures w.lives[step.h].status == NotConnected ==>
      Next(w, step).lives[step.h].status == NotConnected && Next(w, step).lives[step.h].events == w.lives[step.h].events
  {
    hide Without, IdsUpTo, Orderly;
    var life := w.lives[step.h];
    MoreEvents(life);
    match step
    case Connect(h, asks) =>
      MadePendingLife(w, h);
      MoreEvents(MadePending(w, h).lives[h]);
    case _ =>
  }

  lemma MadePendingLife<H(!new)>(w: World<H>, h: H)
    requires h in w.lives && Orderly(w.lives[h])
    ensures h in MadePending(w, h).lives
    ensures
      var life := MadePending(w, h).lives[h];
      Orderly(life) && (w.lives[h].status == NotConnected ==> life == w.lives[h])
  {
    hide Orderly;
    MoreEvents(w.lives[h]);
  }

  /** What each change does to an orderly life. */
  lemma MoreEvents(life: Life)
    requires Orderly(life)
    ensures life.events + [] == life.events
    ensures Orderly(life.(status := NotConnected))
    ensures forall id: int :: Orderly(life.(id := id))
    ensures life.status == Connecting ==> Orderly(life.(status := Pending))
    ensures life.status == Pending ==> Orderly(life.(status := Connected, events := life.events + [ClientConnected]))
    ensures life.status == Pending ==>
      Orderly(life.(status := NotConnected, events := life.events + [ConnectionFailed]))
    ensures life.status == Connected ==>
      Orderly(life.(status := NotConnected, events := life.events + [ClientDisconnected]))
  {
    if life.status == Connected {
      assert life.events + [ClientDisconnected] == [ClientConnected, ClientDisconnected];
    } else if life.status == Pending {
      assert life.events + [ClientConnected] == [ClientConnected];
      assert life.events + [ConnectionFailed] == [ConnectionFailed];
    }
  }

  lemma {:induction false} RunLives<H(!new)>(w: World<H>, steps: seq<Step<H>>, h: H)
    requires AllOrderly(w)
    ensures AllOrderly(After(w, steps))
    ensures h in w.lives ==> h in After(w, steps).lives
    ensures h in w.lives && w.lives[h].status == NotConnected ==>
      After(w, steps).lives[h].status == NotConnected && After(w, steps).lives[h].events == w.lives[h].events
  {
    hide Next, Possible, Orderly;
    if |steps| > 0 {
      RunLives(w, steps[..|steps| - 1], h);
      var v, step := After(w, steps[..|steps| - 1]), steps[|steps| - 1];
      if Possible(v, step) {
        forall g | g in Next(v, step).lives
          ensures Orderly(Next(v, step).lives[g])
        {
          NextOrderly(v, step, g);
        }
        if h in w.lives {
          StepLife(v, step, h);
        }
      }
    }
  }

  lemma NextOrderly<H(!new)>(w: World<H>, step: Step<H>, h: H)
    requires Possible(w, step) && AllOrderly(w) && h in Next(w, step).lives
    ensures Orderly(Next(w, step).lives[h])
  {
    hide Without, IdsUpTo, Orderly;
    if h in w.lives {
      StepLife(w, step, h);
    } else {
      FreshOrderly();
    }
  }

  lemma FreshOrderly()
    ensures Orderly(NEW)
  {
  }

  // ---------- who is registered under which ID ----------

  /** Every entry is under its connection's own ID, and every connected client has its entry. */
  ghost predicate Registered<H(!new)>(w: World<H>) {
    && w.clients.Values <= w.lives.Keys
    && (forall id | id in w.clients :: w.lives[w.clients[id]].id == id)
    && (forall h | h in w.lives && w.lives[h].status == Connected :: HasEntry(w, h))
  }

  predicate HasEntry<H(==)>(w: World<H>, h: H)
    requires h in w.lives
  {
    w.lives[h].id in w.clients && w.clients[w.lives[h].id] == h
  }

  /** Whether the connection is about to get an ID. */
  predicate Admits<H(==)>(w: World<H>, step: Step<H>) {
    |w.clients| < w.maxCount && ((step.Connect? && !step.asks) || (step.Accept? && step.h in w.pending))
  }

  /** The checks that the code leaves out: a connection that is there already gets no second ID; a welcome counts
      only from a connection that has an entry; a disconnect does not remove the entry of another, connected, client. */
  predicate Checked<H(==)>(w: World<H>, step: Step<H>)
    requires Possible(w, step) && w.clients.Values <= w.lives.Keys
  {
    && (Admits(w, step) ==> step.h !in w.clients.Values)
    && (step.Welcome? && w.lives[step.h].status == Pending ==> HasEntry(w, step.h))
    && (step.Disconnect? && w.lives[step.h].id in w.clients ==>
          var owner := w.clients[w.lives[step.h].id];
          owner != step.h ==> w.lives[owner].status != Connected)
  }

  /** A step keeps the registration right exactly when these checks hold. */
  lemma RegisteredIff<H(!new)>(w: World<H>, step: Step<H>)
    requires Registered(w) && Partition(w) && Possible(w, step)
    ensures Registered(Next(w, step)) <==> Checked(w, step)
  {
    hide Partition, Registered, HasEntry, Admitted, Rejected, Welcomed, Disconnected, Without;
    match step
    case Attempt(h) => AttemptRegistered(w, h);
    case Connect(h, asks) =>
      var v := MadePending(w, h);
      PendingRegistered(w, h);
      if !asks {
        AdmittedRegistered(v, h);
      } else if |v.clients| < v.maxCount && h !in v.clients.Values && h !in v.pending {
        AskedRegistered(v, h);
      } else {
        RejectedRegistered(v, h);
      }
    case Accept(h) =>
      if h in w.pending {
        DroppedRegistered(w, h);
        AdmittedRegistered(w.(pending := Without(w.pending, h)), h);
      }
    case Reject(h) =>
      if h in w.pending {
        DroppedRegistered(w, h);
        RejectedRegistered(w.(pending := Without(w.pending, h)), h);
      }
    case Welcome(h) => WelcomedRegistered(w, h);
    case Disconnect(h) => DisconnectedRegistered(w, h);
  }

  lemma PendingRegistered<H(!new)>(w: World<H>, h: H)
    requires Registered(w) && Partition(w) && h in w.lives
    ensures Registered(MadePending(w, h)) && Partition(MadePending(w, h))
  {
    hide IdsUpTo, Distinct;
    var life := w.lives[h].(status := Pending, events := w.lives[h].events + []);
    SameRegistered(w, MadePending(w, h), h);
  }

  lemma AskedRegistered<H(!new)>(w: World<H>, h: H)
    requires Registered(w) && h in w.lives
    ensures Registered(w.(pending := w.pending + [h]))
  {
    SameRegistered(w, w.(pending := w.pending + [h]), h);
  }

  lemma DroppedRegistered<H(!new)>(w: World<H>, h: H)
    requires Registered(w) && Partition(w) && h in w.lives
    ensures var v := w.(pending := Without(w.pending, h)); Registered(v) && Partition(v)
  {
    hide IdsUpTo, Distinct, Without;
    SameRegistered(w, w.(pending := Without(w.pending, h)), h);
  }

  lemma AttemptRegistered<H(!new)>(w: World<H>, h: H)
    requires Registered(w) && h !in w.lives
    ensures Registered(w.(lives := w.lives[h := NEW]))
  {
    var v := w.(lives := w.lives[h := NEW]);
    forall g | g in v.lives && v.lives[g].status == Connected
      ensures HasEntry(v, g)
    {
      assert HasEntry(w, g);
    }
  }

  /** A change of one life to a status other than connected. */
  lemma SameRegistered<H(!new)>(w: World<H>, v: World<H>, h: H)
    requires Registered(w) && h in w.lives && v.clients == w.clients
    requires v.lives == w.lives ||
      exists life: Life :: life.status != Connected && life.id == w.lives[h].id && v.lives == w.lives[h := life]
    ensures Registered(v)
  {
    forall g | g in v.lives && v.lives[g].status == Connected
      ensures HasEntry(v, g)
    {
      assert HasEntry(w, g);
    }
  }

  lemma RejectedRegistered<H(!new)>(w: World<H>, h: H)
    requires Registered(w) && h in w.lives
    ensures Registered(Rejected(w, h))
  {
    var life := w.lives[h].(status := NotConnected, events := w.lives[h].events + []);
    SameRegistered(w, Rejected(w, h), h);
  }

  lemma AdmittedRegistered<H(!new)>(w: World<H>, h: H)
    requires Registered(w) && Partition(w) && h in w.lives
    ensures Registered(Admitted(w, h)) <==> (|w.clients| < w.maxCount ==> h !in w.clients.Values)
  {
    hide IdsUpTo, Distinct, Partition;
    if |w.clients| < w.maxCount {
      TakePartition(w, h);
      GivenRegistered(w, Admitted(w, h), h, w.available[0]);
    } else {
      RejectedRegistered(w, h);
    }
  }

  lemma KeyOf<H(!new)>(m: map<int, H>, h: H) returns (k: int)
    requires h in m.Values
    ensures k in m && m[k] == h
  {
    if forall i | i in m.Keys :: m[i] != h {
      assert false;
    }
    k :| k in m.Keys && m[k] == h;
  }

  lemma GivenRegistered<H(!new)>(w: World<H>, v: World<H>, h: H, id: int)
    requires Registered(w) && h in w.lives && id !in w.clients
    requires v.clients == w.clients[id := h] && v.lives == w.lives[h := w.lives[h].(id := id)]
    ensures Registered(v) <==> h !in w.clients.Values
  {
    if h in w.clients.Values {
      var k := KeyOf(w.clients, h);
      assert k in v.clients && v.clients[k] == h;
    } else {
      forall k | k in v.clients
        ensures v.clients[k] in v.lives && v.lives[v.clients[k]].id == k
      {
        assert k != id ==> k in w.clients && w.clients[k] in w.clients.Values;
      }
      forall g | g in v.lives && v.lives[g].status == Connected
        ensures HasEntry(v, g)
      {
        assert HasEntry(w, g);
      }
    }
  }

  lemma WelcomedRegistered<H(!new)>(w: World<H>, h: H)
    requires Registered(w) && h in w.lives
    ensures Registered(Welcomed(w, h)) <==> (w.lives[h].status == Pending ==> HasEntry(w, h))
  {
    var v := Welcomed(w, h);
    assert HasEntry(v, h) == HasEntry(w, h);
    forall g | g in v.lives && g != h && v.lives[g].status == Connected
      ensures HasEntry(v, g)
    {
      assert HasEntry(w, g);
    }
  }

  lemma DisconnectedRegistered<H(!new)>(w: World<H>, h: H)
    requires Registered(w) && h in w.lives
    ensures Registered(Disconnected(w, h)) <==>
            (w.lives[h].id in w.clients && w.clients[w.lives[h].id] != h ==>
                w.lives[w.clients[w.lives[h].id]].status != Connected)
  {
    var id, v := w.lives[h].id, Disconnected(w, h);
    if id in w.clients && w.clients[id] != h && w.lives[w.clients[id]].status == Connected {
      assert !HasEntry(v, w.clients[id]);
    } else {
      forall k | k in v.clients
        ensures v.clients[k] in v.lives && v.lives[v.clients[k]].id == k
      {
        assert w.clients[k] in w.clients.Values;
      }
      forall g | g in v.lives && v.lives[g].status == Connected
        ensures HasEntry(v, g)
      {
        assert HasEntry(w, g);
      }
    }
  }

  /** Over every run in which each step passes the checks, every connected client is found under its own ID. */
  lemma {:induction false} RunRegistered<H(!new)>(maxCount: int, steps: seq<Step<H>>)
    requires CheckedRun(maxCount, steps)
    ensures Registered(After(Started(maxCount, map[]), steps))
  {
    hide Registered, Partition, Next, Possible, Checked, Started;
    if |steps| == 0 {
      StartRegistered<H>(maxCount);
    } else {
      RunRegistered(maxCount, steps[..|steps| - 1]);
      var v := After(Started(maxCount, map[]), steps[..|steps| - 1]);
      RunPartition(maxCount, map[], steps[..|steps| - 1]);
      if Possible(v, steps[|steps| - 1]) {
        RegisteredIff(v, steps[|steps| - 1]);
      }
    }
  }

  ghost predicate CheckedRun<H(!new)>(maxCount: int, steps: seq<Step<H>>) {
    |steps| > 0 ==>
      var v := After(Started(maxCount, map[]), steps[..|steps| - 1]);
      && CheckedRun(maxCount, steps[..|steps| - 1])
      && (Possible(v, steps[|steps| - 1]) ==> v.clients.Values <= v.lives.Keys && Checked(v, steps[|steps| - 1]))
  }

  lemma StartRegistered<H(!new)>(maxCount: int)
    ensures Registered<H>(Started(maxCount, map[]))
  {
  }

  /** A run that fails a check: the ID of a client that left goes to the next one, and a second disconnect of the
      first removes the second, which goes on being connected. */
  const LATE: seq<Step<int>> :=
    [Attempt(7), Attempt(8), Connect(7, false), Disconnect(7), Connect(8, false), Welcome(8), Disconnect(7)]

  lemma LateDisconnect()
    ensures
      var w := After(Started(1, map[]), LATE);
      8 in w.lives && w.lives[8].status == Connected && w.clients == map[] && w.available == [1]
  {
    hide After;
    var w: World<int> := Started(1, map[]);
    LateFirst();
    AppendStep(w, LATE, 4);
    AppendStep(w, LATE, 5);
    AppendStep(w, LATE, 6);
    assert LATE[..7] == LATE;
    var v := After(w, LATE[..5]);
    assert v.clients.Keys == {1};
  }

  /** Another one: a connection that is handed in twice gets two IDs, and its first entry is not under its own. (The
      TCP and UDP transports drop a second connect message; `acceptConnection` itself does not mind.) */
  const TWICE: seq<Step<int>> := [Attempt(7), Connect(7, false), Connect(7, false)]

  lemma ConnectedTwice()
    ensures
      var w := After(Started(2, map[]), TWICE);
      7 in w.lives && w.lives[7].id == 2 && w.clients == map[1 := 7, 2 := 7] && w.available == []
  {
    hide After;
    var w: World<int> := Started(2, map[]);
    assert IdsUpTo(0) == [] && IdsUpTo(1) == [1] && IdsUpTo(2) == [1, 2];
    assert TWICE[..0] == [];
    EmptyRun(w);
    AppendStep(w, TWICE, 0);
    AppendStep(w, TWICE, 1);
    var v := After(w, TWICE[..2]);
    assert v.clients == map[1 := 7] && v.available == [2];
    AppendStep(w, TWICE, 2);
    assert TWICE[..3] == TWICE;
  }

  /** A client that waits to be accepted and sends a welcome all the same: it is connected, with the event, and has
      neither an ID nor an entry. */
  const UNASKED: seq<Step<int>> := [Attempt(7), Connect(7, true), Welcome(7)]

  lemma WelcomedUnasked()
    ensures
      var w := After(Started(1, map[]), UNASKED);
      && 7 in w.lives && w.lives[7] == Life(Connected, 0, [ClientConnected])
      && w.clients == map[] && w.available == [1] && w.pending == [7]
  {
    hide After;
    var w: World<int> := Started(1, map[]);
    assert IdsUpTo(0) == [] && IdsUpTo(1) == [1];
    assert UNASKED[..0] == [];
    EmptyRun(w);
    AppendStep(w, UNASKED, 0);
    AppendStep(w, UNASKED, 1);
    AppendStep(w, UNASKED, 2);
    assert UNASKED[..3] == UNASKED;
    var none: seq<Event> := [];
    assert none + [] + [ClientConnected] == [ClientConnected];
    var nobody: seq<int> := [];
    assert nobody + [7] == [7];
  }

  lemma LateFirst()
    ensures
      var w := After(Started(1, map[]), LATE[..4]);
      && w.lives.Keys == {7, 8} && w.clients == map[] && w.available == [1] && w.maxCount == 1
      && w.lives[7].id == 1 && w.lives[7].status == NotConnected && w.lives[8] == NEW
  {
    hide After;
    var w: World<int> := Started(1, map[]);
    assert IdsUpTo(0) == [] && IdsUpTo(1) == [1];
    assert LATE[..0] == [];
    EmptyRun(w);
    AppendStep(w, LATE, 0);
    AppendStep(w, LATE, 1);
    AppendStep(w, LATE, 2);
    var v := After(w, LATE[..3]);
    assert v.clients == map[1 := 7] && v.available == [];
    AppendStep(w, LATE, 3);
  }

  lemma EmptyRun<H(!new)>(w: World<H>)
    ensures After(w, []) == w
  {
  }

  lemma AppendStep<H(!new)>(w: World<H>, steps: seq<Step<H>>, n: nat)
    requires n < |steps|
    ensures After(w, steps[..n + 1]) ==
      (var v := After(w, steps[..n]); if Possible(v, steps[n]) then Next(v, steps[n]) else v)
  {
    hide Next, Possible;
    assert steps[..n + 1][..n] == steps[..n];
  }
}
