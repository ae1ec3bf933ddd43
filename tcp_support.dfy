/** TcpSupport as an object whose methods update its fields in place. Each
    method performs one operation of the server and is specified by the
    function of module TcpState that describes the same event, so every
    property proved there (the invariant, the per-event lemmas, the
    broadcast and loop lemmas) holds of the object's state after the call. */
module NetworkSupport {
  import opened Text
  import opened TcpState

  class TcpSupport {
    var clients: map<string, ClientId>
    var numConnectedSockets: int
    var isRunning: bool
    var cancelled: bool
    var listening: bool
    var acceptLoops: nat
    var sessions: map<ClientId, Session>
    var closed: set<ClientId>
    var writes: seq<Write>
    var nextClient: ClientId

    /** The object's fields as a state of the server. */
    function State(): Server
      reads this
    {
      Server(clients, numConnectedSockets, isRunning, cancelled, listening,
             acceptLoops, sessions, closed, writes, nextClient)
    }

    /** A new server: an empty table, the counter at zero, a fresh token and
        a listener that is not yet started. The port is not modelled. */
    constructor ()
      ensures State() == Initial()
      ensures Inv(State())
    {
      clients := map[];
      numConnectedSockets := 0;
      isRunning := false;
      cancelled := false;
      listening := false;
      acceptLoops := 0;
      sessions := map[];
      closed := {};
      writes := [];
      nextClient := 0;
      InitialInv();
    }

    /** Run: `bound` says whether the listener could bind its port; when it
        cannot, Start throws before the running flag is set. */
    method Run(bound: bool) returns (out: Outcome)
      modifies this
      ensures (State(), out) == TcpState.Run(old(State()), bound)
    {
      if !bound {
        return Raised(SocketError);
      }
      listening := true;
      isRunning := true;
      acceptLoops := acceptLoops + 1;
      out := Completed;
    }

    /** Stop: cancel, stop the listener, then Client.Close() on each stored
      client in the dictionary's enumeration order (returned as `order`),
      then clear the table. A disposed client's Client is null: the close
      throws and Stop leaves before the table is cleared. */
    method Stop() returns (out: Outcome, ghost order: seq<string>)
      modifies this
      ensures IsEnumeration(order, old(clients))
      ensures (State(), out) == TcpState.Stop(old(State()), order)
    {
      cancelled := true;
      listening := false;
      out, order := CloseAll();
      if out.Raised? {
        return;
      }
      clients := map[];
    }

    /** The foreach of Stop: one Close per client of the table, in the
        order the enumeration visits the keys (returned as `order`); an
        exception leaves the loop and propagates. */
    method CloseAll() returns (out: Outcome, ghost order: seq<string>)
      modifies this
      ensures IsEnumeration(order, old(clients))
      ensures (State(), out) == CloseEach(old(State()), order)
    {
      ghost var s0 := State();
      var remaining := clients.Keys;
      order := [];
      out := Completed;
      while remaining != {}
        invariant clients == s0.clients
        invariant remaining <= clients.Keys
        invariant forall i, j :: 0 <= i < j < |order| ==> order[i] != order[j]
        invariant forall i :: 0 <= i < |order| ==> order[i] in clients && order[i] !in remaining
        invariant forall k :: k in clients ==> k in remaining || k in order
        invariant (State(), out) == CloseEach(s0, order)
        invariant out == Completed
        decreases remaining
      {
        var key :| key in remaining;
        var client := clients[key];
        remaining := remaining - {key};
        CloseEachStep(s0, order, key);
        order := order + [key];
        out := CloseClient(client);
        if out.Raised? {
          ghost var rest := Enumerate(remaining);
          EnumerationOfRest(order, remaining, clients);
          CloseEachAfterRaise(s0, order, rest);
          order := order + rest;
          return;
        }
      }
    }

    /** Client.Close() on a stored client. */
    method CloseClient(c: ClientId) returns (out: Outcome)
      modifies this
      ensures (State(), out) == Close(old(State()), c)
    {
      if c in sessions && sessions[c].phase == Exited {
        return Raised(NullReference);
      }
      closed := closed + {c};
      out := Completed;
    }

    method RestartListener()
      modifies this
      ensures State() == TcpState.RestartListener(old(State()))
    {
      isRunning := true;
      listening := true;
      acceptLoops := acceptLoops + 1;
    }

    /** AcceptClientsAsync: `incoming` lists the remote endpoints of the
        connections that arrive, in order. Each one accepted gets a fresh
        handle and a session waiting for its probe; the sessions themselves
        run as separate calls of Echo. */
    method AcceptClients(incoming: seq<string>) returns (accepted: seq<ClientId>)
      modifies this
      ensures (State(), accepted) == AcceptAll(old(State()), incoming)
    {
      accepted := [];
      var i := 0;
      while !cancelled && i < |incoming|
        invariant 0 <= i <= |incoming|
        invariant AcceptAll(old(State()), incoming).0 == AcceptAll(State(), incoming[i..]).0
        invariant AcceptAll(old(State()), incoming).1 == accepted + AcceptAll(State(), incoming[i..]).1
      {
        if !listening {
          break;
        }
        var client := nextClient;
        sessions := sessions[client := Session(incoming[i], Probing)];
        nextClient := client + 1;
        assert incoming[i..][1..] == incoming[i + 1..];
        accepted := accepted + [client];
        i := i + 1;
      }
      assert accepted + [] == accepted;
    }

    /** The probe at the top of EchoAsync and the registration after it. */
    method ProbeAndRegister(c: ClientId, probe: Probe)
      requires InPhase(State(), c, Probing)
      modifies this
      ensures State() == TcpState.ProbeAndRegister(old(State()), c, probe)
    {
      var ip := sessions[c].ip;
      if probe == Peeked(0) {
        sessions := sessions - {c};
        closed := closed + {c};
        return;
      }
      numConnectedSockets := numConnectedSockets + 1;
      if ip !in clients {
        clients := clients[ip := c];
      }
      sessions := sessions[c := Session(ip, Active)];
    }

    /** Leaving the loop: the using blocks dispose the stream and client. */
    method LeaveLoop(c: ClientId)
      requires InPhase(State(), c, Active)
      modifies this
      ensures State() == TcpState.LeaveLoop(old(State()), c)
    {
      sessions := sessions[c := Session(sessions[c].ip, Exited)];
      closed := closed + {c};
    }

    /** The end of EchoAsync. */
    method Teardown(c: ClientId) returns (out: Outcome)
      requires InPhase(State(), c, Exited)
      modifies this
      ensures (State(), out) == TcpState.Teardown(old(State()), c)
    {
      var ip := sessions[c].ip;
      numConnectedSockets := numConnectedSockets - 1;
      sessions := sessions - {c};
      if ip !in clients {
        return Raised(NullReference);
      }
      var removed := clients[ip];
      clients := clients - {ip};
      closed := closed + {removed};
      if isRunning {
        RestartListener();
      }
      out := Completed;
    }

    /** EchoAsync for the session of handle `c`: probe and register, then the
        loop, one pass per element of `steps` (the guard on the token, the
        heartbeat, the read), and the teardown once the loop is left. */
    method Echo(c: ClientId, probe: Probe, steps: seq<Step>)
      requires InPhase(State(), c, Probing)
      modifies this
      ensures State() == TcpState.Echo(old(State()), c, probe, steps)
    {
      ProbeAndRegister(c, probe);
      if c !in sessions {
        return;
      }
      ghost var registered := State();
      var i := 0;
      while i < |steps|
        invariant 0 <= i <= |steps|
        invariant InPhase(State(), c, Active)
        invariant RunLoop(State(), c, steps[i..]) == RunLoop(registered, c, steps)
      {
        if cancelled {
          break;
        }
        var _ := Send(Some(c), Some(Heartbeat), steps[i].canWrite);
        if EndsSession(steps[i].read) {
          break;
        }
        assert steps[i..][1..] == steps[i + 1..];
        i := i + 1;
      }
      if i < |steps| {
        LeaveLoop(c);
        var _ := Teardown(c);
      }
    }

    /** Send: null arguments throw; a disposed client's ObjectDisposedException
        is swallowed; `canWrite` is what the stream's CanWrite reports. */
    method Send(client: Option<ClientId>, data: Option<Bytes>, canWrite: bool) returns (out: Outcome)
      modifies this
      ensures (State(), out) == TcpState.Send(old(State()), client, data, canWrite)
    {
      if client.None? || data.None? {
        return Raised(ArgumentNull);
      }
      if client.value !in closed && canWrite {
        writes := writes + [Write(client.value, data.value)];
      }
      out := Completed;
    }

    /** SendToAll(byte[]): one Send per entry of the table, in the order the
        enumeration visits the keys (returned as `order`); an exception
        leaves the loop and propagates. */
    method SendToAll(data: Option<Bytes>, writable: set<ClientId>) returns (out: Outcome, ghost order: seq<string>)
      modifies this
      ensures IsEnumeration(order, old(clients))
      ensures (State(), out) == TcpState.SendToAll(old(State()), data, writable, order)
    {
      ghost var s0 := State();
      var remaining := clients.Keys;
      order := [];
      out := Completed;
      while remaining != {}
        invariant clients == s0.clients
        invariant remaining <= clients.Keys
        invariant forall i, j :: 0 <= i < j < |order| ==> order[i] != order[j]
        invariant forall i :: 0 <= i < |order| ==> order[i] in clients && order[i] !in remaining
        invariant forall k :: k in clients ==> k in remaining || k in order
        invariant (State(), out) == SendEach(s0, order, data, writable)
        invariant out == Completed
        decreases remaining
      {
        var key :| key in remaining;
        var client := clients[key];
        out := Send(Some(client), data, client in writable);
        remaining := remaining - {key};
        assert (order + [key])[..|order|] == order;
        order := order + [key];
        if out.Raised? {
          ghost var rest := Enumerate(remaining);
          SendEachAfterRaise(s0, order, rest, data, writable);
          order := order + rest;
          return;
        }
      }
    }

    /** SendToAll(string): the ASCII conversion throws on null data before
        the table is looked at. */
    method SendTextToAll(data: Option<string>, writable: set<ClientId>) returns (out: Outcome, ghost order: seq<string>)
      modifies this
      ensures data.None? ==> State() == old(State()) && out == Raised(ArgumentNull)
      ensures data.Some? ==>
        && IsEnumeration(order, old(clients))
        && (State(), out) == TcpState.SendToAll(old(State()), Some(Ascii(data.value)), writable, order)
    {
      if data.None? {
        return Raised(ArgumentNull), [];
      }
      out, order := SendToAll(Some(Ascii(data.value)), writable);
    }

    /** SendToSelectedClient(ip, byte[]). */
    method SendToSelectedClient(ip: string, data: Option<Bytes>, canWrite: bool) returns (out: Outcome)
      modifies this
      ensures (State(), out) == TcpState.SendToSelectedClient(old(State()), ip, data, canWrite)
    {
      if ip !in clients {
        return Raised(KeyNotFound);
      }
      out := Send(Some(clients[ip]), data, canWrite);
    }

    /** SendToSelectedClient(ip, string): the indexer is evaluated before the
        ASCII conversion, so an absent key wins over null data. */
    method SendTextToSelectedClient(ip: string, data: Option<string>, canWrite: bool) returns (out: Outcome)
      modifies this
      ensures ip !in old(clients) ==> State() == old(State()) && out == Raised(KeyNotFound)
      ensures ip in old(clients) && data.None? ==> State() == old(State()) && out == Raised(ArgumentNull)
      ensures data.Some? ==>
        (State(), out) == TcpState.SendToSelectedClient(old(State()), ip, Some(Ascii(data.value)), canWrite)
    {
      if ip !in clients {
        return Raised(KeyNotFound);
      }
      if data.None? {
        return Raised(ArgumentNull);
      }
      out := SendToSelectedClient(ip, Some(Ascii(data.value)), canWrite);
    }
  }

  /** Some enumeration of a set of keys. */
  ghost function Enumerate(keys: set<string>): (order: seq<string>)
    ensures forall i, j :: 0 <= i < j < |order| ==> order[i] != order[j]
    ensures forall i :: 0 <= i < |order| ==> order[i] in keys
    ensures forall k :: k in keys ==> k in order
    decreases keys
  {
    if keys == {} then []
    else
      var k :| k in keys;
      [k] + Enumerate(keys - {k})
  }

  /** Keys visited so far, then the ones not yet visited in some order:
      together an enumeration of the table. */
  lemma EnumerationOfRest(order: seq<string>, remaining: set<string>, table: map<string, ClientId>)
    requires remaining <= table.Keys
    requires forall i, j :: 0 <= i < j < |order| ==> order[i] != order[j]
    requires forall i :: 0 <= i < |order| ==> order[i] in table && order[i] !in remaining
    requires forall k :: k in table ==> k in remaining || k in order
    ensures IsEnumeration(order + Enumerate(remaining), table)
  {
    var rest := Enumerate(remaining);
    var all := order + rest;
    forall i, j | 0 <= i < j < |all|
      ensures all[i] != all[j]
    {
      if j >= |order| && i < |order| {
        assert all[j] in remaining;
      }
    }
  }
}
