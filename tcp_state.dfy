/** The bookkeeping of TcpSupport as a sequential state machine: one
    function per event of the server (Run, an accepted connection, a
    session's probe, one iteration of its loop, its teardown, Stop and the
    two send operations). The class in module NetworkSupport performs the
    same events in place and is specified by these functions.

    Sockets are abstracted: a connection is a handle (a number handed out at
    accept), closing it puts it in `closed`, and every write that reaches a
    stream is appended to `writes`. What the network reports (the probe,
    each read, whether a stream can be written) is an input of the event. */
module TcpState {
  import opened Text

  type ClientId = nat

  /** Where a session task stands: accepted and not yet probed, in its read
      loop, or out of the loop and waiting to tear down. */
  datatype Phase = Probing | Active | Exited

  datatype Session = Session(ip: string, phase: Phase)

  datatype Write = Write(client: ClientId, data: Bytes)

  datatype Server = Server(
    clients: map<string, ClientId>,   // _clients
    numConnectedSockets: int,         // _numConnectedSockets
    isRunning: bool,                  // _isRunning
    cancelled: bool,                  // the cancellation token
    listening: bool,                  // the listener is started
    acceptLoops: nat,                 // accept loops launched so far
    sessions: map<ClientId, Session>, // session tasks still running
    closed: set<ClientId>,            // handles closed or disposed
    writes: seq<Write>,               // every write issued to a stream
    nextClient: ClientId)             // the handle the next accept gets

  /** What the probe sees: Poll reported nothing, or a Peek of this many
      bytes (zero: the peer has already closed). */
  datatype Probe = Quiet | Peeked(count: nat)

  /** How one wait in the session loop ends: the 610-second delay wins, the
      read task is faulted or canceled, the read returns a count, or
      something inside the try block throws. */
  datatype ReadOutcome = TimedOut | Faulted | Canceled | Read(count: nat) | Thrown

  /** One iteration's observations: whether the stream can be written when
      the heartbeat is sent, and how the read ends. */
  datatype Step = Step(canWrite: bool, read: ReadOutcome)

  /** Exceptions that escape to the caller. */
  datatype Error = ArgumentNull | KeyNotFound | NullReference | SocketError

  datatype Outcome = Completed | Raised(error: Error)

  /** The payload every session sends at the top of each iteration: the
      text "Message from the server" as Encoding.ASCII writes it, one byte
      per character. */
  const Heartbeat: Bytes :=
    [77, 101, 115, 115, 97, 103, 101, 32, 102, 114, 111, 109, 32, 116, 104, 101, 32, 115, 101, 114, 118, 101, 114]

  /** A fresh TcpSupport: empty table, counter 0, not running. */
  function Initial(): Server
  {
    Server(map[], 0, false, false, false, 0, map[], {}, [], 0)
  }

  // ---------------------------------------------------------------------
  // Lifecycle

  /** Starting the listener and launching an accept loop, as Run and
      RestartListener both do. */
  function Listen(s: Server): Server
  {
    s.(listening := true, acceptLoops := s.acceptLoops + 1)
  }

  /** Run: start the listener (which fails when the port cannot be bound),
      then set the running flag and launch the accept loop. */
  function Run(s: Server, bound: bool): (Server, Outcome)
  {
    if !bound then (s, Raised(SocketError))
    else (Listen(s).(isRunning := true), Completed)
  }

  /** RestartListener: set the running flag, start the listener (a no-op
      when it is already started) and launch one more accept loop. */
  function RestartListener(s: Server): Server
  {
    Listen(s.(isRunning := true))
  }

  /** A stored client whose session has left its using blocks and not yet
      torn down is disposed: its Client property is then null. */
  predicate Disposed(s: Server, c: ClientId)
  {
    c in s.sessions && s.sessions[c].phase == Exited
  }

  /** Client.Close() on a stored client: on a disposed client the call is
      made on null and throws NullReferenceException. */
  function Close(s: Server, c: ClientId): (Server, Outcome)
  {
    if Disposed(s, c) then (s, Raised(NullReference))
    else (s.(closed := s.closed + {c}), Completed)
  }

  /** The foreach of Stop over the first keys of `order`: one Close per
      stored client. The try/finally does not catch, so an exception ends
      the loop. */
  function CloseEach(s: Server, order: seq<string>): (r: (Server, Outcome))
    requires forall i :: 0 <= i < |order| ==> order[i] in s.clients
    ensures r.0.(closed := s.closed) == s && s.closed <= r.0.closed
    decreases |order|
  {
    if order == [] then (s, Completed)
    else
      var before := CloseEach(s, order[..|order| - 1]);
      var c := s.clients[order[|order| - 1]];
      if before.1.Raised? then before else Close(before.0, c)
  }

  /** Stop: cancel the token and stop the listener, close the stored clients
      in the order the dictionary enumerates them (`order`), then clear the
      table. An exception from a close leaves Stop before the table is
      cleared. The running flag is left as it is. */
  function Stop(s: Server, order: seq<string>): (Server, Outcome)
    requires IsEnumeration(order, s.clients)
  {
    var (closing, out) := CloseEach(s.(cancelled := true, listening := false), order);
    if out.Raised? then (closing, out) else (closing.(clients := map[]), Completed)
  }

  // ---------------------------------------------------------------------
  // Accepting and running a session

  /** One turn of AcceptClientsAsync: while the token is not cancelled and
      the listener is started, a connection from `ip` (its remote endpoint
      as text) is accepted and a session is started for it. */
  function Accept(s: Server, ip: string): (r: (Server, Option<ClientId>))
  {
    if s.cancelled || !s.listening then (s, None)
    else
      var c := s.nextClient;
      (s.(sessions := s.sessions[c := Session(ip, Probing)], nextClient := c + 1), Some(c))
  }

  /** AcceptClientsAsync over the connections that arrive, in order: it
      accepts them one after another and stops at the first turn where the
      token is cancelled or the listener is stopped (accepting then throws
      and ends the task). Returns the handles it started sessions for. */
  function AcceptAll(s: Server, ips: seq<string>): (Server, seq<ClientId>)
    decreases |ips|
  {
    if ips == [] then (s, [])
    else
      var (t, got) := Accept(s, ips[0]);
      if got.None? then (t, [])
      else
        var (u, rest) := AcceptAll(t, ips[1..]);
        (u, [got.value] + rest)
  }

  predicate InPhase(s: Server, c: ClientId, p: Phase)
  {
    c in s.sessions && s.sessions[c].phase == p
  }

  /** The start of EchoAsync. A peek of zero bytes means the peer is gone:
      the session returns at once, its client disposed by the using block.
      Otherwise the counter goes up and the client is stored under its key
      unless the key is already there, in which case the stored client
      stays. */
  function ProbeAndRegister(s: Server, c: ClientId, probe: Probe): Server
    requires InPhase(s, c, Probing)
  {
    var ip := s.sessions[c].ip;
    if probe == Peeked(0) then
      s.(sessions := s.sessions - {c}, closed := s.closed + {c})
    else
      s.(numConnectedSockets := s.numConnectedSockets + 1,
         clients := if ip in s.clients then s.clients else s.clients[ip := c],
         sessions := s.sessions[c := Session(ip, Active)])
  }

  /** A session leaves its loop; leaving the using blocks disposes its
      stream and client. */
  function LeaveLoop(s: Server, c: ClientId): Server
    requires InPhase(s, c, Active)
  {
    s.(sessions := s.sessions[c := Session(s.sessions[c].ip, Exited)], closed := s.closed + {c})
  }

  /** Send: a null client or null data throws; a disposed client throws
      ObjectDisposedException, which is swallowed; otherwise the data is
      written when the stream reports that it can be written. */
  function Send(s: Server, client: Option<ClientId>, data: Option<Bytes>, canWrite: bool): (Server, Outcome)
  {
    if client.None? || data.None? then (s, Raised(ArgumentNull))
    else if client.value in s.closed || !canWrite then (s, Completed)
    else (s.(writes := s.writes + [Write(client.value, data.value)]), Completed)
  }

  /** The read outcomes that break out of the loop. */
  predicate EndsSession(o: ReadOutcome)
  {
    o.TimedOut? || o.Faulted? || o.Canceled? || (o.Read? && o.count == 0)
  }

  /** One pass of the session loop: the guard checks the token; then the
      heartbeat is sent, and the read's outcome decides whether the loop
      goes round again. A caught exception does not leave the loop. */
  function Iterate(s: Server, c: ClientId, step: Step): Server
    requires InPhase(s, c, Active)
  {
    if s.cancelled then LeaveLoop(s, c)
    else
      var sent := Send(s, Some(c), Some(Heartbeat), step.canWrite).0;
      if EndsSession(step.read) then LeaveLoop(sent, c) else sent
  }

  /** The end of EchoAsync: decrement the counter, remove whatever client is
      stored under the session's key and close it, then restart the
      listener if the running flag is set. With no entry under the key,
      Close is called on null and throws: no restart. */
  function Teardown(s: Server, c: ClientId): (Server, Outcome)
    requires InPhase(s, c, Exited)
  {
    var ip := s.sessions[c].ip;
    var gone := s.(numConnectedSockets := s.numConnectedSockets - 1, sessions := s.sessions - {c});
    if ip !in s.clients then (gone, Raised(NullReference))
    else
      var removed := gone.(clients := s.clients - {ip}, closed := gone.closed + {s.clients[ip]});
      (if s.isRunning then RestartListener(removed) else removed, Completed)
  }

  /** The session loop driven by a script of iterations, up to its exit or
      the end of the script (the session then still runs). */
  function RunLoop(s: Server, c: ClientId, steps: seq<Step>): (r: Server)
    requires InPhase(s, c, Active)
    ensures c in r.sessions && r.sessions[c].ip == s.sessions[c].ip
    ensures r.sessions[c].phase == Active || r.sessions[c].phase == Exited
    decreases |steps|
  {
    if steps == [] then s
    else
      var next := Iterate(s, c, steps[0]);
      if next.sessions[c].phase == Exited then next else RunLoop(next, c, steps[1..])
  }

  /** A whole EchoAsync: probe and register, the loop, and the teardown
      once the loop has been left. */
  function Echo(s: Server, c: ClientId, probe: Probe, steps: seq<Step>): Server
    requires InPhase(s, c, Probing)
  {
    var registered := ProbeAndRegister(s, c, probe);
    if c !in registered.sessions then registered
    else
      var looped := RunLoop(registered, c, steps);
      if looped.sessions[c].phase == Exited then Teardown(looped, c).0 else looped
  }

  // ---------------------------------------------------------------------
  // Sending

  /** SendToSelectedClient: the indexer throws for an absent key before Send
      is reached. */
  function SendToSelectedClient(s: Server, ip: string, data: Option<Bytes>, canWrite: bool): (Server, Outcome)
  {
    if ip !in s.clients then (s, Raised(KeyNotFound))
    else Send(s, Some(s.clients[ip]), data, canWrite)
  }

  /** `order` lists each key of the table exactly once: the order in which
      the dictionary's enumeration visits them. */
  predicate IsEnumeration(order: seq<string>, table: map<string, ClientId>)
  {
    && (forall i, j :: 0 <= i < j < |order| ==> order[i] != order[j])
    && (forall i :: 0 <= i < |order| ==> order[i] in table)
    && (forall k :: k in table ==> k in order)
  }

  /** The foreach of SendToAll over the first keys of `order`: one Send per
      key; an exception ends the loop. */
  function SendEach(s: Server, order: seq<string>, data: Option<Bytes>, writable: set<ClientId>): (Server, Outcome)
    requires forall i :: 0 <= i < |order| ==> order[i] in s.clients
    decreases |order|
  {
    if order == [] then (s, Completed)
    else
      var before := SendEach(s, order[..|order| - 1], data, writable);
      var c := s.clients[order[|order| - 1]];
      if before.1.Raised? then before else Send(before.0, Some(c), data, c in writable)
  }

  /** SendToAll, with `writable` the clients whose stream reports that it
      can be written. */
  function SendToAll(s: Server, data: Option<Bytes>, writable: set<ClientId>, order: seq<string>): (Server, Outcome)
    requires IsEnumeration(order, s.clients)
  {
    SendEach(s, order, data, writable)
  }

  // ---------------------------------------------------------------------
  // The invariant

  /** The sessions that passed the probe and have not torn down. */
  function Registered(s: Server): set<ClientId>
  {
    set c | c in s.sessions && s.sessions[c].phase != Probing
  }

  /** Every entry of the table is the client of a registered session whose
      key it is stored under; the counter counts the registered sessions;
      handles are never reused. */
  predicate Inv(s: Server)
  {
    && (forall c :: c in s.sessions ==> c < s.nextClient)
    && (forall c :: c in s.closed ==> c < s.nextClient)
    && (forall k :: k in s.clients ==>
          var c := s.clients[k];
          c in s.sessions && s.sessions[c].ip == k && s.sessions[c].phase != Probing)
    && s.numConnectedSockets == |Registered(s)|
  }

  lemma InitialInv()
    ensures Inv(Initial())
  {
    assert Registered(Initial()) == {};
  }

  lemma SubsetCard<T>(a: set<T>, b: set<T>)
    requires a <= b
    ensures |a| <= |b|
  {
    assert b == a + (b - a);
  }

  /** Keys of registered sessions are no more numerous than the sessions. */
  lemma {:induction false} KeysOfSessions(ss: set<ClientId>, sessions: map<ClientId, Session>)
    requires ss <= sessions.Keys
    ensures |set c | c in ss :: sessions[c].ip| <= |ss|
    decreases ss
  {
    if ss != {} {
      var x :| x in ss;
      KeysOfSessions(ss - {x}, sessions);
      var keys := set c | c in ss :: sessions[c].ip;
      var others := set c | c in ss - {x} :: sessions[c].ip;
      assert keys <= others + {sessions[x].ip};
      assert |others + {sessions[x].ip}| <= |others| + 1;
      SubsetCard(keys, others + {sessions[x].ip});
    }
  }

  /** While the invariant holds the table has at most as many entries as the
      counter: every key belongs to a distinct live session. */
  lemma TableBoundedByCounter(s: Server)
    requires Inv(s)
    ensures 0 <= |s.clients| <= s.numConnectedSockets
  {
    var reg := Registered(s);
    KeysOfSessions(reg, s.sessions);
    var keys := set c | c in reg :: s.sessions[c].ip;
    assert s.clients.Keys <= keys by {
      forall k | k in s.clients
        ensures k in keys
      {
        assert s.clients[k] in reg;
      }
    }
    SubsetCard(s.clients.Keys, keys);
    assert |s.clients| == |s.clients.Keys|;
  }

  lemma RunInv(s: Server, bound: bool)
    requires Inv(s)
    ensures Inv(Run(s, bound).0)
  {
    assert Registered(Run(s, bound).0) == Registered(s);
  }

  lemma StopInv(s: Server, order: seq<string>)
    requires Inv(s) && IsEnumeration(order, s.clients)
    ensures Inv(Stop(s, order).0)
  {
    var t := s.(cancelled := true, listening := false);
    CloseEachSpec(t, order);
    assert Registered(Stop(s, order).0) == Registered(s);
  }

  lemma AcceptInv(s: Server, ip: string)
    requires Inv(s)
    ensures Inv(Accept(s, ip).0)
  {
    assert Registered(Accept(s, ip).0) == Registered(s);
  }

  lemma ProbeInv(s: Server, c: ClientId, probe: Probe)
    requires Inv(s) && InPhase(s, c, Probing)
    ensures Inv(ProbeAndRegister(s, c, probe))
  {
    var r := ProbeAndRegister(s, c, probe);
    if probe == Peeked(0) {
      assert Registered(r) == Registered(s);
    } else {
      RegisterInv(s, c);
    }
  }

  lemma RegisterInv(s: Server, c: ClientId)
    requires Inv(s) && InPhase(s, c, Probing)
    ensures Inv(ProbeAndRegister(s, c, Quiet))
  {
    var r := ProbeAndRegister(s, c, Quiet);
    var ip := s.sessions[c].ip;
    assert r.sessions == s.sessions[c := Session(ip, Active)];
    assert c !in Registered(s);
    assert Registered(r) == Registered(s) + {c};
    forall k | k in r.clients
      ensures r.clients[k] in r.sessions && r.sessions[r.clients[k]].ip == k
      ensures r.sessions[r.clients[k]].phase != Probing
    {
      if k != ip || ip in s.clients {
        assert r.clients[k] == s.clients[k];
        assert s.clients[k] != c;
      }
    }
  }

  lemma LeaveLoopInv(s: Server, c: ClientId)
    requires Inv(s) && InPhase(s, c, Active)
    ensures Inv(LeaveLoop(s, c))
  {
    assert Registered(LeaveLoop(s, c)) == Registered(s);
  }

  lemma IterateInv(s: Server, c: ClientId, step: Step)
    requires Inv(s) && InPhase(s, c, Active)
    ensures Inv(Iterate(s, c, step))
  {
    if s.cancelled {
      LeaveLoopInv(s, c);
      assert Iterate(s, c, step) == LeaveLoop(s, c);
    } else {
      var beat := Heartbeat;
      var sent := Send(s, Some(c), Some(beat), step.canWrite).0;
      SendInv(s, Some(c), Some(beat), step.canWrite);
      if EndsSession(step.read) {
        LeaveLoopInv(sent, c);
        assert Iterate(s, c, step) == LeaveLoop(sent, c);
      } else {
        assert Iterate(s, c, step) == sent;
      }
    }
  }

  lemma TeardownInv(s: Server, c: ClientId)
    requires Inv(s) && InPhase(s, c, Exited)
    ensures Inv(Teardown(s, c).0)
  {
    var ip := s.sessions[c].ip;
    var r := Teardown(s, c).0;
    TeardownCount(s, c);
    assert r.clients == s.clients - {ip};
    forall k | k in r.clients
      ensures r.clients[k] in r.sessions && r.sessions[r.clients[k]] == s.sessions[s.clients[k]]
    {
      assert s.sessions[s.clients[k]].ip == k != ip;
    }
  }

  lemma TeardownCount(s: Server, c: ClientId)
    requires Inv(s) && InPhase(s, c, Exited)
    ensures var r := Teardown(s, c).0; r.numConnectedSockets == |Registered(r)|
  {
    var r := Teardown(s, c).0;
    assert r.sessions == s.sessions - {c};
    assert c in Registered(s);
    assert Registered(r) == Registered(s) - {c};
  }

  lemma SendInv(s: Server, client: Option<ClientId>, data: Option<Bytes>, canWrite: bool)
    requires Inv(s)
    ensures Send(s, client, data, canWrite).0 == s.(writes := Send(s, client, data, canWrite).0.writes)
    ensures Inv(Send(s, client, data, canWrite).0)
  {
    assert Registered(Send(s, client, data, canWrite).0) == Registered(s);
  }

  lemma {:induction false} SendEachInv(s: Server, order: seq<string>, data: Option<Bytes>, writable: set<ClientId>)
    requires Inv(s)
    requires forall i :: 0 <= i < |order| ==> order[i] in s.clients
    ensures SendEach(s, order, data, writable).0.(writes := s.writes) == s
    decreases |order|
  {
    if order != [] {
      SendEachInv(s, order[..|order| - 1], data, writable);
    }
  }

  // ---------------------------------------------------------------------
  // Traces

  /** Everything that can happen to a server, with the inputs the network
      supplies. */
  datatype Event =
    | RunEvent(bound: bool)
    | AcceptEvent(ip: string)
    | ProbeEvent(client: ClientId, probe: Probe)
    | IterateEvent(client: ClientId, step: Step)
    | TeardownEvent(client: ClientId)
    | StopEvent(order: seq<string>)
    | SendToAllEvent(data: Option<Bytes>, writable: set<ClientId>, order: seq<string>)
    | SendToSelectedEvent(ip: string, data: Option<Bytes>, canWrite: bool)

  /** An event can happen: a session event needs the session to stand at
      that point, and a broadcast enumerates the current table. */
  predicate Enabled(s: Server, e: Event)
  {
    match e
    case ProbeEvent(c, _) => InPhase(s, c, Probing)
    case IterateEvent(c, _) => InPhase(s, c, Active)
    case TeardownEvent(c) => InPhase(s, c, Exited)
    case StopEvent(order) => IsEnumeration(order, s.clients)
    case SendToAllEvent(_, _, order) => IsEnumeration(order, s.clients)
    case _ => true
  }

  function Next(s: Server, e: Event): Server
    requires Enabled(s, e)
  {
    match e
    case RunEvent(bound) => Run(s, bound).0
    case AcceptEvent(ip) => Accept(s, ip).0
    case ProbeEvent(c, probe) => ProbeAndRegister(s, c, probe)
    case IterateEvent(c, step) => Iterate(s, c, step)
    case TeardownEvent(c) => Teardown(s, c).0
    case StopEvent(order) => Stop(s, order).0
    case SendToAllEvent(data, writable, order) => SendToAll(s, data, writable, order).0
    case SendToSelectedEvent(ip, data, canWrite) => SendToSelectedClient(s, ip, data, canWrite).0
  }

  lemma NextInv(s: Server, e: Event)
    requires Inv(s) && Enabled(s, e)
    ensures Inv(Next(s, e))
  {
    match e
    case RunEvent(bound) => RunInv(s, bound);
    case AcceptEvent(ip) => AcceptInv(s, ip);
    case ProbeEvent(c, probe) => ProbeInv(s, c, probe);
    case IterateEvent(c, step) => IterateInv(s, c, step);
    case TeardownEvent(c) => TeardownInv(s, c);
    case StopEvent(order) => StopInv(s, order);
    case SendToAllEvent(data, writable, order) =>
      SendEachInv(s, order, data, writable);
      assert Registered(Next(s, e)) == Registered(s);
    case SendToSelectedEvent(ip, data, canWrite) =>
      if ip in s.clients {
        SendInv(s, Some(s.clients[ip]), data, canWrite);
      }
  }

  /** The state after a sequence of events, or None when one of them cannot
      happen at its point. */
  function Replay(s: Server, events: seq<Event>): Option<Server>
    decreases |events|
  {
    if events == [] then Some(s)
    else if !Enabled(s, events[0]) then None
    else Replay(Next(s, events[0]), events[1..])
  }

  /** In every state a server can reach, every key in the table belongs to a
      session that passed its probe and has not torn down, the counter
      counts exactly those sessions, and so the table is no larger than the
      counter. */
  lemma {:induction false} ReachableInv(s: Server, events: seq<Event>)
    requires Inv(s) && Replay(s, events).Some?
    ensures Inv(Replay(s, events).value)
    ensures |Replay(s, events).value.clients| <= Replay(s, events).value.numConnectedSockets
    decreases |events|
  {
    if events == [] {
      TableBoundedByCounter(s);
    } else {
      NextInv(s, events[0]);
      ReachableInv(Next(s, events[0]), events[1..]);
    }
  }

  lemma FromStartInv(events: seq<Event>)
    requires Replay(Initial(), events).Some?
    ensures var r := Replay(Initial(), events).value;
      Inv(r) && 0 <= |r.clients| <= r.numConnectedSockets
  {
    InitialInv();
    ReachableInv(Initial(), events);
    TableBoundedByCounter(Replay(Initial(), events).value);
  }

  // ---------------------------------------------------------------------
  // What each event does

  /** A probe that peeks zero bytes ends the session before anything is
      recorded: table, counter, listener and writes are untouched and no
      teardown follows. Any other probe counts the session and stores its
      client under its key only if the key is free: the first client
      registered under a key stays. */
  lemma ProbeSpec(s: Server, c: ClientId, probe: Probe)
    requires InPhase(s, c, Probing)
    ensures var r, ip := ProbeAndRegister(s, c, probe), s.sessions[c].ip;
      && (probe == Peeked(0) ==>
            && r.clients == s.clients && r.numConnectedSockets == s.numConnectedSockets
            && r.listening == s.listening && r.isRunning == s.isRunning
            && r.acceptLoops == s.acceptLoops && r.writes == s.writes
            && c !in r.sessions && c in r.closed)
      && (probe != Peeked(0) ==>
            && r.numConnectedSockets == s.numConnectedSockets + 1
            && InPhase(r, c, Active)
            && ip in r.clients && r.clients.Keys == s.clients.Keys + {ip}
            && (ip in s.clients ==> r.clients == s.clients)
            && (ip !in s.clients ==> r.clients[ip] == c)
            && r.writes == s.writes && r.listening == s.listening)
  {
  }

  /** One iteration: when the token is not cancelled the heartbeat goes out
      first, whatever the read then does; the loop is left exactly on a
      cancelled token, a timeout, a faulted or canceled read, or a read of
      zero bytes, and not on a positive read or a caught exception. */
  lemma IterateSpec(s: Server, c: ClientId, step: Step)
    requires InPhase(s, c, Active)
    ensures var r := Iterate(s, c, step);
      && c in r.sessions && r.sessions[c].ip == s.sessions[c].ip
      && (r.sessions[c].phase == Exited <==> s.cancelled || EndsSession(step.read))
      && (r.sessions[c].phase != Exited ==> r.sessions[c].phase == Active)
      && r.writes == (if !s.cancelled && c !in s.closed && step.canWrite
                      then s.writes + [Write(c, Heartbeat)] else s.writes)
      && r.clients == s.clients && r.numConnectedSockets == s.numConnectedSockets
  {
  }

  /** Teardown decrements the counter and removes the entry under the
      session's key whoever stored it; the removed client is closed and the
      listener restarted when the running flag is set. Without an entry the
      close throws and nothing is restarted. */
  lemma TeardownSpec(s: Server, c: ClientId)
    requires InPhase(s, c, Exited)
    ensures var (r, out) := Teardown(s, c); var ip := s.sessions[c].ip;
      && r.numConnectedSockets == s.numConnectedSockets - 1
      && c !in r.sessions
      && r.clients == s.clients - {ip}
      && (ip in s.clients ==>
            && out == Completed && s.clients[ip] in r.closed
            && (r.listening <==> s.isRunning || s.listening)
            && r.acceptLoops == (if s.isRunning then s.acceptLoops + 1 else s.acceptLoops))
      && (ip !in s.clients ==>
            out == Raised(NullReference) && r.listening == s.listening && r.acceptLoops == s.acceptLoops)
  {
  }

  /** The closing loop closes clients of the table only, and completes
      exactly when none of the clients it visits is disposed, having then
      closed them all. Otherwise it throws at the first disposed one, having
      closed every client visited before it. */
  lemma {:induction false} CloseEachSpec(s: Server, order: seq<string>)
    requires forall i :: 0 <= i < |order| ==> order[i] in s.clients
    ensures var (r, out) := CloseEach(s, order);
      && (forall c :: c in r.closed ==> c in s.closed || c in s.clients.Values)
      && (out == Completed <==> forall i :: 0 <= i < |order| ==> !Disposed(s, s.clients[order[i]]))
      && (out == Completed ==> forall i :: 0 <= i < |order| ==> s.clients[order[i]] in r.closed)
      && (out.Raised? ==>
            && out == Raised(NullReference)
            && exists j :: 0 <= j < |order| && Disposed(s, s.clients[order[j]])
                 && forall i :: 0 <= i < j ==> !Disposed(s, s.clients[order[i]]) && s.clients[order[i]] in r.closed)
    decreases |order|
  {
    if order != [] {
      var init := order[..|order| - 1];
      CloseEachSpec(s, init);
      assert forall i :: 0 <= i < |init| ==> init[i] == order[i];
      var before := CloseEach(s, init);
      var last := |order| - 1;
      if before.1.Completed? && Disposed(s, s.clients[order[last]]) {
        assert forall i :: 0 <= i < last ==> !Disposed(s, s.clients[order[i]]) && s.clients[order[i]] in before.0.closed;
      }
    }
  }

  /** Once a close has thrown, the keys after it change nothing: the
      exception has left the loop. */
  lemma {:induction false} CloseEachAfterRaise(s: Server, order: seq<string>, rest: seq<string>)
    requires forall i :: 0 <= i < |order + rest| ==> (order + rest)[i] in s.clients
    requires forall i :: 0 <= i < |order| ==> order[i] in s.clients
    requires CloseEach(s, order).1.Raised?
    ensures CloseEach(s, order + rest) == CloseEach(s, order)
    decreases |rest|
  {
    if rest == [] {
      assert order + rest == order;
    } else {
      var init := rest[..|rest| - 1];
      assert (order + rest)[..|order + rest| - 1] == order + init;
      CloseEachAfterRaise(s, order, init);
    }
  }

  /** One more key in the closing loop, while it has not thrown. */
  lemma CloseEachStep(s: Server, order: seq<string>, key: string)
    requires key in s.clients && forall i :: 0 <= i < |order| ==> order[i] in s.clients
    requires CloseEach(s, order).1 == Completed
    ensures CloseEach(s, order + [key]) == Close(CloseEach(s, order).0, s.clients[key])
  {
    assert (order + [key])[..|order|] == order;
  }

  /** Stop cancels the token and stops the listener, and never clears the
      running flag. It completes exactly when no stored client is disposed:
      it has then closed them all and emptied the table. Otherwise a close
      throws, and the table is left as it was. Sessions still running are
      left to notice the token. */
  lemma StopSpec(s: Server, order: seq<string>)
    requires IsEnumeration(order, s.clients)
    ensures var (r, out) := Stop(s, order);
      && r.cancelled && !r.listening
      && r.isRunning == s.isRunning && r.acceptLoops == s.acceptLoops
      && r.numConnectedSockets == s.numConnectedSockets
      && r.sessions == s.sessions && r.writes == s.writes && r.nextClient == s.nextClient
      && s.closed <= r.closed
      && (out == Completed <==> forall k :: k in s.clients ==> !Disposed(s, s.clients[k]))
      && (out == Completed ==> r.clients == map[] && forall k :: k in s.clients ==> s.clients[k] in r.closed)
      && (out.Raised? ==> out == Raised(NullReference) && r.clients == s.clients)
  {
    var t := s.(cancelled := true, listening := false);
    CloseEachSpec(t, order);
    var (r, out) := Stop(s, order);
    forall k | k in s.clients
      ensures exists i :: 0 <= i < |order| && order[i] == k
    {
      assert k in order;
    }
    if out == Completed {
      forall k | k in s.clients
        ensures !Disposed(s, s.clients[k]) && s.clients[k] in r.closed
      {
        var i :| 0 <= i < |order| && order[i] == k;
      }
    }
  }

  /** The accept loop takes connections only while the token is not
      cancelled and the listener is started; each one gets a fresh handle
      and its own session under the key it arrived with. */
  lemma AcceptSpec(s: Server, ip: string)
    requires Inv(s)
    ensures var (r, got) := Accept(s, ip);
      && (s.cancelled || !s.listening ==> r == s && got == None)
      && (!s.cancelled && s.listening ==>
            && got.Some? && got.value !in s.sessions && got.value !in s.closed
            && r.sessions == s.sessions[got.value := Session(ip, Probing)]
            && r.clients == s.clients && r.numConnectedSockets == s.numConnectedSockets)
  {
  }

  /** Send: null arguments throw and write nothing; a closed client or a
      stream that cannot be written gets nothing; otherwise exactly one
      write of the data to that client. Nothing else changes. */
  lemma SendSpec(s: Server, client: Option<ClientId>, data: Option<Bytes>, canWrite: bool)
    ensures var (r, out) := Send(s, client, data, canWrite);
      && r.(writes := s.writes) == s
      && (client.None? || data.None? <==> out == Raised(ArgumentNull))
      && (out == Completed ==>
            r.writes == (if client.value !in s.closed && canWrite
                         then s.writes + [Write(client.value, data.value)] else s.writes))
      && (out.Raised? ==> r == s)
  {
  }

  /** SendToSelectedClient on an absent key throws from the indexer and
      writes nothing, whatever the data; on a present key it is a Send to
      the client stored there. */
  lemma SendToSelectedSpec(s: Server, ip: string, data: Option<Bytes>, canWrite: bool)
    ensures ip !in s.clients ==> SendToSelectedClient(s, ip, data, canWrite) == (s, Raised(KeyNotFound))
    ensures ip in s.clients ==>
      SendToSelectedClient(s, ip, data, canWrite) == Send(s, Some(s.clients[ip]), data, canWrite)
  {
  }

  /** The accept loop, when it runs at all, takes every connection that
      arrives and gives them consecutive fresh handles, each with its own
      session waiting for its probe; the table and the counter are left to
      the sessions. When the token is cancelled or the listener stopped it
      takes none. */
  lemma {:induction false} AcceptAllSpec(s: Server, ips: seq<string>)
    requires forall c :: c in s.sessions ==> c < s.nextClient
    ensures var (r, got) := AcceptAll(s, ips);
      && r.clients == s.clients && r.numConnectedSockets == s.numConnectedSockets
      && r.closed == s.closed && r.writes == s.writes
      && (s.cancelled || !s.listening ==> r == s && got == [])
      && (!s.cancelled && s.listening ==>
            && |got| == |ips|
            && (forall i :: 0 <= i < |got| ==> got[i] == s.nextClient + i)
            && r.nextClient == s.nextClient + |ips|
            && (forall i :: 0 <= i < |got| ==> got[i] in r.sessions && r.sessions[got[i]] == Session(ips[i], Probing))
            && (forall c :: c in s.sessions ==> c in r.sessions && r.sessions[c] == s.sessions[c])
            && (forall c :: c in r.sessions ==> c in s.sessions || c in got))
  {
    AcceptAllFrame(s, ips);
    if !s.cancelled && s.listening {
      AcceptAllHandles(s, ips);
      AcceptAllProbing(s, ips);
      AcceptAllSessions(s, ips);
      var (r, got) := AcceptAll(s, ips);
      forall c | c in r.sessions && c !in s.sessions
        ensures c in got
      {
        assert got[c - s.nextClient] == c;
      }
    }
  }

  /** The handle given to the i-th connection holds its probing session. */
  lemma AcceptAllProbing(s: Server, ips: seq<string>)
    requires !s.cancelled && s.listening
    requires forall c :: c in s.sessions ==> c < s.nextClient
    ensures var (r, got) := AcceptAll(s, ips);
      && |got| == |ips|
      && forall i :: 0 <= i < |got| ==> got[i] in r.sessions && r.sessions[got[i]] == Session(ips[i], Probing)
  {
    AcceptAllHandles(s, ips);
    AcceptAllSessions(s, ips);
    var (r, got) := AcceptAll(s, ips);
    forall i | 0 <= i < |got|
      ensures got[i] in r.sessions && r.sessions[got[i]] == Session(ips[i], Probing)
    {
      ProbingAt(r.sessions, s.nextClient, ips, i);
    }
  }

  lemma {:induction false} AcceptAllFrame(s: Server, ips: seq<string>)
    ensures var r := AcceptAll(s, ips).0;
      && r.clients == s.clients && r.numConnectedSockets == s.numConnectedSockets
      && r.closed == s.closed && r.writes == s.writes
      && r.cancelled == s.cancelled && r.listening == s.listening
      && (s.cancelled || !s.listening ==> AcceptAll(s, ips) == (s, []))
    decreases |ips|
  {
    if ips != [] && !s.cancelled && s.listening {
      AcceptAllFrame(Accept(s, ips[0]).0, ips[1..]);
    }
  }

  lemma {:induction false} AcceptAllHandles(s: Server, ips: seq<string>)
    requires !s.cancelled && s.listening
    ensures var (r, got) := AcceptAll(s, ips);
      && |got| == |ips| && r.nextClient == s.nextClient + |ips|
      && forall i :: 0 <= i < |got| ==> got[i] == s.nextClient + i
    decreases |ips|
  {
    if ips != [] {
      var t := Accept(s, ips[0]).0;
      AcceptAllHandles(t, ips[1..]);
      var rest := AcceptAll(t, ips[1..]).1;
      assert AcceptAll(s, ips).1 == [s.nextClient] + rest;
    }
  }

  /** Handles n, n + 1, ... hold probing sessions for the keys of `ips`. */
  predicate ProbingFrom(sessions: map<ClientId, Session>, n: ClientId, ips: seq<string>)
  {
    forall c: ClientId :: n <= c < n + |ips| ==> c in sessions && sessions[c] == Session(ips[c - n], Probing)
  }

  lemma ProbingCons(sessions: map<ClientId, Session>, n: ClientId, ips: seq<string>)
    requires ips != [] && n in sessions && sessions[n] == Session(ips[0], Probing)
    requires ProbingFrom(sessions, n + 1, ips[1..])
    ensures ProbingFrom(sessions, n, ips)
  {
    forall c: ClientId | n < c < n + |ips|
      ensures c in sessions && sessions[c] == Session(ips[c - n], Probing)
    {
      assert ips[1..][c - (n + 1)] == ips[c - n];
    }
  }

  lemma ProbingAt(sessions: map<ClientId, Session>, n: ClientId, ips: seq<string>, i: nat)
    requires ProbingFrom(sessions, n, ips) && i < |ips|
    ensures n + i in sessions && sessions[n + i] == Session(ips[i], Probing)
  {
    var c: ClientId := n + i;
    assert ips[c - n] == ips[i];
  }

  lemma {:induction false} AcceptAllSessions(s: Server, ips: seq<string>)
    requires !s.cancelled && s.listening
    requires forall c :: c in s.sessions ==> c < s.nextClient
    ensures var r := AcceptAll(s, ips).0;
      && ProbingFrom(r.sessions, s.nextClient, ips)
      && (forall c :: c in s.sessions ==> c in r.sessions && r.sessions[c] == s.sessions[c])
      && (forall c :: c in r.sessions ==> c in s.sessions || s.nextClient <= c < s.nextClient + |ips|)
    decreases |ips|
  {
    if ips != [] {
      var n: ClientId := s.nextClient;
      var t := Accept(s, ips[0]).0;
      assert t.sessions == s.sessions[n := Session(ips[0], Probing)] && t.nextClient == n + 1;
      AcceptAllSessions(t, ips[1..]);
      var r := AcceptAll(s, ips).0;
      assert r == AcceptAll(t, ips[1..]).0;
      assert n in t.sessions && t.sessions[n] == Session(ips[0], Probing);
      ProbingCons(r.sessions, n, ips);
    }
  }

  lemma {:induction false} AcceptAllInv(s: Server, ips: seq<string>)
    requires Inv(s)
    ensures Inv(AcceptAll(s, ips).0)
    decreases |ips|
  {
    if ips != [] {
      AcceptInv(s, ips[0]);
      var (t, got) := Accept(s, ips[0]);
      if got.Some? {
        AcceptAllInv(t, ips[1..]);
      }
    }
  }

  // ---------------------------------------------------------------------
  // The broadcast

  /** The client under a key gets the data when it is open and its stream
      can be written. */
  predicate Deliverable(s: Server, c: ClientId, writable: set<ClientId>)
  {
    c !in s.closed && c in writable
  }

  /** The writes one Send per key of `order` makes, in that order. */
  function Deliveries(s: Server, order: seq<string>, d: Bytes, writable: set<ClientId>): (w: seq<Write>)
    requires forall i :: 0 <= i < |order| ==> order[i] in s.clients
    decreases |order|
  {
    if order == [] then []
    else
      var c := s.clients[order[|order| - 1]];
      Deliveries(s, order[..|order| - 1], d, writable)
        + (if Deliverable(s, c, writable) then [Write(c, d)] else [])
  }

  lemma {:induction false} SendEachDeliveries(s: Server, order: seq<string>, d: Bytes, writable: set<ClientId>)
    requires forall i :: 0 <= i < |order| ==> order[i] in s.clients
    ensures SendEach(s, order, Some(d), writable)
         == (s.(writes := s.writes + Deliveries(s, order, d, writable)), Completed)
    decreases |order|
  {
    if order != [] {
      var init := order[..|order| - 1];
      SendEachDeliveries(s, init, d, writable);
      var before := SendEach(s, init, Some(d), writable);
      var c := s.clients[order[|order| - 1]];
      var d0 := Deliveries(s, init, d, writable);
      assert before.0 == s.(writes := s.writes + d0);
      if Deliverable(s, c, writable) {
        assert s.writes + d0 + [Write(c, d)] == s.writes + (d0 + [Write(c, d)]);
      } else {
        assert d0 + [] == d0;
      }
    } else {
      assert s.writes + [] == s.writes;
    }
  }

  /** Every write the broadcast makes carries the data to the client of
      one of the keys, and there are no more writes than keys. */
  lemma {:induction false} DeliveriesFromTable(s: Server, order: seq<string>, d: Bytes, writable: set<ClientId>)
    requires forall i :: 0 <= i < |order| ==> order[i] in s.clients
    ensures var w := Deliveries(s, order, d, writable);
      && |w| <= |order|
      && forall j :: 0 <= j < |w| ==>
           w[j].data == d && exists i :: 0 <= i < |order| && w[j].client == s.clients[order[i]]
    decreases |order|
  {
    if order != [] {
      var init := order[..|order| - 1];
      DeliveriesFromTable(s, init, d, writable);
      var w0 := Deliveries(s, init, d, writable);
      var w := Deliveries(s, order, d, writable);
      forall j | 0 <= j < |w|
        ensures w[j].data == d && exists i :: 0 <= i < |order| && w[j].client == s.clients[order[i]]
      {
        if j < |w0| {
          assert w[j] == w0[j];
          var i :| 0 <= i < |init| && w0[j].client == s.clients[init[i]];
          assert init[i] == order[i];
        } else {
          assert w[j].client == s.clients[order[|order| - 1]];
        }
      }
    }
  }

  /** No client gets the broadcast twice: the keys of an enumeration are
      distinct, and under the invariant a stored client belongs to the
      session of its own key, so distinct keys hold distinct clients. */
  lemma {:induction false} DeliveriesDistinct(s: Server, order: seq<string>, d: Bytes, writable: set<ClientId>)
    requires Inv(s)
    requires forall i :: 0 <= i < |order| ==> order[i] in s.clients
    requires forall i, j :: 0 <= i < j < |order| ==> order[i] != order[j]
    ensures var w := Deliveries(s, order, d, writable);
      forall i, j :: 0 <= i < j < |w| ==> w[i].client != w[j].client
    decreases |order|
  {
    if order != [] {
      var init := order[..|order| - 1];
      var last := order[|order| - 1];
      DeliveriesDistinct(s, init, d, writable);
      DeliveriesFromTable(s, init, d, writable);
      var w0 := Deliveries(s, init, d, writable);
      var c := s.clients[last];
      forall j | 0 <= j < |w0|
        ensures w0[j].client != c
      {
        var i :| 0 <= i < |init| && w0[j].client == s.clients[init[i]];
        assert init[i] == order[i] && order[i] != last;
        assert s.sessions[s.clients[order[i]]].ip == order[i];
        assert s.sessions[c].ip == last;
      }
    }
  }

  /** Every open, writable client of a key in the enumeration gets the data. */
  lemma {:induction false} DeliveriesReachAll(s: Server, order: seq<string>, d: Bytes, writable: set<ClientId>)
    requires forall i :: 0 <= i < |order| ==> order[i] in s.clients
    ensures forall i :: 0 <= i < |order| && Deliverable(s, s.clients[order[i]], writable) ==>
      Write(s.clients[order[i]], d) in Deliveries(s, order, d, writable)
    decreases |order|
  {
    if order != [] {
      var init := order[..|order| - 1];
      DeliveriesReachAll(s, init, d, writable);
      var w0 := Deliveries(s, init, d, writable);
      var w := Deliveries(s, order, d, writable);
      forall i | 0 <= i < |order| && Deliverable(s, s.clients[order[i]], writable)
        ensures Write(s.clients[order[i]], d) in w
      {
        if i < |init| {
          assert init[i] == order[i];
          assert Write(s.clients[init[i]], d) in w0;
        } else {
          assert w[|w| - 1] == Write(s.clients[order[i]], d);
        }
      }
    }
  }

  /** When every client is open and writable the broadcast writes once per
      key, in the enumeration's order. */
  lemma {:induction false} DeliveriesAll(s: Server, order: seq<string>, d: Bytes, writable: set<ClientId>)
    requires forall i :: 0 <= i < |order| ==> order[i] in s.clients
    requires forall i :: 0 <= i < |order| ==> Deliverable(s, s.clients[order[i]], writable)
    ensures var w := Deliveries(s, order, d, writable);
      |w| == |order| && forall i :: 0 <= i < |order| ==> w[i] == Write(s.clients[order[i]], d)
    decreases |order|
  {
    if order != [] {
      var init := order[..|order| - 1];
      assert forall i :: 0 <= i < |init| ==> init[i] == order[i];
      DeliveriesAll(s, init, d, writable);
    }
  }

  /** An enumeration has one element per key of the table. */
  lemma {:induction false} EnumerationLength(order: seq<string>, table: map<string, ClientId>)
    requires IsEnumeration(order, table)
    ensures |order| == |table|
    decreases |order|
  {
    if order == [] {
      assert table.Keys == {};
    } else {
      var last := order[|order| - 1];
      var smaller := table - {last};
      var init := order[..|order| - 1];
      forall k | k in smaller ensures k in init {
        var i :| 0 <= i < |order| && order[i] == k;
        assert i != |order| - 1;
      }
      assert IsEnumeration(init, smaller);
      EnumerationLength(init, smaller);
      assert smaller.Keys == table.Keys - {last};
    }
  }

  /** SendToAll makes exactly one Send per registered client and leaves the
      table as it is. With null data it throws at the first Send, writing
      nothing, and completes only when the table is empty. */
  lemma SendToAllSpec(s: Server, data: Option<Bytes>, writable: set<ClientId>, order: seq<string>)
    requires IsEnumeration(order, s.clients)
    ensures var (r, out) := SendToAll(s, data, writable, order);
      && r.(writes := s.writes) == s
      && (data.None? ==> r == s && (out == Completed <==> s.clients == map[]))
      && (data.Some? ==>
            && out == Completed
            && r.writes == s.writes + Deliveries(s, order, data.value, writable)
            && ((forall k :: k in s.clients ==> Deliverable(s, s.clients[k], writable)) ==>
                  |r.writes| == |s.writes| + |s.clients|))
  {
    EnumerationLength(order, s.clients);
    if data.None? {
      NullBroadcast(s, order, writable);
    } else {
      SendEachDeliveries(s, order, data.value, writable);
      if forall k :: k in s.clients ==> Deliverable(s, s.clients[k], writable) {
        DeliveriesAll(s, order, data.value, writable);
      }
    }
  }

  lemma {:induction false} NullBroadcast(s: Server, order: seq<string>, writable: set<ClientId>)
    requires forall i :: 0 <= i < |order| ==> order[i] in s.clients
    ensures SendEach(s, order, None, writable) == (s, if order == [] then Completed else Raised(ArgumentNull))
    decreases |order|
  {
    if order != [] {
      NullBroadcast(s, order[..|order| - 1], writable);
    }
  }

  /** Once a Send of the broadcast has thrown, the keys after it change
      nothing: the exception has left the loop. */
  lemma {:induction false} SendEachAfterRaise(s: Server, order: seq<string>, rest: seq<string>, data: Option<Bytes>, writable: set<ClientId>)
    requires forall i :: 0 <= i < |order| ==> order[i] in s.clients
    requires forall i :: 0 <= i < |order + rest| ==> (order + rest)[i] in s.clients
    requires SendEach(s, order, data, writable).1.Raised?
    ensures SendEach(s, order + rest, data, writable) == SendEach(s, order, data, writable)
    decreases |rest|
  {
    if rest == [] {
      assert order + rest == order;
    } else {
      var init := rest[..|rest| - 1];
      assert (order + rest)[..|order + rest| - 1] == order + init;
      SendEachAfterRaise(s, order, init, data, writable);
    }
  }

  // ---------------------------------------------------------------------
  // The session loop

  /** How many iterations the loop runs on a script when the token is not
      cancelled: up to and including the first that ends the session. */
  function Iterations(steps: seq<Step>): (n: nat)
    ensures n <= |steps|
  {
    if steps == [] then 0
    else if EndsSession(steps[0].read) then 1
    else 1 + Iterations(steps[1..])
  }

  function Beats(c: ClientId, n: nat): seq<Write>
  {
    seq(n, _ => Write(c, Heartbeat))
  }

  /** The loop is left exactly when the token is cancelled or some read ends
      the session; positive reads and caught exceptions keep it going.
      Without cancellation, with its own client open and a writable stream,
      the session sends one heartbeat per iteration, the last one included,
      and touches neither the table nor the counter. */
  lemma {:induction false} RunLoopSpec(s: Server, c: ClientId, steps: seq<Step>)
    requires InPhase(s, c, Active)
    ensures var r := RunLoop(s, c, steps);
      && (r.sessions[c].phase == Exited <==>
            (s.cancelled && steps != []) || exists i :: 0 <= i < |steps| && EndsSession(steps[i].read))
      && r.clients == s.clients && r.numConnectedSockets == s.numConnectedSockets
      && (!s.cancelled && c !in s.closed && (forall i :: 0 <= i < |steps| ==> steps[i].canWrite) ==>
            r.writes == s.writes + Beats(c, Iterations(steps)))
    decreases |steps|
  {
    if steps != [] {
      IterateSpec(s, c, steps[0]);
      var next := Iterate(s, c, steps[0]);
      if next.sessions[c].phase != Exited {
        RunLoopSpec(next, c, steps[1..]);
        assert forall i :: 0 <= i < |steps| - 1 ==> steps[1..][i] == steps[i + 1];
        if exists i :: 0 <= i < |steps| && EndsSession(steps[i].read) {
          var i :| 0 <= i < |steps| && EndsSession(steps[i].read);
          assert i > 0;
          assert EndsSession(steps[1..][i - 1].read);
        }
        if !s.cancelled && c !in s.closed && (forall i :: 0 <= i < |steps| ==> steps[i].canWrite) {
          assert next.writes == s.writes + [Write(c, Heartbeat)];
          assert c !in next.closed;
          assert Beats(c, Iterations(steps)) == [Write(c, Heartbeat)] + Beats(c, Iterations(steps[1..]));
        }
      } else if !s.cancelled && c !in s.closed && (forall i :: 0 <= i < |steps| ==> steps[i].canWrite) {
        assert EndsSession(steps[0].read);
        assert Beats(c, 1) == [Write(c, Heartbeat)];
      }
    }
  }

  lemma {:induction false} RunLoopInv(s: Server, c: ClientId, steps: seq<Step>)
    requires Inv(s) && InPhase(s, c, Active)
    ensures Inv(RunLoop(s, c, steps))
    decreases |steps|
  {
    if steps != [] {
      IterateInv(s, c, steps[0]);
      var next := Iterate(s, c, steps[0]);
      if next.sessions[c].phase != Exited {
        RunLoopInv(next, c, steps[1..]);
      }
    }
  }

  /** A whole session keeps the invariant. A session turned away by its
      probe changes neither table nor counter; one that registers and runs
      to its teardown leaves the counter where it found it and its key out
      of the table. */
  lemma EchoSpec(s: Server, c: ClientId, probe: Probe, steps: seq<Step>)
    requires Inv(s) && InPhase(s, c, Probing)
    ensures var r := Echo(s, c, probe, steps);
      && Inv(r)
      && (probe == Peeked(0) ==> r.clients == s.clients && r.numConnectedSockets == s.numConnectedSockets)
      && (probe != Peeked(0) && c !in r.sessions ==>
            r.numConnectedSockets == s.numConnectedSockets && s.sessions[c].ip !in r.clients)
  {
    ProbeInv(s, c, probe);
    ProbeSpec(s, c, probe);
    var registered := ProbeAndRegister(s, c, probe);
    if c in registered.sessions {
      RunLoopInv(registered, c, steps);
      RunLoopSpec(registered, c, steps);
      var looped := RunLoop(registered, c, steps);
      if looped.sessions[c].phase == Exited {
        TeardownInv(looped, c);
        TeardownSpec(looped, c);
      }
    }
  }

  // ---------------------------------------------------------------------
  // Two consequences of the code as written

  /** Two connections under one key: the first is stored, the second runs
      unregistered. When the second tears down it removes and closes the
      first one's client, so the first session's heartbeats are swallowed
      from then on, and its own teardown finds no entry and throws. */
  lemma DuplicateKeyEvictsFirst(s: Server, a: ClientId, b: ClientId, step: Step)
    requires a != b && InPhase(s, a, Probing) && InPhase(s, b, Probing)
    requires s.sessions[a].ip == s.sessions[b].ip && s.sessions[a].ip !in s.clients
    requires !s.cancelled && EndsSession(step.read)
    ensures var ip := s.sessions[a].ip;
      var both := ProbeAndRegister(ProbeAndRegister(s, a, Quiet), b, Quiet);
      && both.clients[ip] == a && both.numConnectedSockets == s.numConnectedSockets + 2
      && var bOut := Iterate(both, b, step);
      && var (bGone, bOutcome) := Teardown(bOut, b);
      && bOutcome == Completed && ip !in bGone.clients && a in bGone.closed && InPhase(bGone, a, Active)
      && var aOut := Iterate(bGone, a, step);
      && aOut.writes == bGone.writes
      && Teardown(aOut, a).1 == Raised(NullReference)
  {
    var ip := s.sessions[a].ip;
    var first := ProbeAndRegister(s, a, Quiet);
    var both := ProbeAndRegister(first, b, Quiet);
    assert both.clients[ip] == a && InPhase(both, a, Active) && InPhase(both, b, Active);
    var bOut := Iterate(both, b, step);
    LaterSessionEvicts(both, a, b, step);
    EvictedSessionThrows(Teardown(bOut, b).0, a, step);
  }

  /** The session whose client is not the stored one leaves its loop and, in
      its teardown, removes and closes the stored client of its key. */
  lemma LaterSessionEvicts(s: Server, a: ClientId, b: ClientId, step: Step)
    requires a != b && InPhase(s, a, Active) && InPhase(s, b, Active)
    requires s.sessions[b].ip in s.clients && s.clients[s.sessions[b].ip] == a
    requires !s.cancelled && EndsSession(step.read)
    ensures var (r, out) := Teardown(Iterate(s, b, step), b);
      && out == Completed && s.sessions[b].ip !in r.clients && a in r.closed
      && InPhase(r, a, Active) && !r.cancelled
  {
    var bOut := Iterate(s, b, step);
    assert bOut == LeaveLoop(Send(s, Some(b), Some(Heartbeat), step.canWrite).0, b);
    assert InPhase(bOut, b, Exited) && InPhase(bOut, a, Active) && bOut.clients == s.clients;
  }

  /** A session whose client was closed under it sends nothing in the pass
      where it leaves its loop (the token cancelled or the read ending the
      session) and, its key being gone, throws in its teardown. */
  lemma EvictedSessionThrows(s: Server, a: ClientId, step: Step)
    requires InPhase(s, a, Active) && a in s.closed && s.sessions[a].ip !in s.clients
    requires s.cancelled || EndsSession(step.read)
    ensures var aOut := Iterate(s, a, step);
      && aOut.writes == s.writes
      && Teardown(aOut, a).1 == Raised(NullReference)
  {
  }

  /** Stop does not prevent a restart: a session still probing when Stop
      runs registers afterwards, sees the token and leaves its loop, with no
      other session touching its key in between (SameKeyAcrossStop shows
      what another session under the same key changes). Its
      teardown finds an entry under its key (its own when Stop emptied the
      table), removes and closes it and, the running flag never having been
      cleared, starts the listener again and launches an accept loop, which
      the cancelled token keeps from accepting anything. */
  lemma RestartAfterStop(s: Server, c: ClientId, step: Step, order: seq<string>)
    requires InPhase(s, c, Probing) && s.isRunning && IsEnumeration(order, s.clients)
    ensures var (stopped, stopOut) := Stop(s, order);
      var late := Iterate(ProbeAndRegister(stopped, c, Quiet), c, step);
      var (r, out) := Teardown(late, c);
      && out == Completed && r.listening && r.cancelled && r.isRunning
      && r.acceptLoops == s.acceptLoops + 1
      && r.clients == stopped.clients - {s.sessions[c].ip}
      && (stopOut == Completed ==> r.clients == map[])
      && Accept(r, "any").1 == None
  {
    StopSpec(s, order);
  }

  /** A session that registered before Stop and leaves its loop right after
      it, no other session having stored its key in between, finds its key
      gone from the emptied table: the close in its teardown
      is made on null and throws, and nothing is restarted. */
  lemma RegisteredBeforeStopThrows(s: Server, c: ClientId, step: Step, order: seq<string>)
    requires InPhase(s, c, Active) && IsEnumeration(order, s.clients) && Stop(s, order).1 == Completed
    ensures var stopped := Stop(s, order).0;
      var (r, out) := Teardown(Iterate(stopped, c, step), c);
      && out == Raised(NullReference) && !r.listening && r.cancelled
      && r.acceptLoops == s.acceptLoops && r.isRunning == s.isRunning
  {
    StopSpec(s, order);
  }

  /** Two sessions under one key across Stop: one registered before a Stop
      that completed, the other still probing. The late session registers
      in the emptied table; the earlier session's teardown then removes and
      closes the late session's client and restarts the listener, and the
      late session's own teardown finds no entry and throws. */
  lemma SameKeyAcrossStop(s: Server, a: ClientId, b: ClientId, order: seq<string>, stepA: Step, stepB: Step)
    requires InPhase(s, a, Active) && InPhase(s, b, Probing) && s.sessions[a].ip == s.sessions[b].ip
    requires s.isRunning && IsEnumeration(order, s.clients) && Stop(s, order).1 == Completed
    ensures var late := ProbeAndRegister(Stop(s, order).0, b, Quiet);
      var (r, out) := Teardown(Iterate(late, a, stepA), a);
      && late.clients == map[s.sessions[b].ip := b]
      && out == Completed && r.listening && r.acceptLoops == s.acceptLoops + 1
      && b in r.closed && InPhase(r, b, Active)
      && Teardown(Iterate(r, b, stepB), b).1 == Raised(NullReference)
  {
    StopSpec(s, order);
  }

  /** Stop in the window between a stored session leaving its loop and its
      teardown: the session's client is disposed, so Stop throws and leaves
      the table as it was; the teardown then finds its own entry and, with
      the running flag set, restarts the listener Stop had just stopped. */
  lemma StopInTeardownWindow(s: Server, c: ClientId, step: Step, order: seq<string>)
    requires InPhase(s, c, Active) && s.sessions[c].ip in s.clients && s.clients[s.sessions[c].ip] == c
    requires !s.cancelled && EndsSession(step.read) && s.isRunning
    requires IsEnumeration(order, s.clients)
    ensures var left := Iterate(s, c, step);
      && left.clients == s.clients
      && var (stopped, stopOut) := Stop(left, order);
      && stopOut == Raised(NullReference) && stopped.clients == s.clients && stopped.cancelled
      && InPhase(stopped, c, Exited)
      && var (r, out) := Teardown(stopped, c);
      && out == Completed && r.listening && r.acceptLoops == s.acceptLoops + 1
      && s.sessions[c].ip !in r.clients
  {
    var left := Iterate(s, c, step);
    assert left == LeaveLoop(Send(s, Some(c), Some(Heartbeat), step.canWrite).0, c);
    assert Disposed(left, left.clients[left.sessions[c].ip]);
    StopSpec(left, order);
  }
}
