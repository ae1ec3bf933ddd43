# TcpSupport and the NTRIP client helpers in Dafny

This project models two pieces of a small networking repository.

**TcpSupport.cs** is a TCP server with a few parts:
- a dictionary of clients keyed by the remote endpoint's text, `_clients`;
- a connection counter, `_numConnectedSockets`;
- a running flag, `_isRunning`;
- a cancellation token.

Its behaviour:
- `Run` starts a listener and an accept loop, and each accepted connection gets its own `EchoAsync` session.
- A session probes the connection, counts itself and stores its client under its key. Then it sends a heartbeat and reads, in a loop, until the token is cancelled or a read ends the session. Last, it tears down: it decrements the counter, removes and closes whatever client is stored under its key, and restarts the listener if the running flag is set.
- `Stop` cancels the token, stops the listener, calls `Client.Close()` on each stored client and clears the table. A stored client whose session has left its `using` blocks but not yet torn down is disposed, and its `Client` is null: the close throws `NullReferenceException`, which the `try`/`finally` does not catch, so `Stop` leaves before the table is cleared.
- `Send`, `SendToAll` and `SendToSelectedClient` write to clients.

**ntrip.go** is an NTRIP client. The project models:
- its Basic credentials, which are base64 of `user:password` (section 2 of RFC 7617; base64 as in section 4 of RFC 4648);
- the request it sends;
- `readHeaders`, which reads lines until one is exactly CRLF;
- the check that the header block contains `HTTP/1.1 200 OK`.

The project has five files:
- `text.dfy` (module `Text`): an option type, bytes, .NET's `Encoding.ASCII.GetBytes`, Go's UTF-8 `[]byte(s)`, and small sequence facts.
- `base64.dfy` (module `Base64`): the standard padded encoder, the decoder that is its partner, and the round trip `Decode(Encode(b)) == Some(b)`.
- `ntrip.dfy` (module `Ntrip`): the NTRIP client helpers. `ReadHeaders` is a loop proved against the function `Headers`. The lemmas characterise `Headers` by the first CRLF line, show that the request is exactly one header block, and show that the success check is a substring test.
- `tcp_state.dfy` (module `TcpState`): the server's bookkeeping as a state machine. There is one function per event:
  - Run;
  - an accepted connection;
  - a probe;
  - one iteration of the session loop;
  - the teardown;
  - Stop;
  - the sends.

  Sockets become handles, closing a handle puts it in `closed`, and every write that reaches a stream is appended to `writes`. What the network reports is an input of each event: the probe, each read's outcome, and whether a stream can be written. The module proves four things:
  - an invariant: every table entry belongs to a live registered session under its own key, and the counter counts those sessions;
  - that every event preserves the invariant, as does every trace of events;
  - that the table is never larger than the counter;
  - one lemma per event stating what that event does.
- `tcp_support.dfy` (module `NetworkSupport`): class `TcpSupport` has the source's three fields `_clients`, `_numConnectedSockets` and `_isRunning` (as `clients`, `numConnectedSockets` and `isRunning`), plus seven fields that stand for what the model tracks in place of sockets and tasks: `cancelled` (the token), `listening` (the listener), `acceptLoops`, `sessions`, `closed`, `writes` and `nextClient`. Its methods update them in place. Each method is specified by the `TcpState` function for its event, so every property proved in `TcpState` holds of the object.

Behaviours of the code as written:
- Inside the session loop, a caught exception does not leave the loop (`TcpSupport.cs:128-131`). The model lets nothing else in the loop body throw: see the `GetStream` line under "## Left out" for what that excludes.
- `Stop` never clears `_isRunning`. When no other session stores or removes an entry under the same key in between:
  - a session that registers after `Stop` (it was still probing when `Stop` ran) finds an entry under its key in its teardown, so it restarts the listener and launches another accept loop (`TcpState.RestartAfterStop`);
  - a session that registered before a `Stop` that completed finds its key gone from the emptied table: its teardown calls `Close` on null, throws and restarts nothing (`TcpState.RegisteredBeforeStopThrows`).

  With two sessions under one key, one registered before `Stop` and one still probing, the outcome is reversed. The late session stores its client in the emptied table. The earlier session's teardown then removes and closes that client and restarts the listener, and the late session's own teardown throws (`TcpState.SameKeyAcrossStop`).
- `Stop` run while a stored session is between its loop and its teardown throws on that session's disposed client and leaves the table as it was; the teardown that follows removes the entry and restarts the listener (`TcpState.StopInTeardownWindow`).
- The teardown calls `TryRemove(ip)`, which removes whatever client is stored under the key, even when that client belongs to another session. With two connections under the same endpoint text, only the one whose client is stored is in the table. When the other session tears down first, it removes and closes the stored client, and the stored session's own teardown then throws (`TcpState.DuplicateKeyEvictsFirst`, `TcpState.LaterSessionEvicts`). When the stored session tears down first, it removes its own entry, and the other session's teardown finds no entry and throws (`TcpState.TeardownSpec`, which gives `NullReferenceException` whenever the key is absent).

## Model

| member | source | states |
|---|---|---|
| Text.Ascii | TcpSupport.cs:105 | Encoding.ASCII gives one byte per character: its code point when below 128, otherwise '?' (63) |
| Text.Utf8 | ntrip.go:79 | Go's []byte(s) is at least as long as s and is the identity on ASCII text |
| Text.Utf8AsciiByte | ntrip.go:78-79 | an ASCII byte appears in the UTF-8 of a string only where the string holds that character |
| Base64.Encode | ntrip.go:79 | the encoding has 4 characters per started 3-byte group, all from the alphabet or '=' |
| Base64.DecodeEncode | ntrip.go:79 | decoding the standard encoding gives back every byte string exactly |
| Ntrip.Utf8Append | ntrip.go:78-79 | UTF-8 of a concatenation is the concatenation of the UTF-8 encodings |
| Ntrip.CredentialBytes | ntrip.go:78-79 | the encoded bytes are UTF-8 user, byte 58, UTF-8 password |
| Ntrip.Base64Credentials | ntrip.go:77-80 | base64 of the UTF-8 bytes of user, ':' and password; its meaning is stated by the two lemmas below |
| Ntrip.CredentialsDecode | ntrip.go:77-80 | for every user and password, the credentials decode to UTF-8 user, byte 58, UTF-8 password |
| Ntrip.CredentialsRoundTrip | ntrip.go:77-80 | with no ':' in the user name, the first ':' of the decoded bytes is the separator, so user and password are recovered |
| Ntrip.Request | ntrip.go:27-32 | the request line and four header lines, each ended by CRLF, then the empty line; RequestIsHeaderBlock states what it is |
| Ntrip.ReadString | ntrip.go:86 | the text up to and including the next newline, or the rest of the text and the connection's error; NextNewlineIsFirst states where it stops |
| Ntrip.Headers | ntrip.go:82-100 | what readHeaders returns; HeadersSpec states it |
| Ntrip.NextNewlineIsFirst | ntrip.go:86 | ReadString('\n') stops at the first newline and skips none |
| Ntrip.ReadHeaders | ntrip.go:82-100 | the loop returns exactly Headers(r); after success the reader stands just after the block, and after an error at the end of the input |
| Ntrip.ReadStringStep | ntrip.go:86-96 | one read either ends the input with no terminator left, or extends the text read so far by one line that ends the block exactly when it is CRLF |
| Ntrip.HeaderEndFindsFirstTerminator | ntrip.go:85-97 | the reader stops after the first line that is exactly CRLF, and a line before it is never CRLF |
| Ntrip.HeaderEndAtFirstTerminator | ntrip.go:85-97 | conversely, the first CRLF line is where the reader stops |
| Ntrip.HeadersSpec | ntrip.go:82-100 | success iff some line is CRLF; the result is the prefix up to and including the first one; an error returns "" and drops the lines already read |
| Ntrip.HeadersIgnoreLaterInput | ntrip.go:94-96 | text after the header block does not change what readHeaders returns |
| Ntrip.HeaderEndShift | ntrip.go:85-97 | reading a text from inside a longer one that ends with it finds the same block, moved by the length of the prefix |
| Ntrip.PlainLineIsKept | ntrip.go:91-96 | a complete line that is not exactly CRLF is kept in the result and reading continues after it |
| Ntrip.TerminatorEndsHeaders | ntrip.go:94-96 | a response starting with CRLF has the header block "\r\n" |
| Ntrip.RequestLinesArePlain | ntrip.go:27-31 | the request line and the four header lines are complete lines that are not the terminator |
| Ntrip.RequestIsHeaderBlock | ntrip.go:27-32 | the request, read back with readHeaders, is exactly one header block whatever follows it |
| Ntrip.ClientRequest | ntrip.go:13-32 | the request main sends, built from the configured mount point, user and password; ClientRequestIsHeaderBlock states what it is |
| Ntrip.ClientRequestIsHeaderBlock | ntrip.go:27-32 | the request with the configured mount point and base64 credentials is one header block |
| Ntrip.Contains | ntrip.go:55 | strings.Contains; ContainsSpec states it |
| Ntrip.ContainsSpec | ntrip.go:55 | strings.Contains is true iff the substring occurs at some index |
| Ntrip.Handshake | ntrip.go:45-58 | the verdict main reaches after the request: a header error, not accepted, or accepted; HandshakeSpec states it |
| Ntrip.HandshakeSpec | ntrip.go:45-58 | the response is accepted iff the headers were read and contain "HTTP/1.1 200 OK"; text after the header block does not change the verdict |
| TcpState.Initial | TcpSupport.cs:11-17 | the constructor's state: empty table, counter 0, not running, token not cancelled, listener not started; InitialInv states it satisfies the invariant |
| TcpState.InitialInv | TcpSupport.cs:11-17 | a new server satisfies the invariant |
| TcpState.Run | TcpSupport.cs:19-31 | a failed bind throws; otherwise the listener starts, the running flag is set and an accept loop is launched; RunInv states what it keeps |
| TcpState.RestartListener | TcpSupport.cs:58-63 | sets the running flag, starts the listener and launches one more accept loop |
| TcpState.Stop | TcpSupport.cs:33-56 | cancel, stop the listener, close the stored clients in enumeration order, clear the table unless a close threw; StopSpec states it |
| TcpState.Close | TcpSupport.cs:48 | Client.Close() on a stored client: it throws NullReferenceException when the client is disposed, and otherwise closes it |
| TcpState.CloseEach | TcpSupport.cs:44-51 | the closing loop over the first keys of an order, ended by the first exception; it changes only the closed handles |
| TcpState.Accept | TcpSupport.cs:69-74 | one turn of the accept loop; AcceptSpec states it |
| TcpState.AcceptAll | TcpSupport.cs:65-76 | the accept loop over the arriving connections; AcceptAllSpec states it |
| TcpState.ProbeAndRegister | TcpSupport.cs:85-99 | the probe, the increment and AddOrUpdate; ProbeSpec states it |
| TcpState.LeaveLoop | TcpSupport.cs:101-134 | leaving the using blocks disposes the session's client |
| TcpState.Iterate | TcpSupport.cs:103-132 | one pass of the session loop; IterateSpec states it |
| TcpState.Teardown | TcpSupport.cs:136-146 | the end of EchoAsync; TeardownSpec states it |
| TcpState.RunLoop | TcpSupport.cs:103-132 | the session loop over a script of passes; the session keeps its key and is active or has left its loop |
| TcpState.Echo | TcpSupport.cs:78-146 | a whole EchoAsync; EchoSpec states it |
| TcpState.Send | TcpSupport.cs:150-165 | Send; SendSpec states it |
| TcpState.SendEach | TcpSupport.cs:169-170 | the broadcast loop, ended by the first exception; SendEachDeliveries and SendEachAfterRaise state it |
| TcpState.SendToAll | TcpSupport.cs:167-171 | the broadcast; SendToAllSpec states it |
| TcpState.SendToSelectedClient | TcpSupport.cs:183-186 | the indexer, then Send; SendToSelectedSpec states it |
| TcpState.TableBoundedByCounter | TcpSupport.cs:97-99 | under the invariant the table has no more entries than the counter |
| TcpState.RunInv | TcpSupport.cs:19-31 | Run keeps the invariant |
| TcpState.StopInv | TcpSupport.cs:33-56 | Stop keeps the invariant |
| TcpState.AcceptInv | TcpSupport.cs:65-76 | accepting a connection keeps the invariant |
| TcpState.ProbeInv | TcpSupport.cs:85-99 | the probe and the registration keep the invariant |
| TcpState.RegisterInv | TcpSupport.cs:97-99 | counting the session and AddOrUpdate keeping the old value keep the invariant |
| TcpState.LeaveLoopInv | TcpSupport.cs:101-134 | leaving the using blocks keeps the invariant |
| TcpState.IterateInv | TcpSupport.cs:103-132 | one loop iteration keeps the invariant |
| TcpState.TeardownInv | TcpSupport.cs:136-146 | the teardown keeps the invariant |
| TcpState.TeardownCount | TcpSupport.cs:137 | after the decrement the counter equals the number of registered sessions |
| TcpState.SendInv | TcpSupport.cs:150-165 | Send changes nothing but the write log, and keeps the invariant |
| TcpState.SendEachInv | TcpSupport.cs:167-171 | the broadcast changes nothing but the write log |
| TcpState.NextInv | TcpSupport.cs:19-186 | every event of the server keeps the invariant |
| TcpState.ReachableInv | TcpSupport.cs:19-186 | every state reached by a sequence of events keeps the invariant and has no more table entries than the counter |
| TcpState.FromStartInv | TcpSupport.cs:11-186 | every state reachable from a new server satisfies the invariant, with the table no larger than the counter |
| TcpState.ProbeSpec | TcpSupport.cs:85-99 | a zero-byte peek ends the session and records nothing; otherwise the counter goes up and the key maps to the first client stored under it |
| TcpState.IterateSpec | TcpSupport.cs:103-132 | the heartbeat is sent first; the loop is left iff the token is cancelled, the read times out, faults or is canceled, or reads zero bytes |
| TcpState.TeardownSpec | TcpSupport.cs:136-146 | decrement; the entry under the key is removed whoever stored it; the removed client is closed and the listener restarted iff the running flag is set; without an entry the close throws and nothing restarts |
| TcpState.StopSpec | TcpSupport.cs:33-56 | the token is cancelled and the listener stopped; Stop completes iff no stored client is disposed, and then every stored client is closed and the table emptied; otherwise it throws NullReferenceException with the table unchanged; the running flag, the counter and the sessions are unchanged |
| TcpState.CloseEachSpec | TcpSupport.cs:44-51 | the closing loop closes only stored clients; it completes iff no visited client is disposed, having closed them all; otherwise it throws at the first disposed one, having closed every client before it |
| TcpState.CloseEachAfterRaise | TcpSupport.cs:44-51 | once a close has thrown, the remaining keys change nothing |
| TcpState.CloseEachStep | TcpSupport.cs:44-51 | one more key in the loop is one more Close of its stored client |
| TcpState.StopInTeardownWindow | TcpSupport.cs:33-56 | Stop between a stored session's loop exit and its teardown throws on the disposed client and keeps the table; the teardown then removes the entry and restarts the listener |
| TcpState.AcceptSpec | TcpSupport.cs:65-76 | a connection is accepted only while the token is not cancelled and the listener is started; it gets a fresh handle and a session under the key it is given |
| TcpState.AcceptAllSpec | TcpSupport.cs:65-76 | the accept loop takes every arriving connection, with consecutive fresh handles, and none once cancelled or stopped |
| TcpState.AcceptAllFrame | TcpSupport.cs:65-76 | the accept loop leaves the table, the counter, the closed handles and the writes alone |
| TcpState.AcceptAllHandles | TcpSupport.cs:69-74 | one handle per connection, consecutively numbered |
| TcpState.AcceptAllSessions | TcpSupport.cs:72-74 | each accepted connection has a probing session under the key it is given, on consecutive handles; earlier sessions are kept and no other session appears |
| TcpState.AcceptAllProbing | TcpSupport.cs:72-74 | the handle returned for the i-th connection holds a probing session under the i-th key |
| TcpState.AcceptAllInv | TcpSupport.cs:65-76 | the accept loop keeps the invariant |
| TcpState.SendSpec | TcpSupport.cs:150-165 | null arguments throw; a closed client or an unwritable stream gets nothing; otherwise exactly one write; nothing else changes |
| TcpState.SendToSelectedSpec | TcpSupport.cs:178-186 | an absent key throws from the indexer whatever the data; a present key is a Send to the stored client |
| TcpState.SendEachDeliveries | TcpSupport.cs:167-171 | with data, the broadcast appends exactly the deliveries, one per open writable client, in enumeration order |
| TcpState.DeliveriesFromTable | TcpSupport.cs:169-170 | every broadcast write carries the data to a stored client, and there are no more writes than keys |
| TcpState.DeliveriesDistinct | TcpSupport.cs:167-170 | under the invariant, no client receives the broadcast twice: distinct keys of the enumeration hold distinct clients |
| TcpState.DeliveriesReachAll | TcpSupport.cs:169-170 | every open writable stored client receives the data |
| TcpState.DeliveriesAll | TcpSupport.cs:169-170 | when all clients are open and writable, there is one write per key in enumeration order |
| TcpState.EnumerationLength | TcpSupport.cs:169 | an enumeration of the dictionary has one element per key |
| TcpState.SendToAllSpec | TcpSupport.cs:167-176 | the broadcast leaves everything but the log; null data throws at the first Send and completes only on an empty table; with data it writes once to each deliverable client |
| TcpState.NullBroadcast | TcpSupport.cs:169-170 | null data throws at the first client and writes nothing |
| TcpState.SendEachAfterRaise | TcpSupport.cs:169-170 | once a Send throws, the remaining keys change nothing |
| TcpState.RunLoopSpec | TcpSupport.cs:103-132 | the loop ends iff the token is cancelled or some read ends the session; one heartbeat per iteration, the last included; table and counter untouched |
| TcpState.RunLoopInv | TcpSupport.cs:103-132 | the session loop keeps the invariant |
| TcpState.EchoSpec | TcpSupport.cs:78-146 | a whole session keeps the invariant; a session refused by its probe changes neither table nor counter; a finished registered session restores the counter and leaves its key out of the table |
| TcpState.DuplicateKeyEvictsFirst | TcpSupport.cs:99-146 | with two sessions under one key, the second one's teardown removes and closes the first one's client; the first then sends nothing and its own teardown throws |
| TcpState.LaterSessionEvicts | TcpSupport.cs:140-141 | a session whose client is not the stored one removes and closes the stored one |
| TcpState.EvictedSessionThrows | TcpSupport.cs:103-141 | a session whose client was closed under it and whose key is gone sends nothing and throws in its teardown |
| TcpState.RestartAfterStop | TcpSupport.cs:33-63 | when a session's registration, loop exit and teardown follow Stop with no other session touching its key, the teardown restarts the listener and an accept loop, because the running flag stays set; the new loop accepts nothing |
| TcpState.RegisteredBeforeStopThrows | TcpSupport.cs:33-56 | when a completed Stop is followed by this session's loop exit and teardown with no other session touching its key, the teardown throws, its key being gone, and restarts nothing |
| TcpState.SameKeyAcrossStop | TcpSupport.cs:33-145 | with one session under a key registered before a completed Stop and another still probing, the late one stores its client in the emptied table; the earlier one's teardown removes and closes it and restarts the listener; the late one's teardown throws |
| NetworkSupport.TcpSupport.constructor | TcpSupport.cs:11-17 | the new object is in the initial state and satisfies the invariant |
| NetworkSupport.TcpSupport.Run | TcpSupport.cs:19-31 | the new state is TcpState.Run of the old one |
| NetworkSupport.TcpSupport.Stop | TcpSupport.cs:33-56 | the keys visited form an enumeration of the table, and the new state and outcome are TcpState.Stop for that order |
| NetworkSupport.TcpSupport.CloseAll | TcpSupport.cs:44-51 | the foreach over the stored clients, in place: the new state and outcome are TcpState.CloseEach for an enumeration of the table |
| NetworkSupport.TcpSupport.CloseClient | TcpSupport.cs:48 | the new state and outcome are TcpState.Close |
| NetworkSupport.EnumerationOfRest | TcpSupport.cs:44 | the keys visited so far followed by the rest of the table form an enumeration of the table |
| NetworkSupport.TcpSupport.RestartListener | TcpSupport.cs:58-63 | the new state is TcpState.RestartListener of the old one |
| NetworkSupport.TcpSupport.AcceptClients | TcpSupport.cs:65-76 | the loop's state and its accepted handles are TcpState.AcceptAll of the old state |
| NetworkSupport.TcpSupport.ProbeAndRegister | TcpSupport.cs:85-99 | the new state is TcpState.ProbeAndRegister |
| NetworkSupport.TcpSupport.LeaveLoop | TcpSupport.cs:101-134 | the new state is TcpState.LeaveLoop |
| NetworkSupport.TcpSupport.Teardown | TcpSupport.cs:136-146 | the new state and the outcome are TcpState.Teardown |
| NetworkSupport.TcpSupport.Echo | TcpSupport.cs:78-146 | the in-place session, with its loop, ends in TcpState.Echo of the old state |
| NetworkSupport.TcpSupport.Send | TcpSupport.cs:150-165 | the new state and the outcome are TcpState.Send |
| NetworkSupport.TcpSupport.SendToAll | TcpSupport.cs:167-171 | the keys visited form an enumeration of the table, and the new state and outcome are TcpState.SendToAll for that order |
| NetworkSupport.TcpSupport.SendTextToAll | TcpSupport.cs:173-176 | null text throws before anything is sent; otherwise this is SendToAll of the ASCII bytes |
| NetworkSupport.TcpSupport.SendToSelectedClient | TcpSupport.cs:183-186 | the new state and the outcome are TcpState.SendToSelectedClient |
| NetworkSupport.TcpSupport.SendTextToSelectedClient | TcpSupport.cs:178-181 | an absent key throws before the null check; null text throws; otherwise this is SendToSelectedClient of the ASCII bytes |

## Left out

- The sockets, the listener, the streams and the tasks are not modelled:
  - a connection is a numbered handle;
  - the probe, each read's outcome and a stream's `CanWrite` are inputs;
  - a write is an entry appended to a log.
- Concurrency is not modelled. Sessions, the accept loop and the public calls run as separate tasks in the source, but the model runs them as a sequence of events that can interleave in any order. Races on the dictionary and the counter are therefore not modelled, and neither is `Interlocked`'s atomicity.
- Console output, the log lines and `Thread.Sleep(1000)` are left out because they have no effect on the state. So are the receive buffer and the `Encoding.ASCII.GetString` of what was read.
- The port number and `IPAddress.Any` are left out. Binding failure is an input of `Run` only; `RestartListener` is taken to rebind always.
- `RemoteEndPoint.ToString()` is an input string. A null key is not modelled.
- `TcpState.Accept`: its `ip` stands for the value the session task reads when it starts. `AcceptClientsAsync` declares `ip` once (`TcpSupport.cs:67`), reassigns it on each turn (`TcpSupport.cs:72`), and the lambda of `Task.Run` (`TcpSupport.cs:74`) reads it only when the task runs, so a session may get the endpoint of a later connection as its key. The model gives each session its key as an input and does not relate it to the connection's own endpoint.
- The `IsFaulted` / `Wait` check in `Run` is left out: the model takes the accept task not to have faulted yet when `IsFaulted` is read, which `Task.Run` does not guarantee.
- Exceptions from `GetStream` other than `ObjectDisposedException` are not modelled. The exception thrown for a client closed by `Stop` is taken to be swallowed, like a disposed client's. In the source, such an exception from the heartbeat `Send` (`TcpSupport.cs:105`, outside the `try`) would leave the `while` and skip the teardown at `TcpSupport.cs:136-145`: the counter would never be decremented and the table entry would stay. The model has no such path.
- The 610-second timeout and the one-second delay are not clocks. The read's outcome is an input, and `TimedOut` stands for the delay winning.
- `TcpState.RunLoop` and `NetworkSupport.TcpSupport.Echo` run the session loop on a finite script of iterations. A session whose script ends before it leaves the loop is still running; an infinite session is not modelled.
- `NetworkSupport.TcpSupport.SendToAll`: the order in which the dictionary enumerates its keys is a ghost output, constrained only to be an enumeration of the table.
- ntrip.go `main`:
  - the dial, the write of the request, the printing and the data loop after the handshake are left out, because they are network I/O;
  - `ntripServer` is not used by the model;
  - bytes buffered by the `bufio.Reader` beyond the header block are not modelled, because they are lost only to the data loop;
  - a response that never ends is not represented: every `Ntrip.Reader` ends in an error, so a caster that keeps the connection open without ever sending a CRLF line, where `readHeaders` would block forever (the dial sets no deadline), has no model.
- Go strings and the data a `bufio.Reader` returns are bytes; the model uses Unicode strings. Invalid UTF-8 in a response cannot be represented, and the reader position `pos` and `|headers|` count characters, not bytes. `Ntrip.Base64Credentials` encodes the UTF-8 bytes of its text, as Go's `[]byte(s)` does for valid text.
- `Ntrip.Handshake`: `main` prints a message naming "ICY 200 OK" but tests for "HTTP/1.1 200 OK". The model follows the test.
- The `Heartbeat` constant is written as the 23 ASCII bytes of "Message from the server", not as `Ascii` applied to that text.
