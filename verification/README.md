# Verification of the event loop, its byte queue, its lists and the serial registry

This project models and verifies four parts of the library:

- the single-threaded event loop of `src/zsocket.c`: sockets on a list, two
  descriptor sets with their watermarks, status words, six counters, buffered
  receive and send, callbacks that call back into the library, and two-phase
  closing with the cascade from a server to everything on its port;
- the growable byte queue of `src/qbuf.c`, on which the loop's buffers stand;
- the circular list and the `hlist` of `src/list.h`, as objects that point at
  each other;
- the shared serial ports of `src/serial/serial_port.c`, with the open and close
  state and the chunked read of `src/serial/serial_unix.c`.

## How the model is built

Each part has two layers. The lower one is imperative, as the C code is: classes
whose methods update fields, cursors that walk a list while it changes, loops over
arrays. The upper one is a set of functions on values that follow the C functions
branch by branch. Every method is proved equal to its function; the theorems about
steps, runs and reachable states are proved about the functions.

| file | content |
|---|---|
| `Basics.dfy` | options, bytes, duplicate-free sequences, filters |
| `ByteQueue.dfy` | the queue as a value, and every run of its operations |
| `QBuf.dfy` | the queue in memory: buffer, two offsets, overlapping move |
| `Sockets.dfy` | the state of the event loop and the effect of every step |
| `LoopInvariant.dfy` | what every step and every run of the loop keeps |
| `Callbacks.dfy` | what calls made inside a callback can do |
| `FlagAgreement.dfy` | when status words tell the truth about the descriptor sets |
| `Polling.dfy` | the early exit, the walk over a growing list, which callbacks fail an assertion |
| `Repairs.dfy` | when exactly a poll keeps the status words true |
| `Closing.dfy` | the cascade and the closing pass |
| `Runs.dfy` | statements about all reachable states |
| `Turns.dfy` | what holds between two visits of a turn, and what a whole turn does |
| `Streams.dfy` | what passes through a socket over whole runs, and when it stalls, told from the events alone |
| `Effects.dfy` | what each function of `zsocket.c` leaves behind, field by field, with the numbers |
| `Departures.dfy` | when exactly closes happen twice and counters go wrong |
| `Scenarios.dfy` | runs from the initial state in which the code misses its evident intent |
| `EventLoop.dfy` | `zsocket.c` as classes with cursors |
| `ListHead.dfy`, `HList.dfy` | the two kinds of lists on the heap |
| `SerialRegistry.dfy` | the registry as a value, its invariant over all runs |
| `SerialUse.dfy` | what each serial call does, when exactly a close fails or leaks, what balanced use guarantees |
| `SerialPort.dfy` | ports, managers and the read loop as classes |

## Conventions

- The outside world is arbitrary. A callback is any finite list of API calls with
  any return value; `select`, `recv`, `send`, `accept`, the allocator and the clock
  answer anything they can answer. `World` and `Clock` give those answers for each
  socket of a turn. The connected callback is the last thing `zsocket_connect` does
  (`src/zsocket.c:171`), so its calls are the next calls of whoever connected.
- An `Outcome` says how a step ends. `ApiStop`: an assertion in, or a crash of, a
  function that the application called, or an answer the system cannot give.
  `LoopStop`: an assertion in the loop's own code. Theorems say for which inputs
  each of them occurs.
- Some fields are not in the C structs and only remember: `log` (the bytes that
  passed through a socket), `redundant` (closes of sockets that were closed
  already), `portClash` (listen was called on a port in use), `stuck` and `leaked`
  (a device whose close failed), `handles` (serial handles given out).
- A status word is a set of flags; `|=` is union and `&=` is intersection.

## Where the code and its intent part

The model follows the code in each of these places.

- Status bits are meant to be set with `&=` (`src/zsocket.c:348`, 368, 386, 393,
  451), which clears the word. `FlagAgreement.RecvAgreesExactly` says exactly when
  one dispatch leaves flags and descriptor sets apart, `Repairs.PollAgreesExactly`
  when a whole poll does, and `FlagAgreement.RunAgrees` that closing a socket whose
  `recv` failed is enough to prevent it over every run.
  `Scenarios.FailedRecvLosesFlag` gives a run in which it happens. A consequence
  is `Polling.ResetWhileSendingStops`, with the run `Scenarios.ResetStops`.
- The mask with the time-out flag clears EOF, so a stalled connection that is
  closed already, or that a cascade of the same pass has just closed, is closed a
  second time (`src/zsocket.c:449-452`), as is a socket closed by its own callback
  whose full buffer cannot grow (366-369). `Departures.PassCountsExactly` and
  `Departures.RecvRedundantExactly` give the exact conditions;
  `Scenarios.StalledCloseMiscounts`, `Scenarios.CascadeMiscounts` and
  `Scenarios.FullCloseMiscounts` are runs.
- The header says that a tick of 0 switches the time-out off (`src/zsocket.h:67`).
  The code has no such test: `Streams.LeavesByTimeExactly` holds for every tick, and
  `Scenarios.SilentRun` has a connection with tick 0 that goes after 301 seconds.
- Outside the loop a server removes nodes under a plain iteration
  (`src/zsocket.c:83-86`, 131-132); `Closing.CloseOutsideExactly` says when this is
  safe, `Scenarios.CloseOutsideStops` is a run in which it is not.
- Callbacks can make the assertions of the handlers fail (`src/zsocket.c:329-330`,
  376-378). `Polling.PollStopsExactly` says when a poll fails one, visit by visit;
  `Polling.PollExact` is the contract for callbacks, exact as long as the API
  accepts every call; `Polling.ConsiderateNeverStops` is a simple sufficient one,
  `Scenarios.MeddlingStops` a run.
- Listening on a port in use makes the assertion at `src/zsocket.c:109` reachable,
  also with two servers on one port, bound at different addresses or both with
  port 0. `Closing.PassStopsExactly` says when it fails, for any list;
  `Scenarios.PortClashStops` and `Scenarios.TwoServersStop` are runs;
  `Runs.ReachableCascadeSafety` excludes it otherwise.
- A failing `accept` runs into the assertions of `__zsocket_close`
  (`src/zsocket.c:226-229` against 76-77): modelled as `ApiStop`.
- `zsocket_loop` returns -1 with `in_looping` still set (`src/zsocket.c:469-470`):
  modelled as it is.
- `serial_close` whose restore of the line settings fails leaves the port open with
  an open count of 0, and `serial_destory` then frees it with its descriptor open;
  `SerialUse.CloseExactly`, `SerialUse.DestroyExactly` and
  `SerialUse.RunLeaksExactly` say exactly when, `SerialUse.LeakingRun` is a run, and
  `SerialUse.RestoringRun` says what holds when it never happens.

## Model

| member | source | states |
|---|---|---|
| `Runs.ReachableCascadeSafety` | src/zsocket.c:445-463 | in every reachable state, if listen never hit a port in use, the closing pass after the next poll cannot fail the assertion at line 109 |
| `Runs.CascadeSafety` | src/zsocket.c:445-463 | one closing pass finishes, removes exactly the sockets closed before or stalled, keeps the rest in order, and changes a remaining socket only by marking it when its server goes |
| `Turns.TurnClears` | src/zsocket.c:445-476 | whatever was closed when a turn began is gone when it ends, whatever its poll and callbacks do; everything left on the port of a server it finalised is closed |
| `Turns.TwoTurnsClear` | src/zsocket.c:445-476 | from any reachable state, two turns with any calls between them leave nothing that was closed after the first, nor anything on the port of a server the first finalised |
| `Turns.ReachablePassStopsExactly` | src/zsocket.c:81-109 | after any poll from any reachable state, the closing pass fails its assertion iff some place of the list is fatal, a condition on flags, kinds, ports and time-outs before the pass |
| `Runs.ReachableInv` | src/zsocket.c:465-476 | the whole invariant (list, descriptor sets, watermarks, counters, buffers, streams, order of servers) holds in every state any run reaches |
| `Runs.ReachableSocket` | src/zsocket.c:306-397 | in every reachable state received = consumed + buffered and accepted = sent + buffered; read capacity <= max(8192, 8 * peak), write capacity <= max(8192, 2 * peak); an open socket has room to receive |
| `Turns.ReachableVisit` | src/zsocket.c:326-440 | at every visit of every poll of every run, however far the poll has come: it goes on with the next socket of the old list, which is registered; recv has room, the read callback sees exactly what is received and unconsumed, send is offered exactly what is accepted and unsent |
| `Runs.ReachableDescriptors` | src/zsocket.c:107-117 | in every reachable state both sets hold only open registered sockets below the watermarks; READ_ENABLE implies selected for reading; selected for writing iff there is a write buffer; watermarks stay non-negative |
| `Runs.ReachableCounters` | src/zsocket.c:122-129 | total = current + closed, current = sum of the kinds, and each kind's counter is the number of its open sockets less its redundant closes, exactly |
| `Runs.RunOrderly` | src/zsocket.c:202 | over every run, as long as no port in use was listened on, all sockets of a port stand in front of its server |
| `Runs.ListenOrderly` | src/zsocket.c:198-205 | listening keeps that order unless the port was in use |
| `Runs.RegisterOrderly` | src/zsocket.c:166 | head insertion of a client or connection keeps that order |
| `Streams.RunConserves` | src/zsocket.c:306-397 | over every run, from the events alone: what was queued for a socket is what was handed to send followed by its write buffer; what arrived is what its callbacks took followed by its read buffer; its tick is the time of its last recv or of its opening; buffers are at most max(8192, 8 * most unread) and max(8192, 2 * most unsent) |
| `Streams.RunStallsExactly` | src/zsocket.c:448-453 | after every run and any further poll, a closing pass removes an open socket that stands behind no closed server of its port iff it is a connection whose last recv or opening, told from the events, is more than 300 seconds ago |
| `Streams.LeavesByTimeExactly` | src/zsocket.c:448-453 | in any state with the invariant: an open socket behind no closed server of its port leaves iff it is a connection and the clock is more than 300 past its tick; clients and servers never leave by time |
| `Streams.TurnKeepsTheHeard` | src/zsocket.c:344-351 | a connection that received at t in a turn and is open after the poll outlives that turn iff the clock of its visit is at most t + 300, whatever the callbacks do, unless it stands behind a closed server of its port |
| `Streams.PollStamps` | src/zsocket.c:351 | a socket that is read from in a poll has the time of that recv as its tick when the poll ends, however many callbacks run in between |
| `Effects.OpensExactly` | src/zsocket.c:135-254 | connect, accept and listen put the new socket at the head with its kind, the port and time of the system, 300 seconds to stall and no buffers, and count it; a server is selected for reading, and the port clash is remembered iff a registered socket used its port |
| `Effects.ReadStartExactly` | src/zsocket.c:281-292 | the whole state after read_start: one descriptor more in the read set, the watermark at least one above it, flag and callback set |
| `Effects.ReadStopExactly` | src/zsocket.c:294-304 | the whole state after read_stop: the descriptor, the flag and the callback are gone, the watermark falls by one iff it was just above |
| `Effects.ReadStopUndoes` | src/zsocket.c:281-304 | starting and stopping to read restores every field but the watermark, which ends at the descriptor unless it was higher |
| `Effects.WriteExactly` | src/zsocket.c:306-324 | the whole state after a write: lazily a buffer of 8192 bytes, the descriptor selected and the flag set, all bytes queued if memory can be had, otherwise as many as fit; nothing at all without memory for the first buffer |
| `Effects.CloseExactly` | src/zsocket.c:107-133 | the whole effect of closing: out of both sets, watermarks, EOF added to the flags, one socket moved from open to closed in the counters; outside the loop the socket also leaves the list |
| `Effects.SendExactly` | src/zsocket.c:373-397 | a positive answer of send takes exactly that many bytes off the front of the buffer, packed by LESS_SPARE, and changes nothing else; a failed send closes the socket; otherwise nothing changes |
| `Effects.RecvExactly` | src/zsocket.c:338-371 | a receive dispatch is: lazy buffer of 8192, new bytes behind the unread, tick and flags; then the calls of the callback; then what it took leaves the front, and a full buffer is doubled or the socket closed |
| `Effects.RecvOtherwise` | src/zsocket.c:332-342 | a ready server only runs its callback; without memory for a buffer nothing happens |
| `Effects.TurnExactly` | src/zsocket.c:465-476 | a turn serves the ready sockets of the list as it stands and then closes; an interrupted select leaves only the closing; a broken one only `in_looping` |
| `LoopInvariant.RunInv` | src/zsocket.c:465-476 | every run from a state with the invariant ends in one with it, whatever callbacks and system do |
| `LoopInvariant.StepInv` | src/zsocket.c:465-476 | one API call or one turn keeps the invariant |
| `LoopInvariant.ApplyInv` | src/zsocket.c:107-324 | every API function keeps the invariant, inside and outside the loop |
| `LoopInvariant.HandleRecvInv` | src/zsocket.c:326-371 | a receive dispatch with any callback keeps the invariant and leaves room in every open read buffer |
| `LoopInvariant.HandleSendInv` | src/zsocket.c:373-397 | a send dispatch keeps the invariant and the room |
| `LoopInvariant.DispatchingInv` | src/zsocket.c:423-440 | the dispatch loop keeps the invariant under any callbacks |
| `LoopInvariant.CascadeInv` | src/zsocket.c:81-87 | the cascade of a server keeps the invariant |
| `LoopInvariant.ClosePassInv` | src/zsocket.c:445-463 | the closing pass keeps the invariant |
| `LoopInvariant.MaskAndCloseInv` | src/zsocket.c:450-453 | masking the word and closing keeps the invariant even for a socket closed before, whose second close is counted |
| `LoopInvariant.CountersClosed` | src/zsocket.c:122-129 | a close moves one socket from current to closed in its kind; a second close is exactly one redundant close |
| `LoopInvariant.PutWriteInv` | src/zsocket.c:306-324 | a write extends the accepted stream by what the buffer took and keeps the capacity bound |
| `LoopInvariant.DrainLeavesRoom` | src/zsocket.c:361-370 | consuming at least one byte and collecting with LESS_SPARE always leaves spare room |
| `LoopInvariant.WbufRunoutIsDead` | src/zsocket.c:388-396 | after a positive send the WBUF_RUNOUT branch is unreachable: exactly the sent bytes leave the buffer, which then has room, and the socket keeps its flags |
| `LoopInvariant.GrowOrCloseInv` | src/zsocket.c:366-370 | a full read buffer is doubled within the bound of 8 * peak, or the socket is given up, with the invariant kept |
| `FlagAgreement.RecvAgreesExactly` | src/zsocket.c:338-371 | a dispatch leaves its socket's flags in agreement with the descriptor sets iff recv did not fail, or the callback closed the socket, or it read-started it and the socket never wrote |
| `FlagAgreement.RecvAgreesElsewhere` | src/zsocket.c:326-371 | no dispatch disturbs the agreement of any other socket, old or new |
| `FlagAgreement.RunAgrees` | src/zsocket.c:281-324 | over every run whose callbacks close a socket whose recv failed: read set iff READ_ENABLE, write set iff WRITE_ENABLE iff write buffer, for each open socket |
| `Repairs.PollAgreesExactly` | src/zsocket.c:326-440 | a poll that gets through keeps flags and descriptor sets in agreement iff every failed recv in it is answered by a close or, for a socket that never wrote, by reading again, in its own callback or a later one |
| `Repairs.CallsMend` | src/zsocket.c:107-324 | calls bring a socket back into agreement, or leave exactly what later calls still have to do |
| `Callbacks.CallsTrack` | src/zsocket.c:119-132 | calls inside the loop remove no socket and touch no read buffer; the resulting read state of each socket is a function of the calls |
| `Callbacks.CallsPrepend` | src/zsocket.c:166 | calls inside the loop change the list only by putting new sockets in front |
| `Callbacks.CallsNeverLoopStop` | src/zsocket.c:107-133 | no call from a callback can fail an assertion of the loop itself |
| `Callbacks.CallsAcceptedExactly` | src/zsocket.c:107-324 | the library accepts the calls of a callback iff each fits kind, read state and write state of its socket, followed call by call without buffers or time |
| `Turns.CallsKeepClosed` | src/zsocket.c:107-324 | no call, inside or outside the loop, opens a closed socket again or takes it off the list |
| `Callbacks.CallsRepairRead` | src/zsocket.c:281-292 | a lost read flag is repaired iff the calls close the socket or start reading it |
| `Callbacks.CallsRepairWrite` | src/zsocket.c:306-324 | a lost write flag is repaired iff the calls close the socket |
| `Polling.PollSkipsNobody` | src/zsocket.c:412-440 | the poll with its countdown and break equals the full sweep over the list |
| `Polling.EarlyExit` | src/zsocket.c:438-439 | the break is harmless as long as the countdown starts no lower than the number of ready sockets ahead |
| `Polling.SweepPrepends` | src/zsocket.c:423-440 | polling removes and reorders nothing; sockets added by callbacks stand in front of the old list |
| `Polling.VisitTracks` | src/zsocket.c:425-436 | a visit changes other sockets only through the calls of its callback |
| `Polling.PollStopsExactly` | src/zsocket.c:412-440 | a poll fails an assertion of the loop iff it reaches a socket whose visit stops; no condition on what the API accepts |
| `Polling.VisitStopsExactly` | src/zsocket.c:425-436 | a visit fails an assertion iff its socket is to be read from and does not read, or is to be written to and cannot send, from the start or because of its own accepted read |
| `Polling.PollExact` | src/zsocket.c:412-440 | a poll gets through only if the callbacks are polite, and an assertion of the loop fails only if they are not; politeness looks at the state before the poll and the calls alone |
| `Polling.RecvRefusedExactly` | src/zsocket.c:326-371 | the dispatch of a reading socket ends in the API iff its callback makes a call that is not accepted, or recv or the callback answers an impossible count |
| `Polling.SweepExact` | src/zsocket.c:423-440 | the same for any part of the walk, with the calls made so far, as long as the API accepts every call |
| `Polling.VisitExact` | src/zsocket.c:425-436 | one visit that the API accepts gets through iff its socket is still reading (writing) after the calls made so far |
| `Polling.RecvOwnSend` | src/zsocket.c:326-378 | a receive dispatch leaves its socket able to send iff it was able, its callback did not close it, recv did not fail, and its buffer did not run out |
| `Polling.ResetWhileSendingStops` | src/zsocket.c:347-378 | no poll gets through in which a socket is ready for both directions and its recv fails: the loop stops at an assertion unless a call was refused first |
| `Polling.ConsiderateNeverStops` | src/zsocket.c:326-397 | with agreeing flags and callbacks that leave other ready sockets alone no assertion of the handlers can fail |
| `Closing.CascadeExact` | src/zsocket.c:81-87 | the cascade stops iff a socket of the port was closed before; otherwise it marks exactly the sockets of that port |
| `Closing.FinalCloseExact` | src/zsocket.c:74-105 | finalising removes exactly that socket; for a server it marks exactly the others on its port, and fails iff one of them was closed before |
| `Closing.CloseOutsideExactly` | src/zsocket.c:107-133 | outside the loop closing an open server is safe iff no other registered socket uses its port; any other open socket can be closed and exactly it goes |
| `Closing.CloseVisitExact` | src/zsocket.c:448-462 | one step of the pass removes its socket iff it was closed, or is a connection silent for longer than its `stall`, and changes others only through the cascade |
| `Closing.PassStopsExactly` | src/zsocket.c:445-463 | the pass fails the assertion at line 109 iff a closed server has a closed socket of its port among the kept or behind it, or behind it a second server of its port that has company: a socket behind it, or one in front that stays |
| `Closing.PassResult` | src/zsocket.c:445-463 | the result of any part of a pass that gets through, told from the state before it: a socket goes iff it was closed, had stalled, or stands behind a closed server of its port; the rest keep their order and are only marked, when their server goes |
| `Closing.PassKeepsServersLast` | src/zsocket.c:445-463 | a pass keeps every socket in front of the server of its port |
| `Departures.PassRedundant` | src/zsocket.c:449-453 | every pass that gets through closes for a second time exactly the stalled connections that are closed already or stand behind a closed server of their port |
| `Departures.PassCountsExactly` | src/zsocket.c:449-453 | from right counters, the connection counter is right after a pass that gets through iff no stalled connection is closed already or stands behind a closed server of its port |
| `Departures.CallsCloseExactly` | src/zsocket.c:107-133 | accepted calls leave an open socket closed iff one of them closed it |
| `Departures.RecvRedundantExactly` | src/zsocket.c:366-370 | a dispatch closes its own socket twice iff the callback closed it and the full buffer could not grow |
| `Scenarios.FailedRecvLosesFlag` | src/zsocket.c:347-348 | a three-step run after which an open socket is selected for reading without READ_ENABLE |
| `Scenarios.PortClashStops` | src/zsocket.c:107-109 | a three-step run with listen on a port in use that fails the assertion in the closing pass |
| `Scenarios.TwoServersStop` | src/zsocket.c:81-109 | a run with two servers on one port in which closing one of them, and nothing else, fails the assertion in the closing pass |
| `Scenarios.StalledCloseMiscounts` | src/zsocket.c:449-453 | a three-step run after which a server is open and the counters say 0 sockets and -1 connections |
| `Scenarios.CascadeMiscounts` | src/zsocket.c:81-87 | a run in which a cascade closes a stalled connection that its time-out closes again: no sockets, and the counters say -1 sockets and -1 connections |
| `Scenarios.FullCloseMiscounts` | src/zsocket.c:366-369 | a run in which a callback closes its own socket and its full buffer cannot grow: no sockets, and the counters say -1 sockets and -1 clients |
| `Scenarios.CloseOutsideStops` | src/zsocket.c:83-86 | a run in which a server is closed outside the loop while a connection on its port is registered: the walk follows a removed node |
| `Scenarios.MeddlingStops` | src/zsocket.c:329-330 | a run in which a callback closes, or stops reading from, a socket still to be dispatched: its dispatch fails an assertion |
| `Scenarios.ResetStops` | src/zsocket.c:376-377 | a run in which a client with bytes to send is reset by its peer: the send handler fails its assertion |
| `Scenarios.SilentRun` | src/zsocket.c:449-452 | a connection accepted at 0 that stays silent is there after a turn at 300 and gone after one at 301 |
| `Scenarios.HeardRun` | src/zsocket.c:351 | the same connection, receiving at 299, is there after a turn at 301 |
| `EventLoop.ZSocket.constructor` | src/zsocket.c:55-71 | a fresh struct is unused: no kind, no flags, no buffers |
| `EventLoop.ZSocket.Open` | src/zsocket.c:160-165 | an unused struct becomes a new socket of the given kind, port and tick |
| `EventLoop.ZSocket.Take` | src/zsocket.c:338-351 | lazy buffer, received bytes or failed flag, in place, and the tick is the time of this recv: the struct as the read callback finds it |
| `EventLoop.EventLoop.constructor` | src/zsocket.c:107-117 | the initial globals are the initial state |
| `EventLoop.EventLoop.Mark` | src/zsocket.c:111-129 | the first phase of a close, in place: sets, watermarks, EOF and counters as `MarkClosed`, list unchanged |
| `EventLoop.EventLoop.Close` | src/zsocket.c:107-133 | in the loop only marks; outside finalises as `FinalClose` |
| `EventLoop.EventLoop.Finalise` | src/zsocket.c:74-105 | the struct leaves the list and a server's cascade runs over the live list; equals `FinalClose` |
| `EventLoop.EventLoop.CloseServer` | src/zsocket.c:81-87 | the cursor walk over the live list equals the `Cascade` over its descriptors |
| `EventLoop.EventLoop.Connect` | src/zsocket.c:135-173 | registers the struct at the head as a client with the descriptor, port and time of the system and 300 seconds to stall, or nothing when the system refuses |
| `EventLoop.EventLoop.Listen` | src/zsocket.c:175-213 | registers a server at the head and selects it for reading, or nothing when the system refuses |
| `EventLoop.EventLoop.Accept` | src/zsocket.c:215-254 | registers a fresh connection at the head with the descriptor, port and time of the system and 300 seconds to stall; null and no change when there is no memory |
| `EventLoop.EventLoop.ReadStart` | src/zsocket.c:281-292 | selects for reading and raises the watermark |
| `EventLoop.EventLoop.ReadStop` | src/zsocket.c:294-304 | deselects and lowers the watermark by at most one |
| `EventLoop.EventLoop.Write` | src/zsocket.c:306-324 | lazy buffer, write selection and queueing; -1 iff there was no buffer and no memory for one, otherwise the number of bytes that joined the accepted stream |
| `EventLoop.EventLoop.RunCalls` | src/zsocket.c:357 | a callback of any calls, on the heap: new structs only in front, all others stay in place |
| `EventLoop.EventLoop.HandleRecv` | src/zsocket.c:326-371 | the receive handler in place equals the function `HandleRecv`; the struct keeps its place in the list, and after a recv its tick is the time of that recv |
| `EventLoop.EventLoop.HandleSend` | src/zsocket.c:373-397 | the send handler in place equals the function `HandleSend`: as many bytes as send took leave the front of the buffer, and a failed send closes the socket and counts it |
| `EventLoop.EventLoop.DispatchAll` | src/zsocket.c:423-440 | a cursor over the live, growing list with its countdown equals dispatching over the list as it stood; the old list stays a suffix |
| `EventLoop.EventLoop.Poll` | src/zsocket.c:399-443 | one poll equals the function `Poll`; -1 when select breaks |
| `EventLoop.EventLoop.CloseServe` | src/zsocket.c:449-461 | one step of the pass takes its struct off the list iff it was closed, or is a connection silent for longer than its `stall` |
| `EventLoop.EventLoop.DoClose` | src/zsocket.c:445-463 | the safe cursor over the shrinking list equals the pass over the list as it stood and never stands on a removed struct |
| `EventLoop.EventLoop.Loop` | src/zsocket.c:465-476 | one turn equals the function `Loop`; -1 with `in_looping` still set when select breaks |
| `ByteQueue.RunIsFifo` | src/qbuf.c:85-166 | for every run of writes, reads and collections: content + everything accepted = everything delivered + content |
| `ByteQueue.RunCapacity` | src/qbuf.c:153-166 | for every run the capacity is at most max(initial size, 2 * peak content) |
| `ByteQueue.Queue.Accepted` | src/qbuf.c:153-166 | a write takes all bytes when the allocator grants growth, otherwise the longest prefix that fits beside the content |
| `ByteQueue.Queue.Write` | src/qbuf.c:153-166 | appends the accepted prefix; turns bytes away only when the whole capacity is content; grows to at most twice the content |
| `ByteQueue.WriteExactly` | src/qbuf.c:153-166 | the whole queue after a write: content, garbage and size; packed iff the bytes do not fit behind the content, enlarged iff they do not fit beside it, to twice the larger of size and write |
| `QBuf.MoveDown` | src/qbuf.c:109 | memmove to lower addresses is right although the ranges overlap |
| `QBuf.QBuf.constructor` | src/qbuf.c:14-33 | an empty queue of the given capacity, 4096 for 0 |
| `QBuf.QBuf.Realloc` | src/qbuf.c:43-53 | changes the capacity and keeps what fits; content and offsets are sound afterwards iff the new length does not cut into them; untouched on refusal |
| `QBuf.QBuf.Used` | src/qbuf.c:75-78 | the amount of content |
| `QBuf.QBuf.Spare` | src/qbuf.c:80-83 | the room behind the content, never negative |
| `QBuf.QBuf.Collect` | src/qbuf.c:85-115 | on the offsets: an empty queue returns to the start of its buffer; another is packed iff LESS_SPARE is not asked or at most size/4 is spare, and LARGE_GARBAGE is not asked or at least size/4 is garbage, and else both offsets stay; the content is unchanged, and the room returned is that of the result |
| `QBuf.QBuf.OffsetOutHead` | src/qbuf.c:117-125 | drops a prefix of the content, clamped |
| `QBuf.QBuf.OffsetInHead` | src/qbuf.c:127-135 | publishes bytes behind the content, clamped to the capacity |
| `QBuf.QBuf.Peek` | src/qbuf.c:137-143 | copies a prefix of the content and changes nothing else |
| `QBuf.QBuf.Read` | src/qbuf.c:145-151 | the bytes delivered followed by the new content are the old content |
| `QBuf.QBuf.Append` | src/qbuf.c:161-165 | appends the longest prefix that fits |
| `QBuf.QBuf.Write` | src/qbuf.c:153-166 | in place, with collection and growth, equals the write on values; when it packs and how far it grows is told on the offsets |
| `ListHead.ListHead.constructor` | src/list.h:45-49 | a node linked to itself is the empty ring |
| `ListHead.Insert` | src/list.h:57-65 | linking between two neighbours, possibly one node, inserts at that place and keeps all links mutually inverse |
| `ListHead.Add` | src/list.h:75-78 | the node becomes the first entry |
| `ListHead.AddTail` | src/list.h:88-91 | the node becomes the last entry |
| `ListHead.CutOut` | src/list.h:100-104 | the neighbours, possibly one node, close up: the ring without exactly that entry |
| `ListHead.Delete` | src/list.h:112-117 | removes exactly that entry without knowing the head and poisons it |
| `ListHead.DeleteInit` | src/list.h:152-156 | removes exactly that entry and leaves it an empty ring |
| `ListHead.Replace` | src/list.h:133-139 | the new node takes the place of an entry, or of a head with its whole ring; an empty head yields an empty head |
| `ListHead.ReplaceInit` | src/list.h:141-146 | the same, and what was replaced is an empty ring |
| `ListHead.Move` | src/list.h:163-167 | to the front of the same or another ring; both rings end as they should |
| `ListHead.MoveTail` | src/list.h:174-179 | to the end of the same or another ring |
| `ListHead.TestsAreExact` | src/list.h:186-227 | the emptiness, last-entry and singularity tests, which look at one or two links, are right about the whole ring |
| `ListHead.KeepIf` | src/list.h:298-300 | the safe iteration that deletes current entries leaves exactly the entries kept, in order |
| `ListHead.WalkWhileAdding` | src/list.h:281-282 | the plain iteration whose body adds at the head visits exactly the old entries, once each, and no new one |
| `ListHead.WalkNext` | src/list.h:281-282 | from an old entry the walk reaches the next old entry, whatever stands in front |
| `HList.PprevPointsBack` | src/list.h:462-464 | the location a node remembers holds that very node and belongs to its list |
| `HList.AddHead` | src/list.h:510-518 | the node becomes the first |
| `HList.AddBefore` | src/list.h:522-528 | inserts in front of a node without knowing the head, also in front of the first |
| `HList.AddBehind` | src/list.h:530-539 | inserts behind a node |
| `HList.Unlink` | src/list.h:485-493 | removes exactly that node without knowing the head |
| `HList.Delete` | src/list.h:495-500 | removes exactly that node, and leaves both its links poisoned |
| `HList.DeleteInit` | src/list.h:502-508 | removes exactly that node, or does nothing when it is unhashed, so it can be repeated |
| `HList.MoveList` | src/list.h:567-573 | the whole list changes heads, the first node's location with it |
| `HList.TestsAreExact` | src/list.h:480-560 | the emptiness and singularity tests are right about the whole list |
| `SerialRegistry.ReachableManager` | src/serial/serial_port.c:47-152 | over every run: one manager for each device, reference count = handles, several handles all share and agree on the line, open iff it has a descriptor, iff in use or a close failed |
| `SerialRegistry.ReachableDescriptor` | src/serial/serial_port.c:154-269 | over every run: an open descriptor belongs to exactly one manager, unless it leaked when a destroyed port could not be closed |
| `SerialUse.NewExactly` | src/serial/serial_port.c:79-152 | serial_new counts one more caller of a shared port and changes nothing else, or puts a closed port with one caller in front |
| `SerialUse.OpenExactly` | src/serial/serial_port.c:154-180 | serial_open succeeds iff the port is in use, still open, or the device can be opened now; success counts one opening more and keeps the descriptor of an open port; failure counts nothing and leaves the port closed |
| `SerialUse.CloseCounts` | src/serial/serial_port.c:227-244 | serial_close counts one opening less, down to none; the device is shut iff none is left, it was open and could be restored; the call fails iff none is left and it was not shut |
| `SerialUse.DestroyCounts` | src/serial/serial_port.c:246-269 | serial_destory takes one handle away; others left: only the reference count changes; the last: the manager goes and its descriptor is closed or lost |
| `SerialUse.SharingRun` | src/serial/serial_port.c:154-244 | two callers share a device: both opens answer 0 although the device would refuse the second, the first close leaves it open, the second shuts it |
| `SerialUse.CloseExactly` | src/serial/serial_port.c:227-244 | after serial_close the port is open iff in use, if and only if it is used more than once, was not open, or its settings could be restored |
| `SerialUse.DestroyExactly` | src/serial/serial_port.c:246-269 | serial_destory loses a descriptor iff the handle was the last, the port was open and its settings could not be restored |
| `SerialUse.RunLeaksExactly` | src/serial/serial_port.c:154-269 | a run leaves a descriptor open that nobody can close iff one of its destroys did that |
| `SerialUse.RestoringRun` | src/serial/serial_port.c:154-269 | if settings can always be restored: after every run open iff in use, no descriptor lost, each open one belongs to exactly one port |
| `SerialUse.LeakingRun` | src/serial/serial_unix.c:277-301 | a run of new, open, close and destroy after which the port stays open unused and its descriptor is lost |
| `SerialUse.RunSettles` | src/serial/serial_port.c:154-244 | over every balanced run the open count of a port is the sum of the opens its handles still have to close |
| `SerialUse.CloseSettles` | src/serial/serial_port.c:227-244 | a balanced close lowers that sum by one and shuts the device exactly if it was the last |
| `SerialRegistry.RunInv` | src/serial/serial_port.c:79-269 | every run of new, open, close and destroy keeps the invariant |
| `SerialRegistry.AdmissionExact` | src/serial/serial_port.c:89-112 | serial_new gives a handle iff all present handles on the device and the new caller share with the same line settings; otherwise nothing changes |
| `SerialRegistry.DevNameInjective` | src/serial/serial_port.c:82-89 | finding by name is finding by index |
| `SerialRegistry.Find` | src/serial/serial_port.c:47-56 | the first manager of that name, None iff there is none |
| `SerialRegistry.NewInv` | src/serial/serial_port.c:79-152 | serial_new keeps the invariant |
| `SerialRegistry.OpenInv` | src/serial/serial_port.c:154-180 | serial_open keeps the invariant, whatever the device answers |
| `SerialRegistry.CloseInv` | src/serial/serial_port.c:227-244 | serial_close keeps the invariant, also when the line settings cannot be restored |
| `SerialRegistry.DestroyInv` | src/serial/serial_port.c:246-269 | serial_destory keeps the invariant; the last handle takes the manager with it |
| `SerialRegistry.DescriptorOwner` | src/serial/serial_unix.c:277-292 | every descriptor that is open and not leaked has exactly one owner |
| `SerialPort.Port.Open` | src/serial/serial_unix.c:9-186 | an open port stays as it is; otherwise open iff the device was opened and configured, with its descriptor, and no descriptor on failure |
| `SerialPort.Port.Close` | src/serial/serial_unix.c:277-292 | closes iff there is a descriptor and the settings are restored; otherwise changes nothing and returns -1 |
| `SerialPort.Chunk` | src/serial/serial_unix.c:227-231 | one read brings the first min(wanted, 1024, what is there) bytes |
| `SerialPort.GatherExactly` | src/serial/serial_unix.c:223-234 | what the loop gathers is what its reads bring one after the other up to the first round at which enough is there, the wait times out or nothing comes, and which of these it was |
| `SerialPort.ReadRounds` | src/serial/serial_unix.c:223-234 | the loop fills the buffer with exactly the bytes of its rounds, in order, and tells whether a read was dry |
| `SerialPort.ReadPort` | src/serial/serial_unix.c:212-242 | the buffer starts with exactly the bytes the rounds delivered, in order, its rest untouched; -1 iff closed, or nothing came although no read was dry |
| `SerialPort.Registry.FindSerial` | src/serial/serial_port.c:47-56 | the cursor loop returns the manager `Find` names, null iff none |
| `SerialPort.Registry.New` | src/serial/serial_port.c:79-152 | equals the function `New`; the port returned is the shared one or a fresh one |
| `SerialPort.Registry.Enlist` | src/serial/serial_port.c:58-76 | a manager with one reference and no opening, at the front |
| `SerialPort.Registry.Open` | src/serial/serial_port.c:154-180 | equals the function `Open`; the result is 0 iff the device has a manager and the port was open or the device could be opened now |
| `SerialPort.Registry.Close` | src/serial/serial_port.c:227-244 | equals the function `Close` with its result |
| `SerialPort.Registry.Destroy` | src/serial/serial_port.c:246-269 | equals the function `Destroy` |

## Left out

- Buffers inside sockets: `EventLoop` holds them as `Queue` values, and class `QBuf` separately refines `Queue`; sharing a buffer between sockets is not expressible.
- The lists `socks` and `serial_mangers` are sequences of objects in `EventLoop` and `Registry`; modules `ListHead` and `HList` prove the pointer level of the same operations.
- EventLoop.EventLoop.Connect: takes a struct in the state `zsocket_init` leaves, and so does `Listen`. A struct that was registered keeps EOF when it leaves the list, so that using it again without `zsocket_init` always fails the assertion at `src/zsocket.c:139` or 179; registering a struct that is still on the list, which breaks the list, is not modelled.
- EventLoop.EventLoop.Accept: a failing `accept` is excluded, because the C code then runs into its own assertions; `Sockets.Apply` gives it the outcome `ApiStop`.
- EventLoop.EventLoop.Loop: a callback that calls `zsocket_loop` again is not modelled.
- `stall` is a public field; an application that writes to it directly is not modelled, so it is 300 throughout.
- QBuf.QBuf.Read: the count must fit a C `int`; the narrowing at `src/qbuf.c:147` is a precondition, not modelled. Sizes are unbounded naturals, so `size_t` wrap-around at 119, 129 and 159 is not modelled.
- QBuf.QBuf.Realloc: a length of 0, for which the C library may free the buffer, is excluded.
- HList.Delete: the poisoned `next` pointer is the null pointer here; `pprev` has a poison value of its own.
- `hlist_add_fake` and `hlist_fake` are not modelled.
- SerialRegistry.NewInv: an unknown parity on an absent device is excluded, because the C code then closes a descriptor that was never initialised (`src/serial/serial_port.c:128-133`).
- The close callback: it is cleared at `src/zsocket.c:101` before it is tested at 457, so it never fires and the model has none.
- `FD_SETSIZE`: descriptor sets are unbounded sets.
- Control blocks: their allocation always succeeds, except where a branch of the source depends on it (`zsocket_accept`, the two lazily allocated buffers).
- FlagAgreement.RunAgrees: gives a sufficient condition over runs; the exact one, `Repairs.PollAgreesExactly`, is for one poll and does not follow what the closing pass removes.
- Polling.PollExact: with impolite callbacks it leaves open whether the loop or the API stops; `PollStopsExactly` tells that for the loop, `RecvRefusedExactly` for the API, dispatch by dispatch.
- Polling.SweepExact: assumes that the API accepts every call, and so does `VisitExact`; `VisitStopsExactly` does not.
- User data, `sdata`, getters, debug printing, `err_code` and termios bits carry no property and are absent.
- Threads: the serial functions run one after the other; `opencount` is tested outside the lock in the C code, and interleavings are not modelled.
- `serial_read`, `serial_write` and `serial_clean` only look the manager up and forward; of the backend only open, close and the read loop are modelled.
- `src/serial/serial_win.c`, `src/socket/socket_cli.c` and Winsock start-up are platform plumbing and not part of this model.
- Reverse and continue variants of the iteration macros, and `container_of`, would repeat what is proved for the forward ones.
