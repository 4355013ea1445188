# A verified model of the PSoC 6 Arduino core

This project models the parts of the Arduino core for PSoC 6 that move data and keep books, and
proves what they promise: the sample path of the PDM microphone driver, the sockets and the TCP
and UDP classes on top of them, the fix-up step of the C formatter, integer printing, I2C, the
PWM and ADC slot tables, the serial port, and waiting on a wrapping clock.

Check everything with `dafny verify dfyconfig.toml` (Dafny 4.11).

## How the model is built

- Code that updates state in place is a class with the same fields, or a method with the same
  loop. Its contract ties the new state to a specification function, and the lemmas about runs
  are proved of that function. Where a whole run is executed against the object, the method is
  called `Replay...`.
- The hardware layer (`cyhal_*`), the socket library (`cy_socket_*`), the heap and the clock are
  foreign. Their answers are parameters, so every theorem holds for every combination of successes
  and failures. The contracts assumed of them are `SocketCount.Possible` (new handles are new; only
  existing handles can be accepted on, disconnected or deleted) and, for the theorems that say when a
  wait ends, `Clock.Advances` (the clock is looked at again and again, at most g ticks apart).
  They take at most what they are offered and hand over at most what they are asked for. Nothing else
  is assumed; in particular a write that reports failure may have taken bytes.
- `RingBufferN` belongs to the Arduino API; its file, `api/RingBuffer.h`, is not part of this model.
  `Fifo.ByteFifo` states the contract the core relies on. Each of its operations is one atomic step, and so is each
  callback of the socket library. The ring of the PDM driver, which is written in this repository,
  is also modelled one memory access at a time.
- `size_t`, `unsigned long` and `uint32_t` have 32 bits. Wrap-around is written out where it can
  happen. CY_RSLT_SUCCESS is 0.

## Files

| file | content |
|---|---|
| `Common.dfy` | options, word sizes |
| `Fifo.dfy` | bounded queues and runs of them |
| `PdmSamples.dfy`, `Pdm.dfy`, `PdmInterleaving.dfy` | widening in place, the ring and the driver, the ring under every interleaving |
| `CodeFormat.dfy`, `CodePatterns.dfy` | `fixup_c`: the stack machine, the lines, the file; what its regular expressions match |
| `SecSocket.dfy` | the reference count and the socket |
| `ClientList.dfy`, `WiFiServer.dfy` | what the server does to its list of clients, and the server |
| `ServerRuns.dfy`, `ServerReplay.dfy` | runs of a server, its sketch and other sockets, and the server object under them |
| `WiFiUdp.dfy` | datagrams |
| `Itoa.dfy`, `Wire.dfy`, `AnalogIo.dfy`, `Uart.dfy`, `Clock.dfy` | the smaller cores |

## Where the code does not do what it seems to promise

Each of these is proved with the exact condition under which the code does.

- A `begin` that fails after the socket count was raised is never paid back: the network stack is
  then not shut down again until sockets and failed calls together reach 2^32, where the 32-bit count
  comes round (`SocketCount.StrandedForever`, `SocketCount.LastEndShutsDownIff`,
  `SocketCount.StrandedLimit`). The shortest such run is `SocketCount.OneBeginCanStrand`.
- A sketch that stops a client, as the web server example does after every request, deletes its socket,
  but the server still lists it. The stack may give the handle to the next client, which is then
  listed twice, and all its data goes to the stopped one (`ServerRuns.StoppedClientIsListedTwice`,
  `ServerReplay.StarvedClient`). The list stays free of duplicates from a point on exactly if it has none
  and no listed client was stopped since it was accepted (`ServerRuns.ListStaysCleanIff`).
- `Socket::begin` and the receive callback report an unset protocol with SOCKET_STATUS_UNINITED,
  whose value is that of CY_RSLT_SUCCESS; the check that follows does not fire and the status stays
  (`SecSocket.Socket.Begin`).
- `WiFiServer::end` erases while it advances and leaves every other client in the list; all are
  stopped exactly if there is at most one (`ClientList.AllAreStoppedIff`). The clients it skips keep
  the network stack up (`WiFiServer.SkippedClientsKeepStackUp`).
- `WiFiServer::available` says that repeated calls return different clients. As long as no client in
  front of the last one leaves, a call returns another one exactly if that one is no longer ready and a
  later one is; and if one in front leaves, the last one can be skipped although it is ready
  (`ClientList.NextCallDiffersIff`, `ClientList.LeavingClientHidesNext`). Of two ready clients the
  second is never returned (`ClientList.SecondClientIsNotReached`). A ready client is found exactly if
  one stands at the cursor or behind it (`ClientList.FoundIff`); one in front of it can wait for ever
  (`ClientList.ClientBeforeCursorStarves`).
- `WiFiServer::write` documents that the result equals the size exactly if every client got all
  bytes. With a client connected, that holds exactly for sizes below 65536. With none, the result is
  4294967295 whatever the size (`ClientList.ResultTellsAllSentIff`).
- `setAnalogWriteFrequency(pin, 0)` stands for the default before the channel is set up, but tells
  the hardware 0 Hz afterwards; this lasts until the next `analogWrite` to the pin, and is the only
  way in which a pin is not driven at the frequency last set (`PwmMap.DrivenAsSetIff`,
  `PwmMap.ZeroReachesTheHardware`).
- `Uart::write` returns before counting the bytes of a write that fails. Its result is the number of
  bytes that went out exactly unless its last round failed part way (`Uart.Write`,
  `Uart.CountMissesFailedBytes`).
- A UDP receive that fails still queues an empty packet, with an address nobody filled in
  (`WiFiUdp.WiFiUdpClass.ReceiveCallback`).
- The I2C slave keeps a message whole exactly if it fills at most half of the free space, rounded
  up, but always tells the sketch the full length (`Wire.KeptWholeIff`). `requestFrom` counts bytes
  it dropped (`Wire.TwoWire.RequestFrom`).
- `delay` can end early when the counter wraps, and never ends for some requests above 4294967 ms
  (`Clock.DelayNeverEarlyIff`, `Clock.DelayReturnsIff`).

## Model

| member | source | states |
|---|---|---|
| Fifo.OfferInChunks | libraries/WiFi/src/WiFiUdp.cpp:92-105 | how a byte stream is cut into writes makes no difference to what a bounded buffer keeps |
| Fifo.Conservation | libraries/PDM/src/PDM.cpp:134-164 | over any run of arrivals and reads, the number of items accepted is the number handed out plus the number still queued |
| Fifo.LossFreeIff | libraries/PDM/src/PDM.cpp:138-150 | a run loses nothing if and only if every block found room for itself when it arrived |
| Fifo.ServeNext | libraries/PDM/src/PDM.cpp:124-164 | an object that serves each arrival and read correctly keeps delivered followed by queued equal to everything accepted |
| PdmSamples.WidenInPlace | libraries/PDM/src/PDM.cpp:211-216 | after the descending loop over shared memory, for any length, every 32-bit word is the sign extension of the 16-bit sample that had its index |
| PdmSamples.WordRoundTrip | libraries/PDM/src/PDM.cpp:214-214 | a 32-bit value stored as little-endian bytes reads back as itself |
| PdmSamples.HalfRoundTrip | libraries/PDM/src/PDM.cpp:212-214 | a 16-bit sample stored as little-endian bytes reads back as itself |
| PdmSamples.LowHalfFirst | libraries/PDM/src/PDM.cpp:211-215 | memory is little-endian: the first half-word of a stored 32-bit word is its low half |
| PdmRing.HeadMove | libraries/PDM/src/PDM.cpp:145-146 | moving the head over a slot makes exactly the sample in it readable, across the wrap |
| PdmRing.TailMove | libraries/PDM/src/PDM.cpp:159-160 | moving the tail over a slot removes exactly the oldest sample, across the wrap |
| PdmRing.WriteIsPrivate | libraries/PDM/src/PDM.cpp:145-145 | storing into the head slot changes nothing the reader can see |
| Pdm.PdmClass.SetBufferSize | libraries/PDM/src/PDM.cpp:105-122 | the ring becomes empty and holds the requested number of samples, or none if the heap refuses |
| Pdm.PdmClass.Begin | libraries/PDM/src/PDM.cpp:19-57 | starts only with a buffer, reports the documented codes, and leaves the buffered samples alone |
| Pdm.PdmClass.End | libraries/PDM/src/PDM.cpp:59-78 | an initialized driver loses its ring and its samples; any other is unchanged |
| Pdm.PdmClass.RingAvailable | libraries/PDM/src/PDM.cpp:124-132 | the number of samples waiting |
| Pdm.PdmClass.RingFree | libraries/PDM/src/PDM.cpp:134-136 | available plus free is always the size asked for |
| Pdm.PdmClass.RingWrite | libraries/PDM/src/PDM.cpp:138-150 | appends the longest prefix of the data that fits and returns its length |
| Pdm.PdmClass.RingRead | libraries/PDM/src/PDM.cpp:152-164 | copies out the oldest samples, removes exactly them, and touches nothing behind them in the caller's array |
| Pdm.PdmClass.OnReceiveService | libraries/PDM/src/PDM.cpp:210-225 | a completed transfer of 16-bit samples adds the prefix of the block that fits to the ring |
| Pdm.Replay | libraries/PDM/src/PDM.cpp:84-225 | in every run of completions and reads, delivered samples followed by buffered ones are the prefixes of the blocks that fitted |
| Pdm.TwoBlocksAreReliable | libraries/PDM/src/PDM.h:73-78 | a reader at most one block behind never loses a sample if and only if the ring holds two blocks |
| PdmInterleaving.ProducerKeepsInv | libraries/PDM/src/PDM.cpp:138-150 | every single memory access of the writer keeps the invariant of the shared ring |
| PdmInterleaving.ConsumerKeepsInv | libraries/PDM/src/PDM.cpp:152-164 | every single memory access of the reader keeps the invariant of the shared ring |
| PdmInterleaving.RunKeepsInv | libraries/PDM/src/PDM.cpp:124-164 | the invariant holds after every schedule |
| PdmInterleaving.PrefixUnderEverySchedule | libraries/PDM/src/PDM.cpp:124-164 | under every interleaving of index and slot accesses, what was read is a prefix of what was accepted, and at most n samples are outstanding |
| PdmInterleaving.CallersSeeAFifo | libraries/PDM/src/PDM.cpp:138-164 | the arrays returned by finished reads, in order, are a prefix of the data prefixes taken by the writes |
| PdmInterleaving.SidesNeverShareASlot | libraries/PDM/src/PDM.cpp:145-160 | writer and reader never work on the same slot at the same time |
| PdmInterleaving.SoloWrite | libraries/PDM/src/PDM.cpp:138-150 | the steps of an uninterrupted write have the effect the class promises for the whole call |
| PdmInterleaving.SoloRead | libraries/PDM/src/PDM.cpp:152-164 | the steps of an uninterrupted read have the effect the class promises for the whole call |
| PdmInterleaving.RoomOnlyGrows | libraries/PDM/src/PDM.cpp:152-164 | while the writer stands still, the reader can only make room |
| PdmInterleaving.WriteUsesTheRoomItFound | libraries/PDM/src/PDM.cpp:138-142 | however the reader runs in between, a write decides to store at least what would have fitted when it began and never more than fits |
| PdmInterleaving.FillOnlyGrows | libraries/PDM/src/PDM.cpp:138-150 | while the reader stands still, the writer can only add samples |
| PdmInterleaving.ReadGetsWhatItFound | libraries/PDM/src/PDM.cpp:152-156 | however the writer runs in between, a read decides to hand over exactly what was waiting when it began, up to what was asked, and that is still there |
| Directives.PassMeans | tools/codeformat.py:46-80 | a pass finishes if and only if directives are balanced and no follower starts left of its dedented `#if`; it then puts each into the column of its `#if`, at any depth, and moves nothing else |
| Directives.InnermostBelongs | tools/codeformat.py:54-75 | the top of the stack is the innermost open directive, and the only one a line belongs to |
| Directives.RoundMeans | tools/codeformat.py:49-75 | when one round goes through, and the column it writes the line at, told without the stack |
| Directives.PassIdempotent | tools/codeformat.py:46-80 | a second pass finishes and moves nothing |
| CodeFormat.FixupLine | tools/codeformat.py:49-75 | one round of the loop over real lines does what the stack machine does |
| CodeFormat.FixupC | tools/codeformat.py:46-80 | the loop writes exactly the lines of the specified pass and fails exactly where and how it does |
| CodeFormat.FixupFinishes | tools/codeformat.py:57-80 | the exact condition under which no index error and no assertion stops the program |
| CodeFormat.FixupMeans | tools/codeformat.py:51-78 | every line keeps its text and stands in its right column, and lines that are no directives are unchanged |
| CodeFormat.FixupIdempotent | tools/codeformat.py:39-80 | a second run finishes and changes no line |
| CodePatterns.OpensIff | tools/codeformat.py:52-56 | a line opens a directive if and only if it begins with at least one space, followed by `#if `, `#ifdef ` or `#ifndef ` |
| CodePatterns.MiddleIff | tools/codeformat.py:52-52 | a line is in the middle of a directive if and only if it begins with at least one space, followed by `#elif ` or `#else` |
| CodePatterns.ClosesIff | tools/codeformat.py:52-75 | a line closes a directive if and only if it begins with at least one space, followed by `#endif` |
| CodePatterns.PlainIff | tools/codeformat.py:52-53 | every other line is plain, and no other one |
| CodePatterns.ElseOrCaseIff | tools/codeformat.py:59-61 | the second expression matches a line if and only if it begins with at least one space, followed by `} else ` or `case ` |
| CodePatterns.MustDedentIff | tools/codeformat.py:56-65 | a line is moved by four if and only if, for some n > 0, it begins with n + 4 spaces and an opening directive, and the next one with n spaces and `} else ` or `case ` |
| CodePatterns.CaseIsLinedUp | tools/codeformat.py:46-80 | for any texts and any n, an `#if` before such a line and its `#endif` are both written four columns to the left, and the line between them as it is |
| CodePatterns.CaseExample | tools/codeformat.py:46-80 | a file of three lines with its output |
| CodeFormatFile.SplitOfJoin | tools/codeformat.py:41-45 | reading back written lines gives the same lines |
| CodeFormatFile.FixupFileIdempotent | tools/codeformat.py:39-80 | fixing a file twice leaves what the first run left, whatever line ends the file had |
| LineEnds.EveryEndIsALineFeed | tools/codeformat.py:41-42 | whatever ends the lines of a file have, mixed in any way, it is read as the same lines ended by line feeds |
| SocketCount.NextKeepsInv | libraries/WiFi/src/SecSocket.cpp:22-60 | each begin, accept or end that leaves fewer than 2^32 live sockets and stranded begins keeps count = their number, and shuts the stack down only when nothing is left |
| SocketCount.NextKeepsFlag | libraries/WiFi/src/SecSocket.cpp:329-349 | each call keeps the flag equal to whether the stack is up, which is defined by what it was asked and answered alone; a begin that raises the count leaves it up, and a granted shutdown leaves it down |
| SocketCount.RunKeepsFlag | libraries/WiFi/src/SecSocket.cpp:329-349 | in every run without any bound, the flag tells whether the stack is up |
| SocketCount.AsksIff | libraries/WiFi/src/SecSocket.cpp:329-349 | in every run without any bound, a call asks the stack to come up if and only if it is a begin and the stack is down, and to shut down if and only if it deletes a socket and leaves a multiple of 2^32 sockets and stranded begins; nothing else is asked |
| SocketCount.RunKeepsCount | libraries/WiFi/src/SecSocket.cpp:329-349 | in every run without any bound, the 32-bit count is the number of live sockets and stranded begins modulo 2^32 |
| SocketCount.RunKeepsInv | libraries/WiFi/src/SecSocket.cpp:329-349 | the count equation in every run, of any length and with any failures, in which never 2^32 sockets and stranded begins exist at a time |
| SocketCount.StackOutlivesSockets | libraries/WiFi/src/SecSocket.cpp:340-349 | in every such run the stack is shut down only after its last socket is deleted, and while a socket is live it is up, by what it was asked and answered |
| SocketCount.ShutsDownIff | libraries/WiFi/src/SecSocket.cpp:340-349 | in every run without any bound, a call shuts the stack down if and only if it deletes a socket and leaves a multiple of 2^32 sockets and stranded begins |
| SocketCount.OthersStayLive | libraries/WiFi/src/SecSocket.cpp:50-60 | sockets that no call of a run deletes stay live, and keep the count at or above their number and the stack up unless 2^32 are held at a time |
| SocketCount.StrandedForever | libraries/WiFi/src/SecSocket.cpp:22-45 | after a begin that failed past the count, no call of any run shuts the stack down unless it leaves 2^32 or more sockets and stranded begins |
| SocketCount.OneBeginCanStrand | libraries/WiFi/src/SecSocket.cpp:22-45 | the legal run of one call that strands the count: a begin whose socket cannot be created |
| SocketCount.StrandedLimit | libraries/WiFi/src/SecSocket.cpp:329-349 | the limit is reached: after 2^32 stranded begins, opening and deleting one socket shuts the stack down |
| SocketCount.LastEndShutsDownIff | libraries/WiFi/src/SecSocket.cpp:50-60 | in any run, deleting the last socket shuts the stack down if and only if the number of stranded begins is a multiple of 2^32 |
| SecSocket.SocketGlobals.GlobalInit | libraries/WiFi/src/SecSocket.cpp:329-338 | asks the stack to come up if the flag is down, reports and keeps the flag down if that fails, and otherwise raises the count: the init step of the count machine, with its request |
| SecSocket.SocketGlobals.GlobalDeinit | libraries/WiFi/src/SecSocket.cpp:340-349 | lowers the count, at zero asks the stack to shut down, and takes the flag down if that is granted: the deinit step of the count machine, with its request |
| SecSocket.Socket.Begin | libraries/WiFi/src/SecSocket.cpp:22-48 | the count step, and protocol, status, error and handle in each of the four outcomes |
| SecSocket.Socket.End | libraries/WiFi/src/SecSocket.cpp:50-60 | the count step with its request to the stack, and which of the three answers becomes the error |
| SecSocket.Socket.Accept | libraries/WiFi/src/SecSocket.cpp:160-183 | the count step; the accepted socket is connected and has the peer's address and the listener's port and protocol, and is untouched if accepting fails |
| SecSocket.Socket.ReceiveCallback | libraries/WiFi/src/SecSocket.cpp:287-312 | takes exactly what the stack has and the buffer has room for, nothing without a protocol or after an error, and appends exactly that; status and error in all cases |
| SecSocket.Socket.Receive | libraries/WiFi/src/SecSocket.cpp:229-237 | copies out the oldest bytes and removes exactly them |
| SecSocket.Socket.Flush | libraries/WiFi/src/SecSocket.cpp:239-241 | nothing is left in the buffer |
| SecSocket.ReplayTcp | libraries/WiFi/src/SecSocket.cpp:217-312 | in every run without flush, bytes read followed by bytes buffered are all bytes the stack handed over, and at most 4096 are buffered |
| SecSocket.ReplaySends | libraries/WiFi/src/SecSocket.cpp:185-215 | in every run of sends the results passed on account for the stream, which by the contract of the stack is the first bytes of each piece, as many as it reports; the status tells whether any send failed |
| ClientList.ListIsOpenClients | libraries/WiFi/src/WiFiServer.cpp:109-161 | for callbacks in any order the list is exactly the accepted and not disconnected clients, in order of acceptance, if no handle is handed out while it is listed |
| ClientList.NoDuplicates | libraries/WiFi/src/WiFiServer.cpp:109-161 | no client is listed twice, also if handles are reused after a disconnect |
| ClientList.AfterDisconnect | libraries/WiFi/src/WiFiServer.cpp:151-158 | removing the first entry with a handle removes exactly the client that went away |
| ClientList.EndStopsEveryOther | libraries/WiFi/src/WiFiServer.cpp:88-92 | the loop stops the clients at even positions and leaves those at odd positions, in order |
| ClientList.StoppedOrLeft | libraries/WiFi/src/WiFiServer.cpp:88-92 | for lists of any length, every client is stopped or left, and none is both |
| ClientList.HalfAreLeftIff | libraries/WiFi/src/WiFiServer.cpp:88-92 | half are left if and only if the 16-bit index does not wrap |
| ClientList.AllAreStoppedIff | libraries/WiFi/src/WiFiServer.cpp:88-92 | all clients are stopped if and only if there is at most one |
| ClientList.LeastWrittenIsLeast | libraries/WiFi/src/WiFiServer.cpp:58-82 | the result is the least of the clients' counts, each cut to 16 bits |
| ClientList.ResultTellsAllSentIff | libraries/WiFi/src/WiFiServer.cpp:58-82 | the documented check for complete delivery is right for every outcome if and only if there is a client and the size is below 65536, or there is none and the size is 4294967295 |
| ClientList.FoundIff | libraries/WiFi/src/WiFiServer.cpp:35-52 | a ready client is found if and only if one stands at the cursor or behind it |
| ClientList.NextCallDiffersIff | libraries/WiFi/src/WiFiServer.cpp:27-52 | over two calls, between which clients come, go and gain or lose data in any way: where the last client then stands, and exactly when it is returned again and when another one is; it is skipped if a client in front of it left and the list is still long enough |
| ClientList.LeavingClientHidesNext | libraries/WiFi/src/WiFiServer.cpp:35-42 | the input on which a ready client is skipped: of three ready clients the middle one was returned last and the first one leaves |
| ClientList.CallsRepeat | libraries/WiFi/src/WiFiServer.cpp:27-52 | while no client changes, every call returns what the first one did |
| ClientList.SecondClientIsNotReached | libraries/WiFi/src/WiFiServer.cpp:27-33 | the input on which the documentation fails: two clients with data, of which however many calls return only the first |
| ClientList.ClientBeforeCursorStarves | libraries/WiFi/src/WiFiServer.cpp:35-52 | a client with data in front of the cursor is not found by however many calls, and the cursor does not move |
| WiFiServer.WiFiServerClass.ConnectionCallback | libraries/WiFi/src/WiFiServer.cpp:109-125 | appends the accepted client, connected, with its handle, address, port and protocol and an empty buffer, and leaves the list alone if accepting fails; the count step, the result, and the status and error of the server's socket |
| WiFiServer.WiFiServerClass.ReceiveCallback | libraries/WiFi/src/WiFiServer.cpp:127-142 | the first client with the handle receives exactly what arrived and fits; no other client changes |
| WiFiServer.WiFiServerClass.DisconnectionCallback | libraries/WiFi/src/WiFiServer.cpp:144-161 | erases the first client with the handle, even if stopping it fails, whenever the search over its 16-bit index ends |
| WiFiServer.WiFiServerClass.StopClients | libraries/WiFi/src/WiFiServer.cpp:88-92 | which clients the loop stops and which it leaves, connected as before; the socket count makes one end step for each stopped client, in order |
| WiFiServer.WiFiServerClass.End | libraries/WiFi/src/WiFiServer.cpp:87-95 | the whole of `end`: the loop, and then the end step of the server's own socket |
| WiFiServer.SkippedClientsKeepStackUp | libraries/WiFi/src/WiFiServer.cpp:87-95 | after `end` with two or more live clients the count is at least the number of skipped ones, which is positive, and the stack is up |
| WiFiServer.WiFiServerClass.Available | libraries/WiFi/src/WiFiServer.cpp:27-52 | returns the first client from the cursor on that is connected and has bytes in its buffer, where the cursor then stays; none only if there is none from there on, and then the cursor stays at its place modulo the number of clients |
| WiFiServer.WiFiServerClass.Write | libraries/WiFi/src/WiFiServer.cpp:58-82 | sends every client what the stack will take of the data, with its status and error, and returns the least count, each cut to 16 bits |
| WiFiServer.WriteAndCheck | libraries/WiFi/src/WiFiServer.cpp:66-78 | with a client and fewer than 65536 bytes, comparing the result with the size tells whether every client was sent all of the data |
| ServerRuns.ListStaysCleanIff | libraries/WiFi/src/WiFiServer.cpp:109-161 | for every run of callbacks, reads and stops by the sketch, and calls of other sockets, that the socket library allows: the list stays free of duplicates in every continuation in which clients go only by disconnecting, if and only if it has none and no listed client was stopped since it was accepted |
| ServerRuns.UndisturbedRunsHaveFreshHandles | libraries/WiFi/src/WiFiServer.cpp:109-161 | in every run in which clients go only by disconnecting, no listed handle is handed out again |
| ServerRuns.ServerListIsOpenClients | libraries/WiFi/src/WiFiServer.cpp:109-161 | in every such run the list is the accepted and not disconnected clients, in order and without duplicates, and each has its socket |
| ServerRuns.StoppedClientIsListedTwice | libraries/WiFi/src/WiFiClient.cpp:75-77 | the run of three events after which a handle is listed twice: accept, stop by the sketch, accept |
| ServerRuns.EachClientGetsItsOwn | libraries/WiFi/src/WiFiServer.cpp:127-142 | as long as no listed handle is handed out again, each listed client's buffer sees exactly the data that arrived for its handle since it was accepted, and the reads from it, in order |
| ServerRuns.NewClientStarves | libraries/WiFi/src/WiFiServer.cpp:134-139 | after a stop and reuse of the handle, all arrivals go to the stopped client and none to the new one, however many there are |
| ServerReplay.Replay | libraries/WiFi/src/WiFiServer.cpp:109-161 | any run of events, of any length, brings the server object to the specified list and client buffers, and makes exactly the specified calls on the socket library |
| ServerReplay.EachClientHasItsBytes | libraries/WiFi/src/WiFiServer.cpp:127-142 | so in every run in which clients go only by disconnecting, what the sketch read from a listed client followed by its buffer is exactly what arrived for it since its accept and fitted |
| ServerReplay.StarvedClient | libraries/WiFi/src/WiFiServer.cpp:134-139 | the starved client: its buffer stays empty whatever arrives for its handle |
| WiFiUdp.WiFiUdpClass.Write | libraries/WiFi/src/WiFiUdp.cpp:92-105 | keeps the prefix that fits and returns its length |
| WiFiUdp.WiFiUdpClass.BeginPacket | libraries/WiFi/src/WiFiUdp.cpp:57-62 | a new packet starts empty and goes to the given address |
| WiFiUdp.WiFiUdpClass.EndPacket | libraries/WiFi/src/WiFiUdp.cpp:75-86 | empties the buffer, hands its bytes to the stack in order, and returns 1 if and only if the stack took all of them; what it took otherwise, and status and error |
| WiFiUdp.WiFiUdpClass.ReceiveCallback | libraries/WiFi/src/WiFiUdp.cpp:166-183 | queues one packet with the first 256 bytes and the sender, or an empty one on failure, and leaves the socket buffer empty |
| WiFiUdp.WiFiUdpClass.ParsePacket | libraries/WiFi/src/WiFiUdp.cpp:107-118 | makes the oldest packet the current one, dropping what was left of the last |
| WiFiUdp.WiFiUdpClass.Read | libraries/WiFi/src/WiFiUdp.cpp:133-145 | copies out the oldest bytes of the current packet and removes exactly them, touches nothing behind them in the caller's array, and returns -1 if there are none |
| WiFiUdp.WiFiUdpClass.ReadByte | libraries/WiFi/src/WiFiUdp.cpp:124-131 | the oldest byte of the current packet, removed from it, or -1 |
| WiFiUdp.ReplayTx | libraries/WiFi/src/WiFiUdp.cpp:57-105 | in any run the datagrams sent are, for each endPacket, the first 256 bytes offered since the packet was begun |
| WiFiUdp.ReplayRx | libraries/WiFi/src/WiFiUdp.cpp:107-183 | in any run the k-th packet parsed is the k-th that arrived; of it the sketch got exactly the first bytes, as many as it asked for while it was current; the current packet is the exact rest of the last one with its sender if the last parse found one, and empty otherwise; the others wait in order |
| WiFiUdp.SentFits | libraries/WiFi/src/WiFiUdp.cpp:75-104 | no datagram sent is longer than a received packet can hold |
| WiFiUdp.EndToEnd | libraries/WiFi/src/WiFiUdp.cpp:57-183 | between two sketches, with any failures: the bytes read of the p-th packet are the first bytes of the p-th datagram that arrived, as many as were asked for and all if enough were; such a datagram is one that was sent, and a failed receive gives no bytes |
| WiFiUdp.WholeIff | libraries/WiFi/src/WiFiUdp.cpp:177-181 | a packet holds its whole datagram if and only if that has at most 256 bytes |
| Itoa.GenerateDigits | cores/psoc6/itoa.c:54-62 | between one and 32 digits go into the scratch array, which read backwards are the text of the value |
| Itoa.CopyReversed | cores/psoc6/itoa.c:69-72 | the digits arrive in reading order, ended by a zero, and nothing else is touched |
| Itoa.Ltoa | cores/psoc6/itoa.c:31-75 | writes the text of the value, or returns null for a null string or a bad radix without writing |
| Itoa.Ultoa | cores/psoc6/itoa.c:81-115 | the same for unsigned values |
| Itoa.DigitBound | cores/psoc6/itoa.c:54-61 | a value of w bits has at least one and at most w digits in every radix |
| Itoa.ParseOfText | cores/psoc6/itoa.c:54-72 | an independent reader recovers every value |
| Itoa.TextIsCanonical | cores/psoc6/itoa.c:54-61 | digits of the radix only, and no leading zero |
| Itoa.TextOfParse | cores/psoc6/itoa.c:54-72 | every canonical text is the print of the value it reads as |
| Itoa.DigitsInOrder | cores/psoc6/itoa.c:57-60 | digit d of any radix is the d-th of 0 to 9 and a to z |
| Itoa.LtoaRoundTrip | cores/psoc6/itoa.c:47-74 | reading back gives the value in radix 10 and its residue modulo 2^32 in others, for every 32-bit value |
| Itoa.LtoaInjective | cores/psoc6/itoa.c:47-74 | different values print differently in the same radix |
| Itoa.LtoaFits | cores/psoc6/itoa.c:32-72 | the text has at most 33 characters, and at most 32 without a sign |
| Wire.TwoWire.OnReceiveService | libraries/Wire/src/Wire.cpp:187-201 | stores the prefix of the message that half of the free space allows, and terminates with its 8-bit index |
| Wire.RoundsAreHalf | libraries/Wire/src/Wire.cpp:195-201 | comparing a growing index with shrinking space stops at half of the space, rounded up |
| Wire.KeptWholeIff | libraries/Wire/src/Wire.cpp:189-206 | a message is kept whole if and only if it fills at most half of the free space, rounded up; 128 bytes into an empty buffer |
| Wire.TwoWire.OnRequestService | libraries/Wire/src/Wire.cpp:213-229 | moves the oldest queued bytes, as many as the master takes, to the transmit array |
| Wire.TwoWire.BeginTransmission | libraries/Wire/src/Wire.cpp:80-83 | a new transmission starts empty and goes to the given address |
| Wire.TwoWire.EndTransmission | libraries/Wire/src/Wire.cpp:85-107 | sends exactly the queued bytes, empties the queue, and translates the answer |
| Wire.TwoWire.Write | libraries/Wire/src/Wire.cpp:133-140 | queues the byte if there is room and returns how many were queued |
| Wire.TwoWire.RequestFrom | libraries/Wire/src/Wire.cpp:113-127 | stores what fits of the bytes read and returns how many were read, which is the number stored if and only if the read failed or all of them fitted |
| PwmMap.RunIsWf | cores/psoc6/analog_io.c:151-177 | the pins of the used slots are distinct and never more than the slots |
| PwmMap.SlotsGoToFirstUses | cores/psoc6/analog_io.c:151-177 | slots go to the first valid pins used, in that order; a pin never moves and is refused only by a full table |
| PwmMap.OnceRefusedAlwaysRefused | cores/psoc6/analog_io.c:163-176 | a pin whose frequency was set but that has no slot found a table that was full and stays full |
| PwmMap.FrequencyKept | cores/psoc6/analog_io.c:204-225 | the frequency kept for a pin is the one last set for it, also before its first write, where 0 and none stand for the default on both sides |
| PwmMap.DrivenAsKept | cores/psoc6/analog_io.c:179-234 | in every run the duty cycle and frequency in the last order to the hardware for a pin are those kept for it, and there is such an order if and only if its channel is set up |
| PwmMap.DrivenAsWritten | cores/psoc6/analog_io.c:192-230 | in every run a driven pin has the duty cycle of the last write to it, also after its frequency was set: in proportion to the value within the resolution, 0 below and 100 percent above |
| PwmMap.SetUpAndStartIff | cores/psoc6/analog_io.c:186-215 | a channel is set up first in a write to a pin whose channel is not set up, and in no other call; and started last in a write whose duty cycle the hardware took, and in no other call |
| PwmMap.DrivenAsSetIff | cores/psoc6/analog_io.c:204-230 | in every run a driven pin is driven at the frequency last set or the default, except if and only if the last call for it set 0 with the channel set up; then it is driven at 0 Hz |
| PwmMap.ZeroReachesTheHardware | cores/psoc6/analog_io.c:224-230 | the run of two calls that drives a pin at 0 Hz |
| AnalogIo.Pwm.Alloc | cores/psoc6/analog_io.c:151-177 | the slot of the pin, an empty new one after all used ones, or none for a bad pin or a full table |
| AnalogIo.Pwm.AnalogWrite | cores/psoc6/analog_io.c:179-215 | the new table and the exact orders to the hardware, for every failure; the duty cycle ordered is that of the value |
| AnalogIo.Pwm.SetAnalogWriteFrequency | cores/psoc6/analog_io.c:217-234 | the new table, and an order to the hardware only if the channel is set up |
| AnalogIo.Replay | cores/psoc6/analog_io.c:151-234 | any run of calls, with any answers of the hardware, brings the slot array to the specified table and gives the hardware exactly the specified orders |
| AnalogIo.Adc.Select | cores/psoc6/analog_io.c:104-121 | the channel of the pin, appended if new; used channels stay a prefix with distinct pins, also when setting one up fails |
| Uart.Write | cores/psoc6/Uart.cpp:123-147 | ends if the clock advances and is looked at at least every 71 minutes; in each round the hardware gets as many bytes as it takes, has room for, and are left, whichever is least, and no round but the last sends all, fails, or is after the timeout; the hardware has the bytes of all rounds in order, and the result leaves out those of a last round that failed |
| Uart.AllIsSent | cores/psoc6/Uart.cpp:131-146 | a write of any length is sent whole, and the result says so, if the hardware never fails and takes at least w > 0 bytes in each round, and the time is not up before as many rounds as that needs |
| Uart.CountMissesFailedBytes | cores/psoc6/Uart.cpp:137-146 | the input on which the count is wrong: of ten bytes the hardware takes four and fails, and the result is 0 |
| Uart.UartClass.IrqHandler | cores/psoc6/Uart.cpp:162-171 | all pending bytes are taken and those that fit are queued in order |
| Uart.UartClass.Read | cores/psoc6/Uart.cpp:112-117 | the oldest byte, removed from the queue, or -1 |
| Clock.MillisIsQuotient | cores/psoc6/time.c:31-31 | dividing as a real number and dropping the fraction is integer division |
| Clock.DelayMicroseconds | cores/psoc6/time.c:91-97 | returns at the first poll that passes the exit test, and otherwise goes on waiting |
| Clock.Delay | cores/psoc6/time.c:83-89 | returns at the first poll that passes the exit test, and otherwise goes on waiting |
| Clock.MicrosNeverEarly | cores/psoc6/time.c:91-97 | at least the requested ticks have truly passed, from any phase of the counter |
| Clock.MicrosEnds | cores/psoc6/time.c:91-97 | if polls are at most g apart and us + g fits in 32 bits, some poll ends the wait within us + g ticks |
| Clock.MicrosOnTime | cores/psoc6/time.c:91-97 | so the first poll that ends the wait comes within us + g ticks |
| Clock.DelayNeverEarlyIff | cores/psoc6/time.c:83-89 | at least 1000 ms - 999 microseconds pass, for every way of polling, if and only if they fit before the wrap or the counter is in its first millisecond |
| Clock.EndsTooEarly | cores/psoc6/time.c:83-89 | when the counter is about to wrap, a moment at which a poll ends the wait too early |
| Clock.WrapEndsDelay | cores/psoc6/time.c:83-89 | after a wrap the first poll reading below the start ends the wait, for requests up to 4290672329 ms |
| Clock.MillisWindow | cores/psoc6/time.c:83-89 | a poll between 1000 ms and 2^32 - 1000 ticks after the start ends the wait, from any phase of the counter |
| Clock.DelayOnTime | cores/psoc6/time.c:83-89 | if polls are at most g apart and 1000 ms + g is at most 2^32 - 1000, some poll ends the wait within 1000 ms + g ticks |
| Clock.LongDelayEnds | cores/psoc6/time.c:83-89 | a request of up to 4290672329 ms ends after the wrap if polls are not further apart than the counter was from zero at the start, in whole milliseconds |
| Clock.DelayReturnsIff | cores/psoc6/time.c:83-89 | with a poll at every tick the wait ends if and only if the counter is past its first millisecond or the request is at most 4294967 ms; otherwise it never ends, for any polling |

## Left out

- Weak memory and compiler effects in the PDM ring: the interleaving is sequentially consistent.
- `setBufferSize` after `begin`, which its header forbids, and a DMA completion while `begin` is still running.
- The user callbacks: a read inside one is a read after the interrupt in the runs of the model.
- Data races of the socket callbacks with the sketch: each callback and each call is one step.
- `WiFiServer::available` on an empty list, which divides by zero: the list must not be empty.
- WiFiServer.WiFiServerClass.DisconnectionCallback: assumes that the search ends, which on lists of 65536 or more clients without the handle among the first 65536 it does not, because its 16-bit index wraps.
- WiFiServer.WiFiServerClass.Available: assumes fewer than 65536 clients, so that its 16-bit index does not wrap; the loop of `end` is modelled with its 16-bit index, for any length.
- ServerReplay.Replay: the same assumption on the searches of its disconnections; its runs do not go on after `WiFiServer::end`.
- UDP multicast, host name lookup and `flush` in the middle of a packet; the connect, bind and listen wrappers of the socket.
- WiFi.cpp, SPI, Shift, Random, interrupts, digital I/O, Tone and Pulse: forwarding to the hardware layer or straight-line code.
- The bit shift of `map_adc_value`, and rounding of the floating-point duty cycle and frequency: the model computes with real and natural numbers.
- Uart setup, `flush`, and the slave and master setup of I2C: calls of the hardware layer.
- Encoding errors and file system failures of the formatter; what a failed run had already written is modelled, the truncated file is not.
- `uncrustify`, `black` and the command line of the formatter.
