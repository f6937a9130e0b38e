# suholib, verified in Dafny

suholib is a C++ server library: byte buffers, length-prefixed packets, an IOCP connection class, a
manual-reset event, a lock-based atomic shared pointer, date formats and an auto-connector. This
project models those parts as Dafny and proves what they promise. `dafny verify dfyconfig.toml`
checks all of it.

## What is modelled

| file | models |
|---|---|
| `Options.dfy`, `Runs.dfy`, `Bytes.dfy`, `Memory.dfy` | optional values, runs of step machines, bytes, 32-bit little-endian integers, `memcpy`, `memmove`, `memset` |
| `Buffer.dfy` | `Buffer`, a growable block with a fill mark |
| `Fifo.dfy` | the plain bounded queue that both stream buffers are measured against, and one that never reuses space |
| `RingBuffer.dfy`, `StreamBuffer.dfy`, `Lockstep.dfy` | the circular and the compacting queue, each over its block, and the two side by side |
| `Draining.dfy` | cutting a byte stream into packets as it arrives, for any boundary rule |
| `Framing.dfy` | the packet wire format and `HeaderParsing` |
| `MyPacket.dfy`, `WireRoundTrip.dfy` | the packet whose header lives inside its own buffer; writing, sending, receiving, reading |
| `NetUnit.dfy`, `TimeServer.dfy`, `EndToEnd.dfy` | the receive loop over a bounded buffer, alone and with senders |
| `ReplaceString.dfy` | in-place search and replace |
| `Decimal.dfy`, `DateFormat.dfy` | `%0wd`, `atoi`, string order; the six date formats |
| `EventSync.dfy`, `EventSyncCalls.dfy`, `ForgottenSleeper.dfy` | a step machine for the event, what its calls do and that they end, and the waiters a `Set` does not reach |
| `AtomicSharedPtr.dfy`, `AtomicCall.dfy`, `CompareExchange.dfy`, `AtomicCopy.dfy` | a step machine for the atomic pointer, what its calls do and that they end, its compare-exchange against the standard's, and copies between cells |
| `AutoConnector.dfy` | the polling loop that retries connections |

Buffers, packets, connections and connect units are classes over arrays with the fields of the
original; each method's contract gives the whole new state or ties it to a function whose properties
are proved beside it. The two concurrent classes are state machines in which one step is one
statement of one thread and every interleaving is a run.

## Main results

- Receiving does not depend on how the bytes are cut: for every byte stream and every chunking, the
  packets found and the bytes left over are those of the uncut stream. This holds exactly for the
  boundary rules whose answer does not change when more bytes arrive, and `HeaderParsing` is one.
- The packet code is prefix-free and uniquely decodable, and a receiver whose buffer holds every
  single packet never runs out of space: from `Write` on one side to `PacketProcessing` on the
  other, every packet arrives, in order, unless a look finds the receiver closed: it drops the
  connection at the first one that does, having processed exactly what it had reached, and at no
  other time. Over arbitrary bytes a receiver runs out of space exactly when at some packet boundary
  the header announces size 0 or more than the buffer holds, and more bytes follow than it holds.
- A ring buffer and a stream buffer that compacts after each operation give the same answers over
  every sequence of operations, namely those of a plain queue: what was read, then what either still
  holds, is what the accepted writes put in. Without compaction the answers stay the same exactly
  when every accepted write would fit behind all that was accepted since the last `Clear`. The
  ring's cursor sums fit in an `int`, whatever is written, read, cleared and resized, exactly up to
  capacity 2^30.
- `ReplaceString` is splitting at the leftmost occurrences and joining with the replacement. It
  makes as many replacements as there can be disjoint occurrences, and can be undone through a
  character exactly when that character is not among those it left in place.
- Every run of `atomic_shared_ptr` is linearizable in the order of locking, and every call returns,
  whatever the schedule, once nobody makes new ones.
- So do the calls of an `EventSync`, except for waiters that sleep; on a signalled event that nobody
  resets, every `Wait` that is not asleep returns. As long as nobody calls `Reset`, each `Set` of an
  `EventSync` wakes one sleeper, from any state.
- Every date format reads back what it printed exactly when the numbers fit their fields, except
  one.

Five results show the code falling short of what its names or tests suggest, with the exact condition
each time:

- `YYYY-MM-DD HH:MI:SS` wants 20 characters or more but prints 19 (Base/include/BasicFormat.h:53
  against 69), so it does not read its own output, nor the 19-character string that
  TestProject/time_test.cpp passes to it.
- `StreamBuffer`'s copy assignment leaves the fill mark at 0, so a copy of a copy shows zeros.
- With `notify_one`, `EventSync` can leave a thread asleep on a signalled event exactly when two
  threads may wait and there is a third.
- `compare_exchange_strong` compares addresses only, and writes `expected` on success as well as on
  failure. The linearized history of a run is also one of the Concurrency TS's pointers exactly
  when, in every finished call that found the expected address there, the owner too was the expected
  one, and so was the pointer to put there.
- Copying one `atomic_shared_ptr` to another is a load, then a store. The store can bring a value
  its source no longer holds exactly when there are two or more cells, some thread copies, and
  another thread changes cells, by copying or otherwise.

## Assumptions

- Readable and writable sizes: a ring has `_data_size` bytes to read and capacity - `_data_size` to
  write; a stream buffer has `_write_pos` - `_read_pos` to read and capacity - `_write_pos` to
  write.
- A packet has a buffer of 1024 bytes and a header of 8: two little-endian `int`s, payload length
  and protocol id.
- The receive loop is that of `NetUnit::Recieved` (WinNet/src/NetUnit.cpp): move the write position
  past the new bytes; as long as bytes are pending and the unit is active, ask `HeaderParsing` for
  the packet at the read position, stop on 0, otherwise process it and move the read position past
  it; then compact with `CarriageReturn`. The unit asks whether it is still active before each look
  for a packet, after each packet, before compaction and before the next read. It may be closed at
  any time, once and for all. A new read is offered the writable space; with no space left it is a
  read of length 0, and its completion with 0 bytes makes the worker thread
  (WinNet/src/WorkerThread.cpp) disconnect. The receive buffer has its default size of 1024 bytes,
  because `Init` creates it before `OnInit` asks for another.
- Integers are unbounded except where the code stores or wraps them: header fields and the announced
  packet size are 32-bit, with wrap-around.
- A null block is a block of length 0. Sizes passed to buffers are not negative, and destinations
  are large enough for what is copied into them.
- `atoi` and `%0wd` are modelled for all integers; a text of 32 characters or more does not fit the
  formats' `char[32]`.
- Clock values are whole nanoseconds and may be any integers unless a lemma says otherwise.

## Model

| member | source | states |
|---|---|---|
| Bytes.IntRoundTrip | TestProject/MyPacket.cpp:26-27 | an `int` stored in header bytes is read back unchanged |
| Bytes.BytesRoundTrip | TestProject/MyPacket.cpp:26-27 | any four header bytes read as an `int` and stored again are unchanged |
| Bytes.LowByteFirst | TestProject/MyPacket.cpp:26-27 | the first byte of a stored `int` is its value modulo 256, and the next three are the first three of what is left after dividing by 256 |
| Bytes.LeftInTheEnd | TestProject/MyPacket.cpp:26-27 | 0 is stored as four zero bytes and -1 as four bytes of 255 |
| Bytes.TwoByteNumber | TestProject/MyPacket.cpp:14-15 | a number below 2^16 is stored as its remainder by 256, its quotient, 0 and 0 |
| Bytes.MeaningOfBytes | TestProject/TimeServer.cpp:39-41 | four bytes mean a + 256·(b + 256·(c + 256·d)), the last one signed |
| Buffers.Buffer.Copy | Base/src/Buffer.cpp:16-22 | the copy holds the filled bytes, then zeros, under a fill mark of 0: `Create` resets what was copied first |
| Buffers.Buffer.Move | Base/src/Buffer.cpp:24-30 | the new buffer has the very block, capacity and fill mark; the old one is empty |
| Buffers.Buffer.AssignFrom | Base/src/Buffer.cpp:37-46 | copy and swap: as copy construction, and nothing at all on self-assignment |
| Buffers.Buffer.MoveFrom | Base/src/Buffer.cpp:48-62 | takes block and marks, empties the source; nothing on self-assignment |
| Buffers.Buffer.Create | Base/src/Buffer.cpp:64-71 | a fresh block of zeros with fill mark 0 |
| Buffers.Buffer.Free | Base/src/Buffer.cpp:123-133 | no block, capacity 0, fill mark 0 |
| Buffers.Buffer.Assign | Base/src/Buffer.cpp:73-81 | the filled bytes are exactly the input; growing drops the old bytes, otherwise those behind stay; empty input changes nothing |
| Buffers.Buffer.Append | Base/src/Buffer.cpp:83-91 | the filled bytes are the old ones, then the input, whether or not the block had to move |
| Buffers.Buffer.AppendBuffer | Base/include/Buffer.h:24 | the filled bytes are the old ones, then the other buffer's filled bytes, also for a buffer appended to itself |
| Buffers.Buffer.ReSize | Base/src/Buffer.cpp:93-108 | never shrinks; growing keeps the filled bytes if asked, zeros the rest, and never moves the fill mark |
| Buffers.Buffer.Clear | Base/src/Buffer.cpp:110-114 | only the bytes below the fill mark are wiped |
| Buffers.ClearWipesAll | Base/src/Buffer.cpp:110-114 | wiping the filled bytes leaves an all-zero block exactly when the rest was zero |
| Buffers.Buffer.Swap | Base/src/Buffer.cpp:135-140 | the two buffers exchange block, capacity and fill mark |
| Fifo.Conservation | Base/src/RingBuffer.cpp:5-96 | over every run of the plain queue, accepted writes since the last clear = bytes read since then + bytes still queued |
| Fifo.ReuseUnseenExactlyWhen | Base/src/StreamBuffer.cpp:60-110 | a queue that never reuses space answers as one that does if and only if each write the latter accepts fits behind all it accepted since the last clear |
| RingBuffers.WindowPieces | Base/src/RingBuffer.cpp:26-45 | the one-piece and the two-piece copy are both the modular view of the ring |
| RingBuffers.WindowDrop | Base/src/RingBuffer.cpp:50-61 | advancing the head around the ring drops exactly the oldest bytes |
| RingBuffers.WindowPut | Base/src/RingBuffer.cpp:70-93 | laying bytes behind the tail, wrapped or not, appends them to the modular view |
| RingBuffers.RingBuffer.Peek | Base/src/RingBuffer.cpp:19-48 | succeeds exactly when the bytes are there; copies the oldest ones out, touches nothing behind them and nothing in the ring |
| RingBuffers.RingBuffer.Read | Base/src/RingBuffer.cpp:50-61 | takes the oldest bytes out of the queue, or changes nothing |
| RingBuffers.RingBuffer.Write | Base/src/RingBuffer.cpp:63-96 | appends to the queue exactly when all of it fits, in full, empty and wrapped states alike, and otherwise changes nothing |
| RingBuffers.RingBuffer.CopyIn | Base/src/RingBuffer.cpp:70-89 | the three copying branches all lay the bytes around the ring from the tail on and change no other byte |
| RingBuffers.RingBuffer.Clear | Base/src/RingBuffer.cpp:5-11 | the queue is empty and the cursors are at 0 |
| RingBuffers.RingBuffer.Resize | Base/src/RingBuffer.cpp:13-17 | the queue is empty; the capacity never shrinks |
| RingBuffers.NoOverflowExactlyUpTo | Base/src/RingBuffer.cpp:54-92 | of a ring given no capacity above `most`, no run of reads, writes, clears and resizes overflows `_head + size` or `_tail + size` if and only if `most` is at most 2^30 |
| StreamBuffers.CopyKeepsExactly | Base/src/StreamBuffer.cpp:14-43 | a copied block shows the same waiting bytes exactly when those past the fill mark are zero |
| StreamBuffers.StreamBuffer.Copy | Base/src/StreamBuffer.cpp:14-20 | cursors and fill mark are kept; the waiting bytes are kept exactly when those past the fill mark are zero |
| StreamBuffers.StreamBuffer.Move | Base/src/StreamBuffer.cpp:22-27 | block, cursors, fill mark and waiting bytes move; the source is empty |
| StreamBuffers.StreamBuffer.AssignFrom | Base/src/StreamBuffer.cpp:33-43 | as copy construction, but the fill mark becomes 0; self-assignment changes nothing |
| StreamBuffers.StreamBuffer.MoveFrom | Base/src/StreamBuffer.cpp:45-58 | block, cursors, fill mark and waiting bytes move; self-assignment changes nothing |
| StreamBuffers.StreamBuffer.Clear | Base/src/StreamBuffer.cpp:60-65 | cursors and fill mark at 0, filled bytes wiped |
| StreamBuffers.StreamBuffer.Resize | Base/src/StreamBuffer.cpp:67-72 | empty queue; the capacity never shrinks |
| StreamBuffers.StreamBuffer.Peek | Base/src/StreamBuffer.cpp:74-84 | succeeds exactly when the bytes are there; copies the oldest ones out and touches nothing else |
| StreamBuffers.StreamBuffer.Read | Base/src/StreamBuffer.cpp:86-96 | takes the oldest bytes out, or changes nothing |
| StreamBuffers.StreamBuffer.Write | Base/src/StreamBuffer.cpp:98-110 | appends exactly when there is room behind the write position, changing no byte before it; otherwise changes nothing |
| StreamBuffers.StreamBuffer.CarriageReturn | Base/src/StreamBuffer.cpp:112-128 | the waiting bytes survive the overlapping move; writable space grows by exactly the old read position |
| StreamBuffers.StreamBuffer.ShiftReadPos | Base/src/StreamBuffer.cpp:130-133 | skips that many waiting bytes |
| StreamBuffers.StreamBuffer.ShiftWritePos | Base/src/StreamBuffer.cpp:135-139 | write position and fill mark move together |
| StreamBuffers.CopiesOfCopies | Base/src/StreamBuffer.cpp:14-43 | copy construction and one copy assignment show the written bytes; a second assignment shows only zeros |
| Lockstep.ApplyToRing | Base/src/RingBuffer.cpp:5-96 | each operation on a ring is one step of the plain queue, state and answer |
| Lockstep.ApplyUncompacted | Base/src/StreamBuffer.cpp:60-110 | each operation on a stream buffer is one step of the queue that never moves its bytes: contents, write position and answer |
| Lockstep.ApplyToStream | Base/src/StreamBuffer.cpp:60-128 | each operation followed by `CarriageReturn` is one step of the plain queue, state and answer |
| Lockstep.RunBoth | Base/src/RingBuffer.cpp:5-96 | over every operation sequence both buffers give the same answers, those of the plain queue, and hold the same bytes in the end; accepted writes = bytes read + the ring's contents |
| Lockstep.RunUncompacted | Base/src/StreamBuffer.cpp:60-110 | over every operation sequence without `CarriageReturn`, the exact answers and contents; they are the ring's if and only if every write the ring accepts would fit without reusing space |
| Lockstep.SpentSpace | Base/src/StreamBuffer.cpp:98-110 | the smallest instance: filled, and one byte read out since, the ring accepts a byte and the stream buffer refuses it, at every capacity |
| Draining.DrainConserves | TestProject/TimeServer.cpp:33-43 | the packets found, then the bytes left, are the stream |
| Draining.DrainInTwo | TestProject/TimeServer.cpp:33-43 | draining what has arrived, then the rest with what comes next, is draining it all at once |
| Draining.ChunkIndependence | TestProject/TimeServer.cpp:33-43 | for every stream and every chunking, packets and leftover are those of the uncut stream |
| Draining.ChunkingIrrelevantExactlyWhenStable | TestProject/TimeServer.cpp:33-43 | chunking is irrelevant if and only if a boundary, once announced, never changes as bytes arrive |
| Draining.FillsExactlyWhen | TestProject/TimeServer.cpp:33-43 | for every stable rule and every stream, what waits reaches the capacity if and only if at some boundary that many bytes hold no whole packet and more follow |
| Framing.FindsPacket | TestProject/TimeServer.cpp:33-43 | a packet followed by anything is found at exactly its size |
| Framing.WireBytes | TestProject/MyPacket.cpp:10-28 | a packet's bytes are the length with the low byte first, the protocol id likewise, then the payload |
| Framing.AnswerToHeader | TestProject/TimeServer.cpp:33-43 | what `HeaderParsing` answers for every four first bytes, given as their place values: 8 plus the length if that many bytes are there, otherwise 0, with the unsigned sum wrapping round |
| Framing.WaitsForWhole | TestProject/TimeServer.cpp:33-43 | every strict prefix of a packet means wait |
| Framing.PrefixFree | TestProject/MyPacket.cpp:10-28 | one packet's bytes begin another's only if they are the same packet |
| Framing.IsWireExactlyWhen | TestProject/TimeServer.cpp:33-43 | bytes are some packet's wire format exactly when the header's length is the length behind it |
| Framing.HeaderParsingIsStable | TestProject/TimeServer.cpp:33-43 | on every byte stream the announced boundary lies within the bytes and does not move |
| Framing.DrainFindsAll | TestProject/TimeServer.cpp:33-43 | whole packets followed by an unfinished one drain to exactly those packets |
| Framing.FramingIsChunkIndependent | TestProject/TimeServer.cpp:33-43 | however the bytes of a packet list are cut, exactly those packets come back, in order, with nothing left |
| Framing.UniquelyDecodable | TestProject/MyPacket.cpp:10-28 | equal byte streams come from equal packet lists |
| Framing.PendingIsPartial | TestProject/TimeServer.cpp:33-43 | what waits after draining is less than the largest packet |
| Framing.FillsExactlyAtBadHeader | TestProject/TimeServer.cpp:33-43 | over every byte stream, the receiver fills up if and only if at some packet boundary the header announces size 0 or more than the capacity (or the capacity holds no header) and more bytes follow than it holds |
| MyPackets.HeldBytesAreWire | TestProject/MyPacket.cpp:19-28 | the stored bytes of a well-formed packet are its wire format |
| MyPackets.HeldLengthBytes | TestProject/MyPacket.cpp:10-17 | a well-formed packet's first four bytes are its payload length, low byte first |
| MyPackets.AppendKeepsPacket | TestProject/MyPacket.cpp:10-17 | appending payload and raising the stored length keeps header, payload and zero tail in step |
| MyPackets.MyPacket.FromBytes | TestProject/TimeServer.cpp:45-47 | the packet is well formed exactly when the bytes are one whole packet that fits, and then it is that packet |
| MyPackets.MyPacket.Init | TestProject/MyPacket.cpp:19-28 | only filled bytes are wiped; the block is all zero, so the stored length reads 0, exactly when the tail was |
| MyPackets.MyPacket.Set | TestProject/MyPacket.cpp:3-8 | well formed exactly when the stored length tells the truth about a size that fits; bytes that do not fit leave it empty |
| MyPackets.MyPacket.SetProtocol | TestProject/MyPacket.cpp:26-27 | changes the protocol id, low byte first, and nothing else |
| MyPackets.MyPacket.Write | TestProject/MyPacket.cpp:10-17 | appends to the payload exactly when it fits and keeps the header invariant, with the length stored low byte first; otherwise changes nothing |
| MyPackets.MyPacket.Read | TestProject/Packet.cpp:14-17 | takes the next payload bytes out, or changes nothing |
| WireRoundTrip.Send | TestProject/MyPacket.cpp:10-28 | the bytes sent are the wire format of the pieces that fitted, in order: length low byte first, and the payload from byte 8 on |
| WireRoundTrip.Receive | TestProject/Packet.cpp:14-17 | reading any list of sizes gives pieces of those sizes that make up the payload's front |
| WireRoundTrip.RoundTrip | TestProject/MyPacket.cpp:3-28 | however the payload is written in pieces and read in pieces, the reader gets the writer's bytes |
| NetUnits.NetUnit.ProcessWholePackets | TestProject/TimeServer.cpp:33-47 | processes exactly the packets at the front of the pending bytes if no look finds the unit closed; otherwise stops at the first look that does, with as many packets processed as were reached |
| NetUnits.NetUnit.NextPacket | TestProject/TimeServer.cpp:33-47 | one turn of the loop: an open unit processes exactly the packet `HeaderParsing` announces, once, or nothing if it answers 0; a closed one stops before or after, at the first look that finds it closed |
| NetUnits.NetUnit.Recieved | Base/src/StreamBuffer.cpp:112-139 | processes what draining pending plus new bytes finds, keeps the rest at the front of the buffer and asks for more; if a look finds the unit closed, stops at the first that does, with exactly the packets reached before |
| NetUnits.RunConnection | TestProject/TimeServer.cpp:33-47 | for every stream and every way the socket cuts it: everything in it is processed in order if what waits never fills the buffer, and otherwise the connection ends with the buffer full and everything found until then processed; it drops if and only if a look finds the unit closed, at the first one that does, with no more than one buffer's worth of bytes not yet looked at, and makes at most five looks for each byte |
| TimeServers.ReceiveAnything | TestProject/TimeServer.cpp:33-47 | over arbitrary bytes, unless a look finds the unit closed: all that `HeaderParsing` finds is processed, or the buffer fills up, the latter if and only if some header at a boundary announces size 0 or more than the buffer holds, with enough bytes behind it |
| TimeServers.ReceivePackets | TestProject/TimeServer.cpp:33-43 | a list of packets, each no larger than the receive buffer, is processed whole and in order, nothing left over, unless a look finds the unit closed; it drops at no other time |
| EndToEnd.Deliver | TestProject/TimeServer.cpp:70-73 | every packet a sender can build is received with the default buffer, in order, for every chunking, and the connection drops only if a look finds the receiver closed |
| ReplaceStrings.ReplaceString | Base/include/UtilFunctions.h:10-18 | the text becomes the leftmost substitution, in as many turns as there are replacements; it ends even when the text grows |
| ReplaceStrings.Split | Base/include/UtilFunctions.h:10-18 | every text is pieces joined with `from`, such that a left-to-right search finds `from` just between them |
| ReplaceStrings.JoinedWithTo | Base/include/UtilFunctions.h:10-18 | the substitution of such a text is the same pieces joined with `to`, one replacement fewer than there are pieces |
| ReplaceStrings.SkipTo | Base/include/UtilFunctions.h:13 | what `find` passes over stays as it is |
| ReplaceStrings.EndsExactlyWhen | Base/include/UtilFunctions.h:12-17 | the loop ends if and only if `from` is not empty |
| ReplaceStrings.LengthBalance | Base/include/UtilFunctions.h:15-16 | new length + k·length of `from` = old length + k·length of `to`, k the number of replacements |
| ReplaceStrings.NoChoiceIsLarger | Base/include/UtilFunctions.h:12-17 | no set of disjoint occurrences is larger than the number of replacements |
| ReplaceStrings.ScanIsOptimal | Base/include/UtilFunctions.h:12-17 | the number of replacements is the largest size of a set of disjoint occurrences, and is reached |
| ReplaceStrings.UndoneExactlyWhen | Base/include/UtilFunctions.h:10-18 | replacing by a character and back restores the text if and only if the character is not among those left in place |
| ReplaceStrings.UndoneByFreshCharacter | Base/include/UtilFunctions.h:10-18 | a character that does not occur in the text always works |
| ReplaceStrings.NoneLeft | Base/include/UtilFunctions.h:10-18 | after replacing by a character outside `from`, no `from` occurs anywhere, not even across replaced places |
| Decimal.FieldWidth | Base/include/BasicFormat.h:38 | a field is printed at its nominal width exactly when its number fits |
| Decimal.AtoiOfField | Base/include/BasicFormat.h:25-38 | `atoi` of a padded number is the number, for all numbers and widths, signs included |
| Decimal.AtoiFits | Base/include/BasicFormat.h:25-30 | whatever w characters contain, `atoi` of them fits w characters |
| Decimal.PaddedOrder | Base/include/BasicFormat.h:38 | padded texts compare as their numbers do |
| DateFormats.CompactRoundTrip | Base/include/BasicFormat.h:12-41 | YYYYMMDDHHMISS: print then parse is the identity exactly on numbers that fit their fields |
| DateFormats.DateTimeTexts | Base/include/BasicFormat.h:34-72 | which field and which literal characters stand at which place in the text of the compact and the dashed date-time format and of CustomFormat1 |
| DateFormats.DateTexts | Base/include/BasicFormat.h:97-168 | the same for the three formats that print the date only |
| DateFormats.DashedOwnOutput | Base/include/BasicFormat.h:43-72 | the dashed date-time format reads its own output as all zeros; of all inputs it gives back only the six zeros |
| DateFormats.DashedWithMoreRoundTrip | Base/include/BasicFormat.h:43-72 | with anything behind the output, print then parse is the identity exactly on numbers that fit |
| DateFormats.CompactDateRoundTrip | Base/include/BasicFormat.h:74-104 | YYYYMMDD gives the date back with zero time exactly when the date fits |
| DateFormats.SlashDateRoundTrip | Base/include/BasicFormat.h:106-136 | YYYY/MM/DD gives the date back with zero time exactly when the date fits |
| DateFormats.DashDateRoundTrip | Base/include/BasicFormat.h:138-168 | YYYY-MM-DD gives the date back with zero time exactly when the date fits |
| DateFormats.Custom1RoundTrip | Base/include/CustomFormat.h:12-41 | CustomFormat1: print then parse is the identity exactly on numbers that fit |
| DateFormats.CompactKeepsOrder | Base/include/BasicFormat.h:34-41 | comparing printed texts is comparing the times, for non-negative numbers that fit |
| DateFormats.DashedKeepsOrder | Base/include/BasicFormat.h:65-72 | the same for the dashed date-time format |
| EventSyncs.RunKeepsSafe | Base/src/EventSync.cpp:5-25 | mutual exclusion, and what a thread saw or stored in its critical section still holds there, in every run |
| EventSyncs.WaitReturnsOnlyWhenSignalled | Base/src/EventSync.cpp:5-10 | every return from `Wait`, in every interleaving, happens while the event is signalled |
| EventSyncs.SomeCallGoesOn | Base/src/EventSync.cpp:5-25 | no deadlock: while some call is under way and not asleep, some call can take a step |
| EventSyncCalls.CallsFinish | Base/src/EventSync.cpp:5-25 | whatever the schedule, the calls under way take at most 7 steps a thread; when none can take another, every thread has returned or sleeps |
| EventSyncCalls.SignalledWaitReturns | Base/src/EventSync.cpp:5-18 | on a signalled event with no `Reset` under way, every call that is not asleep has returned when nothing goes on any more, whatever the schedule |
| EventSyncCalls.WaitAlone | Base/src/EventSync.cpp:5-10 | undisturbed, `Wait` on a signalled event returns and changes nothing; otherwise it goes to sleep without the mutex |
| EventSyncCalls.WokenAlone | Base/src/EventSync.cpp:8-9 | undisturbed, a woken waiter returns if the event is signalled, and sleeps again if not |
| EventSyncCalls.ResetAlone | Base/src/EventSync.cpp:20-25 | undisturbed, `Reset` leaves the signal off and changes nothing else |
| EventSyncCalls.SetAlone | Base/src/EventSync.cpp:12-18 | undisturbed, `Set` leaves the signal on and wakes one sleeper, any of them, if there is one |
| EventSyncs.EachSetWakesOne | Base/src/EventSync.cpp:12-18 | while the event stays signalled, of n sleepers k calls of `Set` leave max(0, n - k), fewer only by spurious wake-ups, and nobody newly sleeps |
| EventSyncs.StaysSignalled | Base/src/EventSync.cpp:5-25 | with no `Reset` under way or called, a signalled event stays signalled throughout, and nobody finds it off |
| EventSyncs.WithoutResetEachSetWakesOne | Base/src/EventSync.cpp:5-18 | from every safe state, signalled or not, with no `Reset` under way or called: k calls of `Set` leave max(0, n - k) of the n waiters that were asleep at first or found the event off since, fewer only by spurious wake-ups |
| ForgottenSleepers.SecondIsForgotten | Base/src/EventSync.cpp:12-18 | two waiters and one `Set`: a run after which one sleeps un-notified on a signalled event |
| ForgottenSleepers.NoneForgottenExactlyWhen | Base/src/EventSync.cpp:5-25 | no waiter is ever forgotten, in any run, if and only if at most one thread waits or there are at most two threads |
| ForgottenSleepers.SleepsUntilNextSet | Base/src/EventSync.cpp:5-18 | without spurious wake-ups a sleeper sleeps on until the next call of `Set`, signalled or not |
| AtomicSharedPtrs.WorkFollowsRegister | Base/include/atomic_shared_ptr.hpp:80-127 | each statement between lock and unlock takes the call one step along the sequential operation |
| AtomicSharedPtrs.RunKeepsInv | Base/include/atomic_shared_ptr.hpp:80-127 | over every run, each unlocked cell holds what the calls locked so far leave in it, and each locked one what its holder's progress says |
| AtomicSharedPtrs.EveryRunIsLinearizable | Base/include/atomic_shared_ptr.hpp:19-127 | every interleaving is linearizable in lock order: each reply, including success and `expected` of a compare-exchange, is the sequential register's, and real-time order is kept |
| AtomicCalls.CallAlone | Base/include/atomic_shared_ptr.hpp:80-127 | undisturbed, each operation leaves its cell with the content, and its caller with the reply, that the lemma spells out: a compare-exchange of equal addresses stores the new pointer and reports it, one of other addresses reports the content and changes nothing, `exchange` returns the old pointer |
| AtomicCalls.CallsFinish | Base/include/atomic_shared_ptr.hpp:80-127 | from every reachable state the number of steps left to the calls under way is fixed, whatever the schedule; until it is used up some call can go on, and then every call has returned |
| CompareExchanges.StandardExactlyWhen | Base/include/atomic_shared_ptr.hpp:111-127 | over every run: linearized in lock order, its history is one of pointers with the compare-exchange of the Concurrency TS if and only if no finished call finds the expected address with another owner, or with a pointer other than the expected one to put there |
| AtomicCopies.CopyIsNotAtomic | Base/include/atomic_shared_ptr.hpp:34-47 | a copy is a load, then a store: with any two threads and cells, a run in which it overwrites a store with the value its source had before that store |
| AtomicCopies.CopyAlone | Base/include/atomic_shared_ptr.hpp:34-47 | undisturbed, a copy leaves in the target what the source holds, and changes nothing else |
| AtomicCopies.NeverStale | Base/include/atomic_shared_ptr.hpp:34-47 | in a run with at most one cell, no copies, or one single thread that changes cells, the source still holds the value whenever the store half of a copy takes its lock |
| AtomicCopies.NeverStaleExactlyWhen | Base/include/atomic_shared_ptr.hpp:34-47 | no run has a copy store what its source no longer holds if and only if there is at most one cell, or nobody copies, or only one thread copies or changes cells |
| AutoConnectors.ConnectUnit.CheckConnection | WinNet/src/AutoConnector.cpp:45-59 | skips active units, and asks those without a connection to disconnect |
| AutoConnectors.ConnectUnit.TryConnect | WinNet/src/AutoConnector.cpp:61-72 | asks for a connection and restarts the interval exactly when the interval has passed |
| AutoConnectors.AutoConnector.Register | WinNet/src/AutoConnector.cpp:13-20 | a new unit at the end of the list, its first interval starting at registration, the others untouched |
| AutoConnectors.AutoConnector.Turn | WinNet/src/AutoConnector.cpp:30-38 | every unit of the list gets exactly one poll: an active one keeps its requests and time point, a request is made at the clock value of the look, and an active unit without connection is asked to disconnect |
| AutoConnectors.AutoConnector.Run | WinNet/src/AutoConnector.cpp:22-43 | after any number of turns every unit has been polled with its own looks, independently of the others; every request was made at a look of its own, in order, that found the unit inactive, and the time point is the latest of them |
| AutoConnectors.ActiveUnitsAreLeftAlone | WinNet/src/AutoConnector.cpp:32-37 | looks at an active unit change neither its requests nor its time point |
| AutoConnectors.WholeMilliSeconds | WinNet/src/AutoConnector.cpp:64-66 | elapsed time counts in complete milliseconds, on either side of zero |
| AutoConnectors.RequestsAreSpaced | WinNet/src/AutoConnector.cpp:61-72 | requests, the first after registration included, are at least the interval apart; with a positive interval whatever the clock does |
| AutoConnectors.GapsAddUp | WinNet/src/AutoConnector.cpp:61-72 | m gaps span at least m intervals |
| AutoConnectors.RequestsAreNotLate | WinNet/src/AutoConnector.cpp:28-42 | for an inactive unit looked at every d at most, requests are less than interval + d apart |
| AutoConnectors.RequestRate | WinNet/src/AutoConnector.cpp:22-72 | n requests in a time between n intervals and n + 1 stretched intervals |

## Left out

- Sockets, IOCP completion ports, overlapped sends, DNS, logging, files, threads, timers and object pools: operating-system calls; the receive path starts where the socket has put bytes behind the write position.
- Typed packet operators `<<` and `>>`, `AbstractPacket::Copy`, and copies of packets: only raw `Write`, `Read` and `Set` are modelled.
- `Create` on a buffer already in use: the program calls it right after default construction, which the constructors here stand for.
- Releasing memory and running out of it: blocks are never freed, and move assignment's lost block is not an event.
- Negative sizes passed to a buffer, cursors moved outside the block, and ring capacities for which `NoOverflowExactlyUpTo` fails: the program's behaviour is undefined there.
- Buffers.Buffer.Append: appending a buffer's own bytes when the block has to grow is excluded, because the program then reads freed memory.
- A failed request for a read, which the program answers with a disconnect: requests for reads are taken to succeed.
- NetUnits.NetUnit.Recieved: when the connection drops in the middle, only the processed packets are stated, not the buffer, which the program clears before it is used again.
- NetUnits.NetUnit.PacketProcessing: stands for any handler; it records the packet and does nothing to the receive buffer.
- ReplaceStrings.ReplaceString: `from` and `to` are values, so calls in which they alias the text are not modelled, and an empty `from` is excluded because the loop then never ends (`EndsExactlyWhen`).
- DateFormats.CompactKeepsOrder: negative numbers are excluded; a minus sign turns their text order around.
- `atomic_weak_ptr`, `compare_exchange_weak`, memory orders and reference counts: cells hold an address and a control block, and every access is under the cell's lock.
- Fairness of the scheduler: calls are proved to end once nobody makes new ones; that a thread gets its turn among threads that keep calling is not.
- Floating-point rounding in `TimeSpan`: durations are whole numbers of nanoseconds.
- `DateTime`, its calendar arithmetic included, `Tokenizer`, `Timer`, `StopWatch`, address classes, singletons and map wrappers: not modelled.
