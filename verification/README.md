# A verified model of event-async

event-async is a C++20 coroutine library on top of libevent, with HTTP, MySQL and memcache protocols built on it. This project models the parts of it whose correctness is not visible from any single function and proves what they promise, for every input, every order in which tasks finish and every way the kernel cuts a stream into chunks.

- **Tasks** (`TaskProtocol`, `Tasks`, `Combinators`). A run of the scheduler is observed as a log of events: a coroutine starts a task, suspends on a set of tasks or is resumed, and a task finishes; any number of coroutines may be suspended at a time. `TaskProtocol` says which logs are legal and what holds at every point of every legal log. `Tasks` and `Combinators` are the code: tasks with their `started` flag and `awaiting_coro` slot, the awaiters, and `multi`, `all`, `any`, `all_limit`. Every event goes through `Scheduler.Emit`, which demands that it is allowed at that point, so the laws about logs are laws about the code. The environment is any number of other coroutines under the same protocol: they start tasks, suspend on tasks of their own and are resumed, and started tasks finish in any order, also while another one is being started. The coroutines that `multi` creates are modelled with tasks of their own.
- **Channels and futures** (`WaitLists`, `Programs`, `Channels`, `Futures`). Both keep a forward_list of suspended coroutines and an iterator behind which the next one goes. Programs are trees: a read or an await carries what its coroutine does next, which runs nested inside the write or resolution that wakes it.
- **Partial I/O** (`Sockets`, `Buffers`, `BaseIo`). A socket moves any positive number of octets per call; the awaiters make reads and writes exact.
- **Websockets** (`WebsocketFrames`, `Websockets`). Frames of sections 5.2 to 5.5 of RFC 6455, the reader and the printer. The encoder of frames covers every fragmentation, masking and length form; the class is the code, proved against functions on octets.
- **MySQL** (`Varints`, `ProtocolBuffers`, `ResultSets`, `ResultSetCodec`, `Clients`, `Queries`). Length-encoded integers and strings, packets, the client with its sequence numbers, `query_multi`, and the binlog stream.
- **Binlogs** (`Binlogs`, `BinlogCodec`, `BinlogEvents`, `BinlogProcessors`, `BinlogLogs`, `Replication`). Table maps and rows events; what the first establishes and the second relies on; the other events; encoders and the proof that the parsers invert them; the reader loop from socket to rows.

`Results` and `Bytes` hold the failure values and the primitive parsers. In the MySQL and websocket parts the stateful code (a buffer that is drained, a cursor that moves) is specified by functions from octets to a value and the octets left over: `Follows(F(old(rest)), result, rest)` says that a method returned what `F` says and left what `F` leaves. The round trips are then lemmas about those functions.

The main results are `Combinators.RunProgram` with the laws of `TaskProtocol`; `Channels.Execute` and `Futures.Execute`; `BaseIo.Read`, `Buffers.Buffer.ReadExactly` and `Buffers.WriteSized`; `WebsocketFrames.Reassembly`, `ReadSucceedsIff` and `MessagesRoundTrip` with `Websockets.WebsocketClient.Read`; `Queries.Ask` over `ResultSetCodec.ResponseRoundTripIff`; `Binlogs.ParsedRowsAreSound` and `LoopEndsIff`; and `Replication.Replicate` over `BinlogLogs.LogRoundTrip`.

Four promises do not hold for all inputs. For each there is a condition that is exact:

- A `Channel` is first in, first out (the library's own README, lines 32 and 33, calls it a queue) only as long as no read suspends after the list of waiters has been emptied: `resume_awaiter` leaves the iterator on the node it destroys. `Channels.WellDefinedMeansOneStretch` and `Channels.Execute` give the runs for which all is well, and `Channels.ReadWriteRead` is the smallest that goes wrong.
- `Buffer::write` with an explicit size sends exactly that many octets and returns, under every chunking, if and only if the buffer holds as many and the size is at most one or the whole buffer (`Buffers.ExplicitSizeCompletesIff`, `Buffers.WriteSized`); it never sends more if and only if the size is at most one or covers the buffer (`Buffers.ExplicitSizeIsRespected`).
- `query_multi` reads back a response if and only if no OK packet in front of a further result has anything behind its fields (`ResultSetCodec.ResponseRoundTripIff`; `TrailerBeforeSecondResult` is a response that is refused).
- `parse_rows_event` returns if and only if the table has columns or nothing follows the presence masks (`Binlogs.LoopEndsIff`; `BinlogCodec.EmptyTableDiverges` is an input on which it never does).

Where zero months or minus zero are exceptions, the lemmas say so with an if and only if as well (`BinlogCodec.DateTimeRoundTripIff`, `BinlogCodec.TimeRoundTripIff`).

Check everything with `dafny verify dfyconfig.toml`.

## Model

| member | source | states |
|---|---|---|
| `TaskProtocol.LegalIsSound` | src/Task.hh:59-94 | after every legal run, with any number of coroutines suspended, no task is awaited by two of them and each awaits only started, unfinished tasks, except one that is about to be resumed because one of its tasks has just finished |
| `TaskProtocol.OneResumePerSuspend` | src/Task.hh:217-226 | for every coroutine, at every point of every run, its suspends and resumes balance except for a suspend in progress |
| `TaskProtocol.ResumeIsCausedByAwaitedFinish` | src/Task.hh:217-226 | a resume directly follows the end of a task that this coroutine awaits, and the end of a task is followed directly by the resume of whoever awaits it, if anybody does |
| `TaskProtocol.NoEventTwice` | src/Task.hh:125-130 | no task is started twice, by whomever, and none finishes twice in any run |
| `TaskProtocol.NobodyWakesAnEmptyWait` | src/Task.hh:71-94 | a coroutine suspended on no task stays suspended whatever the others do |
| `TaskProtocol.NeverAboveLimit` | src/Task.hh:415-436 | at every point of a run of all_limit among other coroutines, of the tasks it started at most `parallelism` are unfinished |
| `TaskProtocol.IdleOnlyWhenSaturated` | src/Task.hh:415-436 | at every point at which a coroutine of a combinator is suspended it awaits at least one task and all it awaits are running; they are the coroutine it created, or tasks of its range while every task of the range has been started or exactly `parallelism` are awaited |
| `TaskProtocol.StartsInOrder` | src/Task.hh:388-436 | a combinator starts its tasks in iterator order |
| `TaskProtocol.ConformingIsLegal` | src/Task.hh:388-436 | what a combinator promises implies the laws of every run |
| `Tasks.Scheduler.FinalSuspend` | src/Task.hh:217-226 | a finishing task hands control exactly to the coroutine in its slot, and that is the one coroutine that awaits the task |
| `Tasks.Scheduler.OtherFinishes` | src/Task.hh:77-94 | whichever started task finishes, either a coroutine of the environment is resumed and unlinks its other tasks, or the coroutine under consideration is resumed, or nobody was waiting; all other waits are as before |
| `Tasks.Scheduler.OtherSuspends` | src/Task.hh:71-75 | another coroutine may suspend on its own tasks at any time without disturbing the waits of the program |
| `Tasks.Scheduler.Others` | src/Task.hh:217-226 | whatever other coroutines start, await and finish in between, the wakeup discipline holds for all of them; a suspension ends with exactly one awaited task done, the one whose end is the event before the resume |
| `Tasks.Scheduler.Start` | src/Task.hh:125-130 | starting an already started task does nothing; otherwise the task is started once, and anything may happen inside, nested, before start returns |
| `Tasks.Scheduler.SuspendOnTask` | src/Task.hh:27-36 | the awaiting coroutine is put into the slot of the task, which is started if it was not, and the slots of all unfinished tasks still name exactly who awaits them |
| `Tasks.Scheduler.AwaitTask` | src/Task.hh:20-46 | returns with the task done and no handle of the coroutine left anywhere, or is suspended on exactly that task; what outer coroutines wait for is unchanged |
| `Tasks.Scheduler.ReturnTo` | src/Task.hh:217-226 | a coroutine that was created and awaited returns control through its slot to the one that created it, and to nobody else |
| `Tasks.Scheduler.SuspendOn` | src/Task.hh:71-75 | all tasks of an AnyAwaiter, and no other unfinished ones, hold the handle of the coroutine |
| `Tasks.Scheduler.ResumeFrom` | src/Task.hh:77-94 | never throws; afterwards no unfinished task holds the handle and the awaited set has lost every done task, at least one |
| `Tasks.Scheduler.SuspendUntilFirst` | src/Task.hh:71-75 | a suspended AnyAwaiter is resumed by the first of its tasks that finishes, the only one done at that point |
| `Tasks.Scheduler.AwaitAny` | src/Task.hh:48-98 | neither logic_error can be thrown; returns at once if a task is done, otherwise with the first one that finishes |
| `Tasks.AnyAwaiter.AwaitReady` | src/Task.hh:59-69 | true only if some task is done, false only if all are started and none is done, an error only if some task was never started |
| `Tasks.AnyAwaiter.AwaitSuspend` | src/Task.hh:71-75 | every task of the set holds the handle |
| `Tasks.AnyAwaiter.AwaitResume` | src/Task.hh:77-94 | the set keeps exactly its unfinished tasks, all unlinked; returns a done task if there was one and fails otherwise |
| `Combinators.All` | src/Task.hh:388-400 | every point of the run conforms; on return all tasks are done and none is linked; otherwise it is blocked on a running task |
| `Combinators.MultiFrom` | src/Task.hh:375-386 | by the time a level of the recursion waits for one of the tasks or returns, every task of the call has been started; outer levels keep waiting for the level they created |
| `Combinators.MultiRest` | src/Task.hh:381-386 | each further level is a coroutine with a task of its own: it is linked, started and awaited, and its return resumes the level before it exactly once |
| `Combinators.Multi` | src/Task.hh:375-386 | every point of the run conforms, so no task is awaited before all are started; on return all tasks are done and every created coroutine has returned |
| `Combinators.AnyOf` | src/Task.hh:402-413 | the result is a done task of the range; without suspension if one is done beforehand, otherwise the first and only one to finish; a suspended call awaits the whole range |
| `Combinators.Any` | src/Task.hh:402-413 | the same with conformance at every point of the run; over an empty range it is suspended on nothing |
| `Combinators.Drain` | src/Task.hh:420-435 | ends by the lexicographic measure (tasks left to start, awaited tasks), with all tasks done |
| `Combinators.AllLimit` | src/Task.hh:415-436 | every point of the run conforms to the limit, on return all tasks are done; with parallelism zero and something to do it is suspended on nothing for good |
| `Combinators.RunCall` | src/Task.hh:375-436 | every call leaves what it promises and no unfinished task linked, or is blocked on a running task |
| `Combinators.RunProgram` | src/Task.hh:375-436 | any sequence of calls over shared tasks, among any other coroutines, gives a legal run in which every completed call keeps its promise; a program that stops early awaits tasks that are running |
| `Channels.WellDefinedMeansOneStretch` | src/Channel.hh:74-80 | a run never inserts through the dangling iterator if and only if the times at which readers wait form one stretch |
| `Channels.SecondBlockingReadIsUndefined` | src/Channel.hh:44-47 | the history of read, write, read is the smallest that is not well defined |
| `Channels.Channel.TakeItem` | src/Channel.hh:40-53 | a read on a non-empty queue takes the oldest item and keeps the matching of reads and items |
| `Channels.Channel.Suspend` | src/Channel.hh:44-47 | a waiting read goes to the end of the line |
| `Channels.Channel.Deliver` | src/Channel.hh:63-80 | the oldest waiting read gets the item, and items and waiters never coexist |
| `Channels.Channel.UndefinedReads` | src/Channel.hh:44-47 | the dangling iterator is used exactly by the reads that a caller can tell from the order of reads and writes so far |
| `Channels.Channel.Step` | src/Channel.hh:40-80 | the operation comes first and everything nested in it follows, nothing lost, invented or done twice: what was done and what waiting readers have yet to do add up; it stops only right before an undefined insertion, and does so at once for a read that is undefined beforehand |
| `Channels.Channel.Run` | src/Channel.hh:40-80 | the same for any re-entrant program, which always terminates: reads, writes and items done plus those left equal those of the program |
| `Channels.Execute` | src/Channel.hh:40-80 | on a new channel the program is carried out completely up to what waiting readers have in front of them, or up to an undefined insertion; the n-th read that began gets the n-th item written whenever both exist, and the queue or the waiter list is empty |
| `Channels.ReadWriteRead` | src/Channel.hh:40-80 | the run of read, write, read hands the item to the first read and comes to an undefined insertion at the second |
| `Futures.Future.Suspend` | src/Future.hh:34-37 | the cursor names the tail at every insertion |
| `Futures.Future.WakeFirst` | src/Future.hh:120-127 | the waiter that began first is resumed and gets the outcome |
| `Futures.Future.ResumeAwaiters` | src/Future.hh:120-127 | every waiter is resumed exactly once, even if resumed coroutines await or resolve again |
| `Futures.Future.SetOutcome` | src/Future.hh:77-118 | fails and changes nothing if resolved already; otherwise sets the value for good and resumes all waiters in the order in which they began; the attempt itself and all that is nested in it are accounted for |
| `Futures.Future.Step` | src/Future.hh:30-127 | the await or resolution comes first, everything nested in it is carried out exactly once, and once resolved, value, waiter list and wakeups never change again |
| `Futures.Future.Run` | src/Future.hh:30-127 | the same for any re-entrant program, which always terminates: awaits and attempts done plus those left equal those of the program |
| `Futures.Execute` | src/Future.hh:30-127 | on a future that is new or born resolved the value is the one it was born with or else the first anybody tried; then the program was carried out completely, everyone who ever awaited got that outcome, and suspended ones were resumed once each in order; unresolved, nobody got anything |
| `Buffers.Buffer.ReadExactly` | src/Buffer.cc:386-389 | under every chunking, exactly the requested octets move from the stream to the buffer in order; end of stream is reported only if the peer sent fewer |
| `Buffers.Buffer.ReadTo` | src/Buffer.cc:391-398 | afterwards the buffer holds at least the size asked for, and nothing more than needed was taken from the stream |
| `Buffers.Buffer.WriteAll` | src/Buffer.cc:400-402 | under every chunking, exactly the contents go out in order and leave the buffer |
| `Buffers.ReadExactlyAwaiter.OnReadReady` | src/Buffer.cc:462-480 | octets are conserved between buffer and stream; the coroutine is resumed exactly on failure, end of stream or completion, and otherwise progress was made |
| `Buffers.WriteAwaiter.OnWriteReady` | src/Buffer.cc:508-527 | octets are conserved between buffer and socket; resumed exactly on failure or when the count equals the limit |
| `Buffers.ExplicitSizeIsRespected` | src/Buffer.cc:511-526 | an explicit size is never exceeded, under every chunking, if and only if it is at most one or covers the buffer |
| `Buffers.ExplicitSizeCompletesIff` | src/Buffer.cc:511-526 | a write of an explicit size completes with exactly that many octets, under every chunking, if and only if the buffer holds as many and the size is at most one or the whole buffer; otherwise some chunking sends too much or the coroutine is never resumed |
| `Buffers.WriteSized` | src/Buffer.cc:508-527 | the awaiter driven with an explicit size produces exactly the chunk sequences that the two conditions are about, sends that prefix of the buffer, and for a size that works is over after one callback per octet |
| `Buffers.Buffer.Remove` | src/Buffer.cc:173-187 | takes exactly the first octets, or fails if there are too few |
| `Buffers.Buffer.AddBuffer` | src/Buffer.cc:94-104 | moves the whole contents of the other buffer to the end |
| `BaseIo.ReadAwaiter.AwaitReady` | src/Base.cc:203-227 | delivered plus remaining stays what was requested, the delivered part is the front of the stream; a ready socket with data makes progress; no suspension exactly if nothing remains |
| `BaseIo.ReadAwaiter.OnReadReady` | src/Base.cc:246-272 | the same for every callback; a ready socket with data makes progress; resumed exactly on failure or when nothing remains, so not at the end of the stream |
| `BaseIo.Read` | src/Base.cc:203-272 | success means that the memory holds exactly the first octets of the stream; a suspended read has got at least one octet per ready attempt or all the peer sends; so it succeeds with enough octets and ready attempts, and never if the peer sends fewer |
| `BaseIo.WriteAwaiter.AwaitReady` | src/Base.cc:287-311 | what has gone out is the delivered prefix of the data; a ready socket makes progress; no suspension exactly if nothing remains |
| `BaseIo.WriteAwaiter.OnWriteReady` | src/Base.cc:326-351 | the same for every callback; a ready socket makes progress; resumed exactly on failure or when nothing remains |
| `BaseIo.Write` | src/Base.cc:287-351 | at no time has anything but a prefix of the data gone out, at least one octet per ready attempt; success means all of it, and comes after enough ready attempts |
| `WebsocketFrames.MaskTwice` | src/Protocols/HTTP/Server.cc:366-370 | unmasking inverts masking for every key and payload |
| `WebsocketFrames.MaskBits` | src/Protocols/HTTP/Server.cc:366-370 | bit by bit, octet i of the payload is combined by exclusive or with octet i mod 4 of the key, for every key and payload |
| `WebsocketFrames.HeadBits` | src/Protocols/HTTP/Server.cc:342-356 | the first two octets of a frame, bit by bit: final flag, reserved bits and opcode, mask flag and length code |
| `WebsocketFrames.LengthBits` | src/Protocols/HTTP/Server.cc:345-353 | the octets of the two longer length forms, highest first |
| `WebsocketFrames.PayloadBits` | src/Protocols/HTTP/Server.cc:355-370 | where key and payload are in an encoded frame, and which bits the masked payload has |
| `WebsocketFrames.HelloIsUnmasked` | src/Protocols/HTTP/Server.cc:331-408 | the masked example of section 5.7 of RFC 6455 is read as the text Hello |
| `WebsocketFrames.ReadFrameOfEncoded` | src/Protocols/HTTP/Server.cc:339-370 | every frame, of any length form and with or without mask, is recovered and nothing behind it is touched |
| `WebsocketFrames.EncodeOfReadFrame` | src/Protocols/HTTP/Server.cc:339-370 | whatever octets are accepted as a frame are an encoding of the frame returned |
| `WebsocketFrames.Reassembly` | src/Protocols/HTTP/Server.cc:331-408 | a message in any fragments, masks and length forms with pings and pongs in between gives its opcode and payload, consumes exactly its octets and sends one pong per ping with equal payload in order |
| `WebsocketFrames.UnfinishedIsRead` | src/Protocols/HTTP/Server.cc:372-406 | any fragments, pings and pongs that leave a message unfinished only extend it and answer the pings |
| `WebsocketFrames.BadFrameEndsRead` | src/Protocols/HTTP/Server.cc:376-393 | wherever it arrives, a close frame is echoed and ends the read, as do unassigned control frames and data frames whose opcode does not fit, after all pings before it were answered |
| `WebsocketFrames.OnlyMessagesAreRead` | src/Protocols/HTTP/Server.cc:331-408 | a message is only ever returned for octets that are the frames of one |
| `WebsocketFrames.ReadSucceedsIff` | src/Protocols/HTTP/Server.cc:331-408 | read succeeds if and only if the stream starts with the frames of a message |
| `WebsocketFrames.WriteIsShortestEncoding` | src/Protocols/HTTP/Server.cc:410-428 | write prints a valid frame, and no frame with that payload has a shorter encoding |
| `WebsocketFrames.WrittenMessageIsRead` | src/Protocols/HTTP/Server.cc:410-428 | a written data message in front of anything is read back, with nothing sent in reply |
| `WebsocketFrames.MessagesRoundTrip` | src/Protocols/HTTP/Server.cc:331-428 | any concatenation of written messages with opcodes 1 to 7 is read back as those messages with nothing left over |
| `Websockets.WebsocketClient.ReceiveLength` | src/Protocols/HTTP/Server.cc:345-353 | the three length forms, independent of chunking |
| `Websockets.WebsocketClient.ReceiveBody` | src/Protocols/HTTP/Server.cc:355-370 | key and payload, unmasked in place, independent of chunking |
| `Websockets.WebsocketClient.ReceiveFrame` | src/Protocols/HTTP/Server.cc:339-370 | one frame, independent of chunking |
| `Websockets.WebsocketClient.Write` | src/Protocols/HTTP/Server.cc:410-436 | on success exactly one frame went out, failure only if the socket failed |
| `Websockets.WebsocketClient.Read` | src/Protocols/HTTP/Server.cc:331-408 | unless the socket fails, result and replies are those of the specification under every chunking, also for errors, and so are the octets consumed unless the stream ends in the middle of a frame |
| `Bytes.LERoundTrip` | src/Protocols/MySQL/ProtocolBuffer.cc:30-40 | little-endian fields of any width are read back |
| `Bytes.LEInverse` | src/Protocols/MySQL/ProtocolBuffer.cc:60-66 | printing what was read gives the same octets |
| `Bytes.LEOctet` | src/Protocols/MySQL/ProtocolBuffer.cc:60-66 | octet i of a little-endian field is that digit of the value |
| `Bytes.BEOctet` | src/Protocols/HTTP/Server.cc:416-421 | the same for big-endian fields |
| `Bytes.LETruncates` | src/Protocols/MySQL/ProtocolBuffer.cc:60-66 | a value that does not fit loses exactly its upper part |
| `Varints.VarintRoundTrip` | src/Protocols/MySQL/ProtocolBuffer.cc:42-81 | every 64-bit value is read back and nothing behind it is touched |
| `Varints.VarintSelfDelimiting` | src/Protocols/MySQL/ProtocolBuffer.cc:68-81 | encodings in front of anything agree only if values and rests do |
| `Varints.VarintShortest` | src/Protocols/MySQL/ProtocolBuffer.cc:68-81 | no octets that decode to the same value are fewer |
| `Varints.VarintFirstOctet` | src/Protocols/MySQL/ProtocolBuffer.cc:68-81 | the first octet is the value or tells exactly how many octets follow; 0xFB and 0xFF never start an encoding, 0xFE only that of a value of 24 bits or more |
| `Varints.VarintOctets` | src/Protocols/MySQL/ProtocolBuffer.cc:68-81 | the octets behind the first are the digits of the value, lowest first |
| `Varints.VarintAccepted` | src/Protocols/MySQL/ProtocolBuffer.cc:42-58 | exactly which octets are accepted as an encoding, what is taken, and that only 0xFB and 0xFF are invalid |
| `Varints.StringRoundTrip` | src/Protocols/MySQL/ProtocolBuffer.cc:87-102 | every string is read back and nothing behind it is touched |
| `Varints.StringsRoundTrip` | src/Protocols/MySQL/ProtocolBuffer.cc:87-102 | every list of strings is read back as that list |
| `Varints.BitsRoundTrip` | src/Protocols/MySQL/ProtocolBuffer.cc:149-156 | every bit mask of any length is read back |
| `Varints.PacketRoundTrip` | src/Protocols/MySQL/ProtocolBuffer.cc:11-28 | sequence number and payload of every packet below 2^24 octets are read back |
| `Varints.PacketOctets` | src/Protocols/MySQL/ProtocolBuffer.cc:22-28 | three octets of length, lowest first, then the number and the payload |
| `Varints.PacketAccepted` | src/Protocols/MySQL/ProtocolBuffer.cc:11-20 | a packet is taken if and only if it has come completely |
| `ProtocolBuffers.AddVarint` | src/Protocols/MySQL/ProtocolBuffer.cc:68-81 | appends the encoding for which the round trips hold |
| `ProtocolBuffers.RemoveVarint` | src/Protocols/MySQL/ProtocolBuffer.cc:42-58 | drains exactly one encoded value, or fails with the error of the decoder |
| `ProtocolBuffers.AddVarString` | src/Protocols/MySQL/ProtocolBuffer.cc:99-102 | appends the encoding for which the round trips hold |
| `ProtocolBuffers.RemoveVarString` | src/Protocols/MySQL/ProtocolBuffer.cc:87-89 | drains exactly one encoded string |
| `ProtocolBuffers.AddZeroes` | src/Protocols/MySQL/ProtocolBuffer.cc:104-117 | appends exactly the given number of zero octets |
| `ProtocolBuffers.ReadCommand` | src/Protocols/MySQL/ProtocolBuffer.cc:11-20 | refuses an occupied buffer; otherwise takes exactly one packet under every chunking |
| `ProtocolBuffers.WriteCommand` | src/Protocols/MySQL/ProtocolBuffer.cc:22-28 | sends exactly one packet with the contents and empties the buffer |
| `ProtocolBuffers.StringReader.GetVarint` | src/Protocols/MySQL/ProtocolBuffer.cc:119-135 | the cursor reader agrees with the buffer reader on every input |
| `ProtocolBuffers.StringReader.GetVarString` | src/Protocols/MySQL/ProtocolBuffer.cc:141-143 | takes exactly one encoded string |
| `ProtocolBuffers.StringReader.GetBitmask` | src/Protocols/MySQL/ProtocolBuffer.cc:149-156 | bit k of the mask is bit k mod 8 of octet k div 8 |
| `ResultSets.Command` | src/Protocols/MySQL/Client.cc:40-46 | a packet is accepted only into an empty buffer, and every acceptance consumes octets |
| `ResultSetCodec.WrongNumberIsRefused` | src/Protocols/MySQL/Client.cc:40-46 | a packet is refused as out of sequence if and only if its number is not the expected one |
| `ResultSetCodec.MoreResultsIsBit` | src/Protocols/MySQL/Types.hh:39-54 | for all status flags, another result is expected if and only if bit 3 is set |
| `ResultSetCodec.OkRoundTrip` | src/Protocols/MySQL/Client.cc:270-280 | every OK packet is read back and its trailer is left |
| `ResultSetCodec.EofRoundTrip` | src/Protocols/MySQL/Client.cc:323-335 | every terminator is read back and its trailer is left |
| `ResultSetCodec.ColumnRoundTrip` | src/Protocols/MySQL/Client.cc:299-317 | every column definition is read back and leaves the buffer empty |
| `ResultSetCodec.ColumnHeaderIff` | src/Protocols/MySQL/Client.cc:299-317 | a column definition is read back, leaving what follows, if and only if the length of its fixed part is twelve, whatever its unused octets are |
| `ResultSetCodec.CellRoundTrip` | src/Protocols/MySQL/Client.cc:351-359 | NULL is never taken for text nor text for NULL |
| `ResultSetCodec.CellsRoundTrip` | src/Protocols/MySQL/Client.cc:351-359 | every row is read back and leaves the buffer empty |
| `ResultSetCodec.RowIsNotEof` | src/Protocols/MySQL/Client.cc:320-335 | a row that fits into a packet is never taken for the terminator |
| `ResultSetCodec.ColumnsRoundTrip` | src/Protocols/MySQL/Client.cc:296-317 | any number of definitions is read back, past any number of sequence wraps |
| `ResultSetCodec.RowsRoundTrip` | src/Protocols/MySQL/Client.cc:319-361 | any number of rows is read back up to the terminator |
| `ResultSetCodec.SetRoundTrip` | src/Protocols/MySQL/Client.cc:263-361 | one result set is read back; only a trailer behind the last packet can stay in the buffer |
| `ResultSetCodec.ResponseRoundTripIff` | src/Protocols/MySQL/Client.cc:253-363 | a whole response, in which bit 3 of the flags announces each further result, is read back in order, consuming exactly its octets, if and only if no OK packet before the last result has a trailer |
| `ResultSetCodec.TrailerBeforeSecondResult` | src/Protocols/MySQL/Client.cc:270-280 | two OK packets, the first with one octet behind its fields, are refused |
| `ResultSetCodec.FirstOctetDecides` | src/Protocols/MySQL/Client.cc:268-286 | where a result may begin, an ERR packet, a LOCAL INFILE request and an empty packet fail, each with its own error |
| `ResultSetCodec.ErrorEndsResponse` | src/Protocols/MySQL/Client.cc:253-363 | an ERR packet after any number of complete results is an error |
| `ResultSetCodec.ErrorAmongRows` | src/Protocols/MySQL/Client.cc:320-361 | in place of a row, an ERR packet is not recognised but fails as a row, and an empty packet fails |
| `ResultSetCodec.LeftoverAfterRow` | src/Protocols/MySQL/Client.cc:320-361 | octets behind the cells of a row are fatal, since the buffer is not empty at the next packet |
| `ResultSetCodec.LeftoverAfterColumn` | src/Protocols/MySQL/Client.cc:298-317 | so are octets behind a column definition |
| `ResultSetCodec.LeftoverAfterCount` | src/Protocols/MySQL/Client.cc:297-299 | and octets behind the column count |
| `Clients.Client.ResetSeq` | src/Protocols/MySQL/Client.cc:52-54 | the numbering starts over |
| `Clients.Client.ReadCommand` | src/Protocols/MySQL/Client.cc:40-46 | the i-th packet since the reset has number i mod 256; a packet with another number is refused and does not advance the numbering |
| `Clients.Client.WriteCommand` | src/Protocols/MySQL/Client.cc:48-50 | the same for packets sent, also if sending fails |
| `Clients.Client.ReceiveColumns` | src/Protocols/MySQL/Client.cc:296-317 | returns what the specification reads, with the buffer as it leaves it |
| `Clients.Client.ReceiveRows` | src/Protocols/MySQL/Client.cc:319-361 | returns what the specification reads, with the buffer as it leaves it |
| `Clients.Client.ReceiveResultSet` | src/Protocols/MySQL/Client.cc:263-361 | returns what the specification reads, including its errors |
| `Clients.Client.QueryMulti` | src/Protocols/MySQL/Client.cc:253-363 | sends exactly one packet with number 0, then returns what the specification reads from number 1 on and consumes nothing beyond it |
| `Clients.Client.Query` | src/Protocols/MySQL/Client.cc:245-251 | the only result set, or an error if there is another number of them |
| `Queries.Ask` | src/Protocols/MySQL/Client.cc:253-363 | from an encoded response to the caller's list of result sets, under every chunking |
| `Clients.Client.ReadBinlogs` | src/Protocols/MySQL/Client.cc:365-388 | on success exactly the checksum query and the dump command went out, both with number 0, and a server reads the position, the blocking mode, the server id and the file name off the command; the answer to the query and nothing else was consumed, and the stream is at its first event; otherwise the error is that of the query |
| `Clients.DumpIsUnderstood` | src/Protocols/MySQL/Client.cc:378-383 | a server that takes the command apart gets what was asked for, as far as it fits into 32 bits |
| `Clients.Client.GetBinlogEvent` | src/Protocols/MySQL/Client.cc:390-418 | the next event, without checksum unless it is the first; the state after success, end of stream and other errors |
| `Clients.Client.GetBinlogEvents` | src/Protocols/MySQL/Client.cc:390-418 | any number of calls return what the specification reads |
| `Clients.EventsRoundTrip` | src/Protocols/MySQL/Client.cc:390-418 | the k-th call returns the k-th event, with the checksum removed from all but the first, past any number of sequence wraps |
| `Clients.StreamEnds` | src/Protocols/MySQL/Client.cc:399-417 | after all events of a stream the next call reports the end of the stream for 0xFE and a bad packet for anything else |
| `Clients.ShortEventIsRefused` | src/Protocols/MySQL/Client.cc:404-414 | an event is refused as too short if and only if it is not the first and has no room for its checksum |
| `Binlogs.RowShrinks` | src/Protocols/MySQL/BinlogProcessor.cc:307-328 | a row has one value per column and takes at least its null mask |
| `Binlogs.ChangeMakesProgress` | src/Protocols/MySQL/BinlogProcessor.cc:445-467 | every turn of the row loop advances the cursor if there are columns |
| `Binlogs.NoColumnsNoProgress` | src/Protocols/MySQL/BinlogProcessor.cc:307-328 | a row of a table without columns is empty and takes no octets |
| `Binlogs.TurnsForever` | src/Protocols/MySQL/BinlogProcessor.cc:445-467 | so after any number of turns the loop is where it was, with that many empty rows |
| `Binlogs.TurnsStop` | src/Protocols/MySQL/BinlogProcessor.cc:445-467 | with columns the loop stops after at most one turn per octet and one more |
| `Binlogs.BytesAreConserved` | src/Protocols/MySQL/BinlogProcessor.cc:445-467 | the sizes of all images add up to the row area, and every image the event has holds one value per column |
| `Binlogs.LoopEndsIff` | src/Protocols/MySQL/BinlogProcessor.cc:445-467 | the row loop of the source, taken turn by turn, stops if and only if the table has columns or there is nothing to read; its result is that of the specification, which says that it diverges exactly if no number of turns stops it |
| `Binlogs.MetadataTable` | src/Protocols/MySQL/BinlogProcessor.cc:260-305 | for every one of the 256 type octets, how much metadata is expected or that the type is refused |
| `Binlogs.BuiltColumnsAreOk` | src/Protocols/MySQL/BinlogProcessor.cc:365-374 | every column built has exactly the metadata that the protocol defines for its type octet |
| `Binlogs.TableMapIsOk` | src/Protocols/MySQL/BinlogProcessor.cc:340-391 | so has every column of a table map that parses, given that a read past the end of a StringReader fails |
| `Binlogs.MetadataChecksAreDead` | src/Protocols/MySQL/BinlogProcessor.cc:90-258 | for such a column no invalid type options error is possible, the type is not T_NULL and a cell that is read is not NULL |
| `Binlogs.UnreadableType` | src/Protocols/MySQL/BinlogProcessor.cc:243-257 | a cell of a type outside the listed octets is refused whatever the octets are, and only such a cell gets that error |
| `Binlogs.NullsAreMarked` | src/Protocols/MySQL/BinlogProcessor.cc:307-328 | a value is NULL exactly where the mask says, and only in nullable columns; a row with any other cell of an unreadable type is not read |
| `Binlogs.ParsedRowsAreSound` | src/Protocols/MySQL/BinlogProcessor.cc:393-471 | with tables from table maps, a rows event never fails a metadata check; its sizes add up to the octets behind the presence masks; its images have one value per column, NULL only where allowed and other values only in columns of readable types |
| `Binlogs.PresenceIff` | src/Protocols/MySQL/BinlogProcessor.cc:436-443 | the presence masks pass if and only if they are complete and mark every column; otherwise the error is that of an absent column |
| `Binlogs.ExtraIff` | src/Protocols/MySQL/BinlogProcessor.cc:428-430 | the extra data of version 2 is read if and only if its length is at least two and it has come completely |
| `BinlogCodec.DateTimeRoundTripIff` | src/Protocols/MySQL/BinlogProcessor.cc:198-214 | a packed DATETIME2 is decoded to its fields if and only if the month is not zero; with month zero the year is one less, and the zero date is in the year 5041 |
| `BinlogCodec.TimeRoundTripIff` | src/Protocols/MySQL/BinlogProcessor.cc:222-240 | a packed TIME2 with hours below 1024 is decoded to its sign and fields if and only if it is not minus zero, which is decoded as zero |
| `BinlogCodec.FractionRoundTrip` | src/Protocols/MySQL/BinlogProcessor.cc:68-88 | fractional seconds of every precision are read back |
| `BinlogCodec.WidthRoundTrip` | src/Protocols/MySQL/BinlogProcessor.cc:146-163 | every STRING width below 1024 is recovered from its metadata, which is never that of an ENUM or SET |
| `BinlogCodec.WidthBits` | src/Protocols/MySQL/BinlogProcessor.cc:154-156 | for any metadata, the width is the low octet plus the inverted bits 4 and 5 of the high one |
| `BinlogCodec.CellRoundTrip` | src/Protocols/MySQL/BinlogProcessor.cc:90-258 | every value of every supported column type is read back and nothing behind it is touched |
| `BinlogCodec.Timestamp2SkipsFraction` | src/Protocols/MySQL/BinlogProcessor.cc:179-191 | a TIMESTAMP2 gives its little-endian seconds whatever its fraction is, which is skipped |
| `BinlogCodec.CellIsReadIff` | src/Protocols/MySQL/BinlogProcessor.cc:90-258 | for every type octet, all metadata and all octets, a cell is read if and only if it is there, and then exactly its octets are taken; a size that is negative as a signed char is refused |
| `BinlogCodec.RowRoundTrip` | src/Protocols/MySQL/BinlogProcessor.cc:307-328 | every row, with NULLs in nullable columns, is read back |
| `BinlogCodec.ChangeRoundTrip` | src/Protocols/MySQL/BinlogProcessor.cc:445-467 | both images of a change are read back, the one before first, with their sizes |
| `BinlogCodec.ChangesRoundTrip` | src/Protocols/MySQL/BinlogProcessor.cc:445-467 | any list of changes to a table with columns is read back in order |
| `BinlogCodec.HeaderRoundTrip` | src/Protocols/MySQL/BinlogProcessor.cc:393-396 | every event header is read back |
| `BinlogCodec.BuildRoundTrip` | src/Protocols/MySQL/BinlogProcessor.cc:365-374 | the concatenated metadata is dealt out to the columns it came from |
| `BinlogCodec.BuildIff` | src/Protocols/MySQL/BinlogProcessor.cc:365-374 | columns are built if and only if types, metadata and flags are exactly those of some columns, with nothing left over |
| `BinlogCodec.TableMapRoundTrip` | src/Protocols/MySQL/BinlogProcessor.cc:340-391 | every table map with columns of known types is read back, whatever trails it |
| `BinlogCodec.EventKinds` | src/Protocols/MySQL/BinlogProcessor.cc:398-419 | exactly the nine rows event codes are accepted, and kind, version and images are read off them correctly |
| `BinlogCodec.RowsEventRoundTrip` | src/Protocols/MySQL/BinlogProcessor.cc:393-471 | every rows event about a mapped table with columns, of any kind and version, is read back with its images and sizes in order |
| `BinlogCodec.HeadDecides` | src/Protocols/MySQL/BinlogProcessor.cc:421-443 | the reserved table id, an unmapped table, another number of columns and an absent column are refused, each with its own error |
| `BinlogCodec.WrongTypeIsRefused` | src/Protocols/MySQL/BinlogProcessor.cc:346-348 | an event of another type is refused by the table map and rows parsers, whatever it says |
| `BinlogCodec.EmptyTableDiverges` | src/Protocols/MySQL/BinlogProcessor.cc:445-467 | a concrete input on which the source never returns: the map of a table without columns and an insert into it with one octet behind its mask |
| `BinlogProcessors.ReadFractionalPart` | src/Protocols/MySQL/BinlogProcessor.cc:68-88 | moves the cursor behind the fraction for which the round trip holds |
| `BinlogProcessors.ReadCellData` | src/Protocols/MySQL/BinlogProcessor.cc:90-258 | returns and consumes what the specification of a cell says, including its errors |
| `BinlogProcessors.ReadRowData` | src/Protocols/MySQL/BinlogProcessor.cc:307-328 | the loop over columns returns and consumes what the specification of a row says |
| `BinlogProcessors.ReadRowChanges` | src/Protocols/MySQL/BinlogProcessor.cc:445-467 | the loop over rows, without any guard, watched for one turn per octet and one more; what it returns by then is what the specification says, and if it has not returned it never will |
| `BinlogProcessors.AssembleColumns` | src/Protocols/MySQL/BinlogProcessor.cc:365-374 | the loop over columns deals out the metadata and refuses leftovers |
| `BinlogProcessors.ReadPresence` | src/Protocols/MySQL/BinlogProcessor.cc:436-443 | accepts exactly masks without an absent column |
| `BinlogProcessors.CallKeepsTablesOk` | src/Protocols/MySQL/BinlogProcessor.cc:388-390 | the table invariant survives every call of every parser, also those that fail |
| `BinlogProcessors.BinlogProcessor.ParseTableMapEvent` | src/Protocols/MySQL/BinlogProcessor.cc:340-391 | the stored table is the parsed one, the position is that of the event, an error changes nothing; the invariant is kept |
| `BinlogProcessors.BinlogProcessor.ParseRowsEvent` | src/Protocols/MySQL/BinlogProcessor.cc:393-471 | returns what the specification says for the tables known, changes only the position and only on success |
| `BinlogProcessors.BinlogProcessor.ParseQueryEvent` | src/Protocols/MySQL/BinlogProcessor.cc:473-491 | a query event is taken apart as the specification says, and only then the position moves |
| `BinlogProcessors.BinlogProcessor.ParseRotateEvent` | src/Protocols/MySQL/BinlogProcessor.cc:493-506 | a rotation sets file name and position to those it announces, and an error changes neither |
| `BinlogProcessors.BinlogProcessor.ParseXidEvent` | src/Protocols/MySQL/BinlogProcessor.cc:508-519 | a commit is taken apart as the specification says, and only then the position moves |
| `BinlogProcessors.BinlogProcessor.ParseFormatDescriptionEvent` | src/Protocols/MySQL/BinlogProcessor.cc:521-595 | the format is accepted exactly if version, header length and the event lengths agree, and only then the position moves |
| `BinlogProcessors.BinlogProcessor.ParseUnknownEvent` | src/Protocols/MySQL/BinlogProcessor.cc:597-605 | any other event moves the position to its end |
| `BinlogProcessors.BinlogProcessor.Run` | src/Protocols/MySQL/BinlogProcessor.cc:340-605 | any run of calls of the seven parsers keeps the table invariant and gives the replies of the specification |
| `BinlogEvents.QueryRoundTrip` | src/Protocols/MySQL/BinlogProcessor.cc:473-491 | every query event is read back |
| `BinlogEvents.RotateRoundTrip` | src/Protocols/MySQL/BinlogProcessor.cc:493-506 | every rotation is read back |
| `BinlogEvents.XidRoundTrip` | src/Protocols/MySQL/BinlogProcessor.cc:508-519 | every commit is read back, whatever trails it |
| `BinlogEvents.OtherTypeIsRefused` | src/Protocols/MySQL/BinlogProcessor.cc:477-479 | an event of another type is refused by the query, rotate and xid parsers, whatever it says |
| `BinlogEvents.FormatDecides` | src/Protocols/MySQL/BinlogProcessor.cc:545-591 | a format description is accepted if and only if version, header length and event lengths are the expected ones; otherwise the first that is not gives the error |
| `BinlogEvents.LengthsAgreeIff` | src/Protocols/MySQL/BinlogProcessor.cc:527-568 | the comparison accepts exactly the lengths of the protocol for the types up to 40, as far as they are given |
| `BinlogEvents.FormatRoundTrip` | src/Protocols/MySQL/BinlogProcessor.cc:521-595 | every format description with the expected lengths is read back, its version string up to the first zero whatever follows |
| `BinlogLogs.TypeOctet` | src/Examples/MySQLBinlogReader.cc:60-61 | the type octet of an encoded event leads the reader to the parser that knows the event |
| `BinlogLogs.EventRoundTrip` | src/Protocols/MySQL/BinlogProcessor.cc:340-605 | every event is read back by the parser the reader picks, and leaves the processor with the table, file and position it should remember |
| `BinlogLogs.LogRoundTrip` | src/Protocols/MySQL/BinlogProcessor.cc:340-605 | any log of table maps, rows events, queries, rotations, commits, format descriptions and other events is read back event by event, rows under the table map in force |
| `Replication.Next` | src/Examples/MySQLBinlogReader.cc:57-179 | one turn of the reader loop gives the event to the parser for its type; a failure of the client or the parser is the failure of the turn |
| `Replication.Follow` | src/Examples/MySQLBinlogReader.cc:56-180 | from the packets of a server to the program: every event of the log, the first without checksum, arrives in order and unchanged, past sequence wraps and under every chunking, and the processor remembers what it should |
| `Replication.Replicate` | src/Examples/MySQLBinlogReader.cc:41-180 | the same from the request for the binlog on: the answer to the checksum query is consumed, and then the whole log arrives |

## Left out

- Results and exceptions of tasks: a task is done or not; what `result()` returns or rethrows is not modelled. Each task is awaited by one coroutine at a time, as the single slot requires; other coroutines may start and finish the tasks of a program but not await them, and they do not suspend on nothing.
- Tasks that an `all_limit` call finds already started count as awaited but not as its own: `NeverAboveLimit` is about the tasks the call started.
- `DetachedTask` and `DeferredFuture`; the library's own README promises deferred wakeups in line 31, while src/Future.hh:82 calls the undeferred `resume_awaiters`.
- The destructors of `Channel` and `Future` that throw while somebody waits, and their move operations.
- BaseIo.Read: a read that meets the end of the stream is never resumed by the source, and the contract says so.
- libevent, evbuffer and the kernel are the contract of `Socket`: one to the maximum number of octets per call, none only at the end of the stream or when nothing is offered. Sizes of 2^31 or more, which evbuffer_read takes as negative, are not modelled.
- `StringReader` comes from phosg, which is not part of this model; a read past its end is taken to fail. Allocation failures for absurd lengths appear as the same failure as a read past the end.
- Buffers.ReadExactlyAwaiter.OnReadReady: event registration is not modelled beyond whether the coroutine is resumed. `read_atmost`, `readln` and the other evbuffer wrappers are left out.
- Reserved bits and the length limit of control frames are not checked by the source, so they are not part of `IsMessage` either; the HTTP upgrade and the rest of the HTTP server and client are left out.
- `parse_value` and the date strings: a cell of a result set is its text. `rows_as_dicts` differs from the list form only in the container and is left out.
- Authentication, the text of ERR packets, payloads of 2^24 octets or more (lengths wrap, as in the source).
- BinlogCodec.CellRoundTrip: TIMESTAMP2 (the source skips its fraction and reads it little-endian), negative TIME2 values with a fraction, ENUM and SET columns whose size octet is 128 or more (the source passes a negative char as a size) and the column types that the source rejects are decoded as in the source but outside the round trip. Floats are their octets.
- BinlogCodec.RowsEventRoundTrip: tables without columns are outside it, since rows of such a table take no octets and the source loops forever on anything that follows (`Binlogs.LoopEndsIff`).
- BinlogProcessors.ReadRowChanges: a method cannot run forever, so `Diverges` is returned once the loop is known never to stop.
- BinlogProcessors.BinlogProcessor.ParseTableMapEvent: the returned event has no table information, as in the source, which only stores it.
- Clients.Client.ReadBinlogs: the random server id is a parameter.
- Replication.Next: what the reader prints is left out, and so is its query for the server's current position. The placeholder for the file name is a parameter of the processor.
- DNS, configuration, events, the memcache client and `parse_url_params`.
