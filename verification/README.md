# Verification of the file server

A Dafny model of a file server in C with counted per-file read/write locks, asynchronous
striped transfers, a binary framed protocol and a persistent file catalogue, with proofs of
what these parts promise together. `dafny verify dfyconfig.toml` checks the project.

## What is modelled

* `RwLock.dfy`, `Exclusion.dfy`: the lock of one file as a transition system. A step is one
  critical section of the file's mutex: a job arrives in `wait_lock` and is granted or goes to
  sleep, a signalled job resumes, or a finished stripe gives back a unit in
  `decrease_lock_cnt`. Granted jobs keep their place in the order of grants for ever and are
  signalled, holding some units, or finished. No lost wakeup, strict FIFO, bounded waiting,
  conservation of units, batch release and draining hold for every run. Mutual exclusion does
  not: a waiter leaves the queue when it is signalled, its counter rises when it resumes, and
  the condition is not looked at again in between. `Exclusion` says exactly on which runs no
  two conflicting jobs hold the lock together: those on which every sleeper that resumes finds
  the counters as the guard of `wait_lock` would have wanted them (clear runs). A second, stronger
  condition is that no step grants the lock over a conflicting sleeper (safe runs); runs in
  which every signalled job resumes first, the hand-off runs, are safe, and safe runs are clear.
* `Serial.dfy`, `HoldOrder.dfy`, `Schedules.dfy`, `SerialExactly.dfy`, `DirtyRead.dfy`: the same
  system joined with the bytes. Bytes of a transaction move one at a time, in any order, between
  its grant and its last completion. On safe runs every READ and GET returns the file after
  exactly the WRITEs and PUTs that arrived before it; on clear runs, after those that took the
  lock before it. Both conditions are exact: after a step that is not safe (or not clear), some
  transfers, along the run up to that step and a continuation without another such step, fit no
  serial order of the transactions at all.
* `Chain.dfy`, `FileLocks.dfy`, `MsgQueue.dfy`: the lock with its linked list of sleepers, the
  table of locks, a round of the completion thread, and the main thread's job queue, as
  classes updated in place that refine the transitions and plain sequences; the table runs
  every interleaving of critical sections on its files.
* `Stripes.dfy`, `Commands.dfy`: clamping in unsigned and in signed arithmetic, lock counts,
  the loops that cut ranges into 1 MB stripes and stripes into 128 KB blocks, and the command
  half of READ, WRITE, PUT and GET over catalogue and locks together.
* `Bytes.dfy`, `Transfer.dfy`, `Sessions.dfy`: block and stripe transfers whose operations take
  effect in any order, short reads at the end of a file, the reassembling loops of the client,
  and whole READ, WRITE, PUT and GET requests, and PUT followed by GET, with catalogue and lock.
* `Wire.dfy`, `Framing.dfy`: byte order, in-place swapping of messages, frames, the loops over
  short reads and writes, and sending a message that an earlier call has left swapped.
* `Catalogue.dfy`: search-or-add over the file array, the two writes that persist an addition,
  and the start from a meta file.

The size of a file is an `unsigned int` in the catalogue and an `int` in the client. A PUT of
a file of 2 to 4 GiB under a new name is refused but leaves its size catalogued, and a READ or
WRITE of that file then takes units that are never given back; `Commands.ConservationCanFail` gives the case and
`Commands.UnitsAreStripes` the exact condition.

The comments at lines 140 and 167 of `file_server/src/server/filemeta.c` say that a caller
waits while the file is being modified; the code looks only at the counters and the queue, so
it does not wait for a writer that has been signalled and has not resumed. The model follows
the code.

## Model

| member | source | states |
|---|---|---|
| RwLock.NoLostWakeup | file_server/src/server/filemeta.c:127-264 | On every interleaving: `rcnt` is the number of unfinished stripes of all readers, `wcnt` never exceeds those of the writers, and while anybody waits a counter is positive or a signalled job has yet to resume, and a step is enabled. |
| RwLock.Fifo | file_server/src/server/filemeta.c:139-260 | On every interleaving: grant decisions followed by the queue are the arrivals in order, for readers and writers together. |
| RwLock.UnitsConserved | file_server/src/server/filemeta.c:164-244 | On every interleaving: the units a granted job holds plus those it gave back are those it was granted, so it finishes after exactly as many completions as it has stripes. |
| RwLock.BoundedWait | file_server/src/server/filemeta.c:127-264 | On every interleaving and with any new arrivals: a waiter is granted, in its turn, after a number of completions and resumptions fixed by the work ahead of it. |
| RwLock.Drain | file_server/src/server/filemeta.c:127-264 | On every interleaving without arrivals: a run has at most the remaining work as its length, can go on exactly until then, and then nobody waits, everybody who arrived has been granted and finished, and no unit is outstanding. |
| Exclusion.HoldersExclusiveExactly | file_server/src/server/filemeta.c:160-191 | No two conflicting jobs hold the lock together at any moment of a run if and only if every sleeper that resumes on it finds no writer's unit outstanding and, if it is a writer, no reader's. |
| Exclusion.ClearCounting | file_server/src/server/filemeta.c:164-191 | After a clear run both counters are the unfinished stripes, never both positive, a writer's counter is its own and it holds alone, and both are zero exactly if nobody holds. |
| Exclusion.ExclusionExactly | file_server/src/server/filemeta.c:139-192 | About grants, sleepers included: no two conflicting jobs are granted and unfinished together on a run if and only if no step of it grants the lock over a conflicting signalled sleeper. |
| Exclusion.SafeIsClear | file_server/src/server/filemeta.c:160-191 | A run without an unsafe grant has only clear resumptions. |
| Exclusion.ClearButUnsafe | file_server/src/server/filemeta.c:160-164 | The converse fails: a reader that slipped in can finish before the sleeper resumes. |
| Exclusion.HandOffIsSafe | file_server/src/server/filemeta.c:160-191 | Runs on which every signalled job resumes before any other step are safe. |
| Exclusion.MutualExclusion | file_server/src/server/filemeta.c:139-192 | After a safe or hand-off run: `rcnt` and `wcnt` are never both positive, at most one writer is active and alone, both counters equal the unfinished stripes, and the lock is free when nobody is active. |
| Exclusion.BatchRelease | file_server/src/server/filemeta.c:244-261 | In every state, a unit that empties its counter signals exactly the first writer or exactly the longest reader prefix of the queue, and any other unit signals nobody. |
| Exclusion.LastReaderFindsWriter | file_server/src/server/filemeta.c:141-141 | After a safe or hand-off run, a reader that gives back a unit finds a writer at the head or nobody. |
| Exclusion.ExclusionCanFail | file_server/src/server/filemeta.c:160-164 | A five-step run without the hand-off after which a reader and a writer both hold the lock. |
| RwLock.KeptUnitBlocksWriters | file_server/src/server/filemeta.c:168-168 | On every interleaving: a reader that gives back fewer units than it holds keeps every later writer waiting. |
| RwLock.CountersAfter | file_server/src/server/filemeta.c:139-192 | Every step in any state, on the counters themselves: a reader adds its units, a writer's units replace whatever `wcnt` was, a completion takes one off its own counter, a job that goes to sleep changes neither. |
| RwLock.WriteCounter | file_server/src/server/filemeta.c:191-191 | After every run `wcnt` is the unfinished stripes of all writers less everything that writers overwrote on the way. |
| RwLock.CounterCanEndNegative | file_server/src/server/filemeta.c:187-191 | A third writer slips in before the signalled one resumes, and the drained lock ends with `wcnt` at -1. |
| Serial.Serializable | file_server/src/server/wthr.c:317-347 | On safe and hand-off runs each finished read returns its range of the file after exactly the writes that arrived before it, whatever the order of bytes and completions, and the final file is the serial one in arrival order. |
| Serial.JobIsLockCount | file_server/src/server/wthr.c:45 | The units a transaction takes in the model are the lock count the server computes. |
| HoldOrder.ClearIsSerial | file_server/src/server/filemeta.c:160-191 | On every clear run, safe or not, reads and the final file are those of the serial execution in the order in which the lock was taken. |
| SerialExactly.SerializableSomehowExactly | file_server/src/server/filemeta.c:160-191 | A schedule of the lock has only clear resumptions if and only if all transfers along any part of it and then clear steps, whatever their ranges and contents and the order of bytes, are serial in some order. |
| SerialExactly.UnclearTears | file_server/src/server/filemeta.c:160-160 | After any run, a resumption that is not clear can be followed by clear steps only and end with reads and a file that no order of the transactions explains. |
| SerialExactly.SerializableExactly | file_server/src/server/filemeta.c:139-192 | A schedule of the lock has no unsafe grant if and only if all transfers along any part of it and then safe steps are serial in the order of arrival, and if and only if they are serial in any order. |
| SerialExactly.UnsafeTears | file_server/src/server/filemeta.c:255-256 | After any run, an unsafe grant can be followed by safe steps only and end with reads and a file that no order of the transactions explains. |
| SerialExactly.Realize | file_server/src/server/wthr.c:317-347 | Every schedule of the lock is the schedule of some run of the server with transfers. |
| SerialExactly.SafeDrain | file_server/src/server/filemeta.c:127-264 | From every state the lock can drain without an unsafe grant. |
| SerialExactly.ClearDrain | file_server/src/server/filemeta.c:127-264 | From every state the lock can drain without an unclear resumption. |
| DirtyRead.SerializabilityCanFail | file_server/src/server/filemeta.c:255-256 | A run without the hand-off on which a finished READ returns bytes that no point of the serial execution shows. |
| Chain.FollowsList | file_server/src/server/filemeta.h:20-25 | Following `next` from the head visits the list's nodes in order and then reaches null: the list is acyclic and ends at the tail. |
| FileLocks.FileLock.constructor | file_server/src/server/filemeta.c:24-31 | A new entry's lock is free and has no waiters. |
| FileLocks.FileLock.WaitLock | file_server/src/server/filemeta.c:137-192 | The first critical section of `wait_lock` performs the Arrive transition; on the fields, the caller sleeps exactly under the source's condition, and otherwise a reader adds its units and a writer sets the counter to its own. |
| FileLocks.FileLock.Append | file_server/src/server/filemeta.c:142-157 | Linking a waiter behind the tail appends it to the queue. |
| FileLocks.FileLock.Hold | file_server/src/server/filemeta.c:164-191 | On the fields: a reader adds its units to `rcnt`, a writer sets `wcnt` to its own whatever it was, and the list stays. |
| FileLocks.FileLock.DecreaseLockCnt | file_server/src/server/filemeta.c:242-263 | Giving back a unit performs the Release transition; on the fields, its own counter falls by one, and waiters are signalled, from the front of the queue, exactly if it is then zero and somebody waits. |
| FileLocks.FileLock.SignalBatch | file_server/src/server/filemeta.c:249-260 | Exactly one batch of waiters is removed and returned, in order. |
| FileLocks.FileLock.SignalWhile | file_server/src/server/filemeta.c:249-260 | The do-while loop stops after the first waiter that is no reader or is not followed by one. |
| FileLocks.FileLock.PopHead | file_server/src/server/filemeta.c:251-259 | Unlinking the head drops the first waiter. |
| FileLocks.FileTable.WaitLock | file_server/src/server/filemeta.c:127-160 | An index that is not catalogued is refused without effect; otherwise only that file's lock changes. |
| FileLocks.FileTable.Resume | file_server/src/server/filemeta.c:160-197 | A signalled sleeper takes its units on its own file's lock; no other lock and no waiter changes. |
| FileLocks.FileTable.Replay | file_server/src/server/filemeta.c:127-264 | Any enabled critical sections on the files of a table, in any order, leave each lock in memory as the transition system has it. |
| FileLocks.FilesAreIndependent | file_server/src/server/filemeta.c:135-137 | What happens on one file of a table is a run of that file's lock alone, so everything proved of runs holds for each file. |
| FileLocks.FileTable.DecreaseLockCnt | file_server/src/server/filemeta.c:232-264 | An index that is not catalogued is ignored; otherwise only that file's lock changes. |
| FileLocks.FileTable.Completions | file_server/src/server/wthr.c:485-503 | One round of the completion thread releases one unit for each completed operation, in order. |
| FileLocks.OneUnitEach | file_server/src/server/wthr.c:494-499 | Over a round, a file's counters fall by exactly its completed reads and its completed writes. |
| MsgQueues.MsgQueue.constructor | file_server/src/server/msg_queue.c:20-25 | The queue starts empty. |
| MsgQueues.MsgQueue.QueueSize | file_server/src/server/msg_queue.c:27-29 | The stored size is the number of queued elements. |
| MsgQueues.MsgQueue.Enqueue | file_server/src/server/msg_queue.c:31-48 | Appends at the end; the pointers stay those of a list of the stored size. |
| MsgQueues.MsgQueue.Dequeue | file_server/src/server/msg_queue.c:50-64 | Removes and returns the oldest element, or nothing from an empty queue. |
| Stripes.ServerClampExactly | file_server/src/server/wthr.c:39-43 | For every 32-bit offset the wrapping clamp grants exactly the part of the range inside the file if and only if the range's end does not wrap and the offset is at most 2^31 past the end of the file. |
| Stripes.ServerClampIs | file_server/src/server/wthr.c:39-39 | For all operands the server's clamp is the 32-bit value of the source's conditional expression. |
| Stripes.ClampAgreement | file_server/src/client/client_proc.c:104-108 | For every offset and length of a client and every catalogued size the server's clamp is right; the client's agrees with it if and only if its sum does not overflow and the size fits an `int`. |
| Stripes.ClientClampExactly | file_server/src/client/client_proc.c:278-278 | The client's clamp is the smaller of the length and what is left of the file, defined exactly when no `int` overflows. |
| Stripes.StripeCount | file_server/src/server/wthr.c:45 | The rounded-up division is the number of pieces a range is cut into. |
| Stripes.LockCountExactly | file_server/src/server/wthr.c:211 | The lock count is the number of stripes exactly up to 2^31 - 2^20 bytes and overflows beyond. |
| Stripes.ReadWriteConservation | file_server/src/client/client_proc.c:278-287 | A range the server granted lies inside the file and has as many stripes as units were taken; the client transfers it if and only if its sum does not overflow and the size fits an `int`, and with a larger size it abandons the range. |
| Stripes.PutGetConservation | file_server/src/client/client_proc.c:417-424 | Lock count, message count and number of stripes agree for whole files; the client's count overflows one size earlier. |
| Stripes.TilesShape | file_server/src/server/wthr.c:71-105 | The pieces of a range are as many as computed, none is empty or too long, and they add up to the range. |
| Stripes.TilesPartition | file_server/src/server/wthr.c:312-347 | Every byte of the range, and no other, is in exactly one piece. |
| Stripes.StripeAt | file_server/src/server/wthr.c:317-347 | Stripe k starts k megabytes into the range and only the last may be short. |
| Stripes.ServerStripes | file_server/src/server/wthr.c:71-105 | The server's read loop submits exactly the stripes of the range. |
| Stripes.ClientWriteStripes | file_server/src/client/client_proc.c:283-318 | The WRITE client sends exactly the stripes of the range, each from its place in the buffer. |
| Stripes.ClientPutStripes | file_server/src/client/client_proc.c:418-466 | The PUT client's counted loop sends exactly the stripes of the file. |
| Stripes.AioBlocks | file_server/src/client/fileio.c:59-89 | The block loop cuts a stripe into exactly its AIO blocks. |
| Stripes.StripeFitsAio | file_server/src/client/fileio.c:61-63 | Every stripe of every file satisfies the two assertions on the number of blocks. |
| Commands.UnitsAreStripes | file_server/src/server/wthr.c:39-52 | For every READ, WRITE, PUT and GET that takes the lock, the units are the stripes submitted afterwards, on whichever side the loop runs, if and only if the catalogued size and the end of the range fit an `int` (READ, WRITE) or the client can count the stripes (PUT). |
| Commands.ConservationCanFail | file_server/src/client/client_proc.c:102-108 | After a refused PUT of 3 GiB a READ of byte 0 takes a unit for which nothing is submitted. |
| Commands.LockedExactly | file_server/src/server/wthr.c:29-49 | READ and WRITE get the lock exactly if the file is catalogued and the range meets it, within what the count can express; they never change the catalogue. |
| Commands.AnswerExactly | file_server/src/server/wthr.c:193-219 | The catalogue and the answer of READ, WRITE, PUT and GET in every case: not catalogued, catalogue full, no bytes, too many to count, or locked with the units that just suffice; PUT adds a new name as it was sent, also when it is then refused. |
| Commands.LocksExactly | file_server/src/server/wthr.c:137-138 | The locks after a command, in every state of them: READ and GET ask as readers, WRITE and PUT as writers; in the way of a busy lock or a queue they wait behind it, else they hold it at once, and no other lock changes. |
| Commands.SubmittedExactly | file_server/src/server/wthr.c:71-105 | What is submitted afterwards is the stripes of exactly the bytes the command is about, nothing if the client finds the size negative, and undefined where its `int` overflows. |
| Commands.GetSizeExactly | file_server/src/server/wthr.c:280-293 | After an accepted PUT and any history of the catalogue, a GET of that name is granted the size that was put if and only if the name was new or catalogued with that size. |
| Commands.EmptyPutStillRegisters | file_server/src/server/wthr.c:198-209 | A PUT of an empty file under a new name is refused and leaves the name catalogued. |
| Commands.FileServer.Register | file_server/src/server/filemeta.c:99-119 | Search-or-add keeps one lock for each entry and gives a new entry a free one. |
| Commands.FileServer.Settle | file_server/src/server/wthr.c:36-53 | A found file's request is clamped, priced and queued on that file's lock only, as the specification that AnswerExactly and LocksExactly determine. |
| Commands.FileServer.Command | file_server/src/server/wthr.c:193-219 | A command leaves the catalogue, the answer and all locks as AnswerExactly and LocksExactly say, error answers included. |
| Transfer.AnyOrder | file_server/src/client/client_proc.c:580-606 | Copying the pieces of a transfer in any order is the one write of all its data. |
| Transfer.WriteFile | file_server/src/client/fileio.c:124-192 | Blocks written in any order write the whole stripe and nothing else. |
| Transfer.ReadFile | file_server/src/client/fileio.c:54-122 | Blocks read in any order fill the front of the buffer with the part of the range that lies in the file, and leave the rest. |
| Transfer.ServerRead | file_server/src/server/wthr.c:312-347 | The replies to a READ or GET are the stripes of the range, in some order; beyond the end of the file they carry what their buffers held. |
| Transfer.ReceiveGet | file_server/src/client/client_proc.c:580-614 | For every order of the replies the loop ends exactly when all have been used, and the local file holds the server's bytes in front of whatever it held beyond them. |
| Transfer.ReceiveRead | file_server/src/client/client_proc.c:128-157 | The same for the READ buffer. |
| Transfer.WriteRange | file_server/src/client/client_proc.c:287-326 | The stripes of a WRITE put the front of the buffer at its offset in the server's file, one message a stripe. |
| Transfer.Put | file_server/src/client/client_proc.c:417-466 | PUT writes the local file's bytes to the front of the server's file. |
| Transfer.PutThenGet | file_server/src/client/client_proc.c:417-606 | The transfers of PUT and then GET of the same size are the identity, whatever order operations complete in. |
| Sessions.PutFile | file_server/src/server/wthr.c:193-255 | A PUT is refused and moves no byte, or puts its bytes in front of the server's file and gives back every unit it took. |
| Sessions.GetFile | file_server/src/server/wthr.c:265-350 | A GET is refused and moves no byte, or fetches the catalogued size and gives back every unit it took. |
| Sessions.WriteFile | file_server/src/client/client_proc.c:275-326 | A WRITE is refused and moves no byte; or writes the part of the buffer that lies in the file and gives back every unit it took; or, for a catalogued size beyond `int`, is abandoned with its units taken. |
| Sessions.ReadFile | file_server/src/client/client_proc.c:101-157 | A READ likewise: refused, served into the front of the buffer with every unit given back, or abandoned with its units taken. |
| Sessions.PutThenGet | file_server/src/server/filemeta.c:103-117 | With catalogue and lock in between: after an accepted PUT the GET returns the bytes that were put if the name was new or catalogued with that size, and another size otherwise; the lock is free again. |
| Wire.HtonlIsBigEndian | file_server/src/common/msg.c:46-54 | On hosts of both byte orders a converted field lies in memory most significant byte first. |
| Wire.StoreDigits | file_server/src/common/msg.c:46-46 | A number lies in memory with its most significant byte first on a big-endian host and last on a little-endian one. |
| Wire.HtonlIsNtohl | file_server/src/common/msg.c:88-90 | The two conversions are the same function, so the receiving side may use `htonl`. |
| Wire.MsgBuf.SerializeHeader | file_server/src/common/msg.c:48-54 | Swaps the five header fields in place. |
| Wire.MsgBuf.SerializeBody | file_server/src/common/msg.c:64-77 | Swaps the converted fields of a command or data body in place. |
| Wire.MsgBuf.SerializeMsg | file_server/src/common/msg.c:94-99 | Swaps header and body by the type read before the header is swapped. |
| Wire.MsgBuf.DeserializeHeader | file_server/src/common/msg.c:56-62 | Swaps the five header fields back. |
| Wire.MsgBuf.DeserializeBody | file_server/src/common/msg.c:79-92 | Swaps the body back, with `htonl` for `reqlen`. |
| Wire.HeaderRoundTrip | file_server/src/common/msg.c:48-62 | Headers survive the journey between hosts of any two byte orders. |
| Wire.BodyRoundTrip | file_server/src/common/msg.c:64-92 | Bodies do too, except that a command's `offset` and `reqlen` are read in the receiver's order. |
| Wire.RoundTripExactly | file_server/src/common/msg.c:64-92 | A message arrives unchanged if and only if it is a data message, the byte orders agree, or both unconverted fields read the same backwards. |
| Wire.CommandCanChange | file_server/src/common/msg.c:64-69 | A command for byte 1 arrives at a host of the other byte order as one for byte 2^24. |
| Framing.SockSend | file_server/src/common/sock.c:75-87 | Short writes are made up for: all bytes are sent unless a call fails, and a front of them otherwise. |
| Framing.SockRecv | file_server/src/common/sock.c:90-102 | Short reads are made up for: the next bytes of the stream, or all there are, unless a call fails. |
| Framing.FrameBytes | file_server/src/common/msg.h:53-72 | Every byte of every frame: the header fields in the order of the struct and the converted fields most significant byte first, name and owner as they are, a command's `offset` and `reqlen` in the sender's order, then the payload. |
| Framing.SendMsg | file_server/src/common/msg.c:109-142 | Puts the whole frame on the stream, or a proper front of it with -1, and leaves the message swapped; a type out of range or a negative length sends nothing. |
| Framing.LeftBehind | file_server/src/common/msg.c:115-123 | What a sent message is afterwards: itself on a big-endian host; on a little-endian one a type that is refused (data) or a negative length (command), and converting twice restores it. |
| Framing.SendAgain | file_server/src/client/client_proc.c:60-94 | Sending the same struct again sends it on a big-endian host, and on a little-endian host sends nothing and fails. |
| Framing.RecvMsg | file_server/src/common/msg.c:146-212 | However the stream is fragmented, the result and the rest of the stream are those that DecodeExactly determines; the message is converted in place. |
| Framing.DecodeExactly | file_server/src/common/msg.c:159-211 | The outcome for every stream of bytes, malformed ones included: what is too short, of a bad type or undefined, and otherwise each field of the message from its bytes. |
| Framing.DecodeFrame | file_server/src/common/msg.c:159-211 | A frame in front of anything decodes to its message and payload and leaves the rest. |
| Framing.DecodeCutFrame | file_server/src/common/msg.c:161-195 | A frame cut short yields no message. |
| Framing.ConversationRoundTrip | file_server/src/common/msg.c:109-212 | Every list of initialised messages is recovered in order from its frames, which are consumed exactly. |
| Framing.CutConversation | file_server/src/common/msg.c:146-212 | A stream cut anywhere yields exactly the messages whose frames are complete. |
| Framing.WholeFramesFit | file_server/src/common/msg.c:159-195 | The frames counted as complete fit and the next one does not. |
| Framing.SendAll | file_server/src/common/msg.c:109-142 | Sending one initialised message after the other puts all frames on the stream, or a proper front of them. |
| Framing.RecvAll | file_server/src/common/msg.c:146-212 | Receiving until there is no message gets what decoding the stream gets, and never more when a call fails. |
| Catalogue.LookupKeeps | file_server/src/server/filemeta.c:99-119 | Search-or-add keeps names apart and the bound, returns an index with that name, and fails exactly for a missing name that is not or cannot be added. |
| Catalogue.LookupExactly | file_server/src/server/filemeta.c:99-119 | A name that is there is found where it is and nothing changes; a new one is appended exactly as it was sent unless 999 are there. |
| Catalogue.AppendOnly | file_server/src/server/filemeta.c:16-44 | Over every history of calls entries are only appended, names stay distinct, and at most MAX_FILE - 1 are kept. |
| Catalogue.IndexIsStable | file_server/src/server/filemeta.c:99-119 | A name keeps its index through every later history, and its entry is the one found, or the one sent if the name was new. |
| Catalogue.RefinesMap | file_server/src/server/filemeta.c:103-116 | Linear search-or-add gives a map's answer and makes a map's change. |
| Catalogue.ListIsStable | file_server/src/server/wthr.c:367-373 | The entries below a count reported earlier are those of that moment, whatever is added since. |
| Catalogue.AdditionIsAtomic | file_server/src/server/filemeta.c:33-38 | After either write of an addition the meta file decodes to the old catalogue or to it with the new entry. |
| Catalogue.FileList.constructor | file_server/src/server/filemeta.c:46-97 | A start takes the entries of the meta file as they are and resets all lock state; the result is a catalogue if and only if the count leaves a slot free and the names differ. |
| Catalogue.FileList.PersistAddition | file_server/src/server/filemeta.c:35-37 | The slot is written before the count. |
| Catalogue.FileList.FillSlot | file_server/src/server/filemeta.c:23-33 | A new slot has a free lock and the given file info. |
| Catalogue.FileList.AddFile | file_server/src/server/filemeta.c:16-44 | Appends the entry exactly as it was sent, in memory and on disk, or fails when the array is full; both new images of the meta file decode to the catalogue before or after. |
| Catalogue.FileList.GetFileIndex | file_server/src/server/filemeta.c:99-119 | The search loop and the addition leave in memory and on disk what LookupExactly says; a restart at any moment of the call finds the catalogue before or after it. |
| Catalogue.FileList.GetFileMeta | file_server/src/server/filemeta.c:121-125 | The entry at an index below the count, and nothing beyond. |
| Catalogue.FileList.GetFileCnt | file_server/src/server/filemeta.c:303-309 | The number of entries. |
| Catalogue.FileList.ListEntries | file_server/src/server/wthr.c:379-396 | The reply to LIST is exactly the first entries up to the given count; a count beyond the catalogue's dereferences a null pointer. |

## Left out

- Serial.Serializable: the file has its catalogued size throughout and transactions lie inside it; the shorter file on disk before the first PUT of a new name has finished, and a PUT of another size to an existing name, are not modelled there.
- FileLocks.FileLock.WaitLock: the counters are unbounded integers; overflow of `rcnt` by the sum of many readers is not modelled.
- FileLocks.FileLock.WaitLock: spurious wakeups of `pthread_cond_wait` are assumed away, and a negative file index, which the source does not exclude, is not modelled.
- Transfer.ReadFile: the timeout after three seconds is not modelled.
- Framing.RecvMsg: a message smaller than the header or the struct of its type, or of a negative type, ends in an outcome marked undefined, because the source then uses memory it has not received or passes it on unconverted; a payload sent to a caller that expects none is not modelled.
- Framing.SendMsg: a message that is neither freshly initialised nor left behind by an earlier call is not modelled.
- Catalogue.FileList.constructor: a count beyond the array, for which the source writes outside it, is not modelled; the time stamp is a parameter.
- Sessions.PutThenGet, and the other requests of `Sessions`: one client alone; catalogue and locks are values there, and the classes that keep them are proved against the same functions.
- Failing opens and failing submissions of asynchronous operations, which return an error without giving back lock units.
- The completion thread's use of a reply that the main thread may already have converted and freed; the model uses the value the worker stored.
- Progress of the whole server: workers block in `wait_lock`, and queued jobs are handed out only when a worker replies; what is proved is progress of a lock given completions.
- Sockets, `poll`, pipes, threads and signals, the slot table of clients, reply routing, logging, progress bars and reading commands from the terminal.
- Freeing memory, failing allocation, and the functions without effect (`lock_timeout`, `release_lock`, the monitor thread).
- Names are strings without a terminator; names that fill their 300-byte field are not modelled.
