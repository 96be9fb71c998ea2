# Verified model of the mcs host side

mcs runs a Linux host next to an RTOS on the same machine.  This project models six parts of its
host side in Dafny and proves what they guarantee, over all inputs and all runs:

- **Debug ring** (`Ring`, `RingFifo`, `RingRuns`, `RingBuffer`, `RingSession`, `RingProtocol`): a
  lock-free byte ring in memory shared with the RTOS, as a value, as bytes updated in place, and as
  an interleaving of writer and reader steps.
- **RPC worker pool** (`RpcQueue`, `RpcWorkers`, `RpcTurn`, `RpcDrops`): a circular queue under a mutex
  and a condition variable, any number of workers and producers, every schedule, spurious wakeups included.
- **User messages** (`UserMsg`, `UserProgress`): any number of processes, one spinlock, two
  semaphores, one shared record, micad and the RTOS.
- **Wire codecs** (`Wire`, `Hostent`, `HostentCodec`, `Addrlist`, `AddrlistCodec`).
- **Service rendezvous and recovery** (`Rendezvous`, `MicaClient`, `EptTable`, `Recovery`).
- **Memory layout** (`Masks`, `PageMap`, `ShmPool`, `VdevLayout`, `VdevRooms`,
  `RbufDevice`).

`Words`, `Memory`, `Tally` and `Errno` hold 32-bit words, byte copies, sums, bags and images of
sequences, and error numbers.

## Where the code falls short of the plain property

Where the property depends on the input, the condition is exact: what lies outside it fails, and
where one failing run is enough, the proof constructs it.

- The ring is a FIFO only until 2^32 bytes have gone through it, unless its size divides 2^32
  (`RingRuns.QueueExactly`, `RingProtocol.FifoExactly`).  Cells are `counter % size` on a counter
  that has already wrapped, so at the wrap they jump by `2^32 % size`.  The size is the half region
  less a 16-byte header, so it is rarely a power of two.
- A request dropped because the queue is full is never freed.  For every capacity a run drops one
  (`RpcDrops.DropReachable`), and at rest every request was freed exactly when none met a full queue
  (`RpcDrops.FreedExactly`).
- A caller that fails to map core memory returns with the lock held.  A call can still succeed
  exactly when its arguments are accepted and no call has failed that way
  (`UserProgress.FinishExactly`); three steps lead to the failure (`UserProgress.FailureReachable`).
- A hostent decodes to what was encoded only while neither list reaches 2^15 entries
  (`Hostent.RoundTripExactly`); the 432-byte reply buffer is safe (`Hostent.ReplyBufferSafe`).
- Decoding an address list that is given back at its exact length is undefined unless its last entry
  carries a canonical name: every exit for lack of room frees a list whose newest node has a next
  and a name pointer that were never set.  An entry that announces a length without an address is
  never read back (`Addrlist.RoundTripExactly`, `Addrlist.ExactFit`).
- Announcing before registering differs from the reverse for names of 32 characters or more, which
  are cut while pending (`Rendezvous.OrderFreeExactly`).
- The endpoint table is rewritten after each single bind, so a second crash during recovery leaves
  only the endpoints bound by then; nothing is lost exactly when none or all of the restored ones
  were back (`Recovery.SecondCrashExactly`, `Recovery.SecondCrashLoses`).  The rewrite first clears
  the table, so a crash inside it leaves only the entries made by then
  (`Recovery.RewriteCrashExactly`, `Recovery.CutShortExactly`).
- A region is inside its pool exactly when its end does not overflow (`ShmPool.GrantedInside`); a
  length near 2^64 is granted and moves the free pointer back (`ShmPool.WrappingGrant`).
- Pools of two CPUs coincide when the CPU numbers agree modulo 2^15 (`ShmPool.PoolsApartExactly`).
- A recorded vring address is 32 bits wide; replay works exactly when that loses nothing that
  matters (`VdevLayout.ReplayExactly`, `VdevLayout.ReplayElsewhere`).
- The page range handed to `mmap` is the smallest cover exactly when one 64-bit sum does not overflow
  (`PageMap.SmallestCoverExactly`).
- `ring_buffer_pair_init` accepts a negative length and stores it as a huge one
  (`RingSession.RingBufferPairInit`).
- A debug region is split inside the pool exactly when its length neither overflows 64 bits nor halves
  to a negative `int`; 2^64 - 2 bytes are granted and put a header before the pool
  (`RbufDevice.PlacedExactly`, `RbufDevice.WildLength`).
- `setup_rbuf_dev` reports success although the rings were refused for being too short
  (`RbufDevice.SetupRbufDev`).

## Assumptions

- Memory is sequentially consistent; barriers and cache maintenance are not modelled.  An entry of the
  endpoint table counts once its number is stored, after its fields.
- A condition signal wakes one blocked worker if there is one; further wakeups are separate steps.
- A session of user messages starts fresh (semaphores and lock zero, greeting sent) and is never
  unbound.  The RTOS ignores the greeting and answers every other message once, with any reply of at
  most 1 MiB.
- One announcement or registration is one atomic step of one client.  Matching depends on the name.
  `rpmsg_create_ept` succeeds, keeps a given local address, and otherwise takes one from `alloc`.
- `vring_size` is any function of number and alignment.  What `mmap` returns is a parameter.
  Address translation is base plus offset with a range check.  In `VdevLayout.Alike` a mapped pool
  ends at least 2^32 below the top of the 64-bit address space, as user-space mappings do.
- Buffer sizes are true: a stated capacity does not exceed the memory behind it, strings are
  terminated, an address has the announced length, and encoded sizes fit in an `int`.

## Model

| member | source | states |
|---|---|---|
| Ring.CopyInCells | library/rbuf_device/ring_buffer.c:72-88 | the two-part copy fills exactly the cells from the offset on, in order, going round the end, and leaves every other cell |
| RingFifo.PutAppends | library/rbuf_device/ring_buffer.c:95-107 | a write with no counter wrap between the oldest unread byte and the free cell appends the longest prefix that fits and keeps every unread byte |
| RingFifo.PutIsQueueExactly | library/rbuf_device/ring_buffer.c:95-107 | for every ring state: all writes act as on a queue if and only if the ring is full, empty, not straddling the wrap, or of a size dividing 2^32 |
| RingFifo.TakeRemoves | library/rbuf_device/ring_buffer.c:142-167 | a read returns the oldest bytes; if `out` does not cross the wrap with bytes left, exactly the rest remains |
| RingFifo.TakeIsQueueExactly | library/rbuf_device/ring_buffer.c:142-167 | for all counters, size and request: every data area is read as a queue if and only if that read does not carry `out` over the wrap with bytes left |
| RingRuns.RunMatches | library/rbuf_device/ring_buffer.c:58-167 | any run of reads and writes from any consistent state returns, call by call, what a bounded queue returns, if the size divides 2^32 or the bytes its calls report as written bring the total to at most 2^32; writes refused by a full ring count nothing |
| RingRuns.QueueExactly | library/rbuf_device/ring_buffer.c:58-167 | a cleared ring equals the bounded queue over every run that writes at most `budget` bytes if and only if the size divides 2^32 or the budget is at most 2^32 |
| RingBuffer.RingInit | library/rbuf_device/ring_buffer.c:10-17 | counters zero and length stored for every length, 12 header bytes changed; if the length fits, memory then holds a cleared ring over the old data |
| RingBuffer.KfifoCopyIn | library/rbuf_device/ring_buffer.c:72-88 | the two memcpys on bytes in place are the value-level copy; header and everything outside the data area unchanged |
| RingBuffer.KfifoIn | library/rbuf_device/ring_buffer.c:58-107 | the ring in memory and the count returned are those of the value-level write; nothing outside the ring changed |
| RingBuffer.KfifoCopyOut | library/rbuf_device/ring_buffer.c:118-134 | returns the bytes from the offset on, going round the end |
| RingBuffer.KfifoOutPeek | library/rbuf_device/ring_buffer.c:142-153 | returns the longest available prefix up to the request and changes nothing |
| RingBuffer.KfifoOut | library/rbuf_device/ring_buffer.c:161-167 | the ring in memory and the bytes are those of the value-level read; only counters changed |
| RingBuffer.RingBufferRead | library/rbuf_device/ring_buffer.c:180-183 | the same for a signed length, a negative one asking for everything |
| RingBuffer.RingUntouched | library/rbuf_device/ring_buffer.c:72-134 | a change confined elsewhere leaves header, data and meaning of a ring as they were |
| RingSession.RingBufferWrite | library/rbuf_device/ring_buffer.c:169-178 | for every reader schedule: bytes in the ring before plus the written part of the buffer equal bytes read plus bytes in the ring now; if the reader takes at least one byte before each pass, a byte goes in on each pass |
| RingSession.PassStep | library/rbuf_device/ring_buffer.c:173-176 | one read and one write of the loop conserve the stream, and the write makes progress whenever the reader asked for a byte |
| RingSession.PairRun | library/rbuf_device/ring_buffer.c:72-183 | over any mix of calls on two rings that lie apart, each answers as if it were alone and nothing outside the two is written |
| RingSession.RingBufferPairInit | library/rbuf_device/ring_buffer.c:19-27 | refused without any write exactly for a NULL address or a half of length 0 to 16; else two cleared rings filling their halves, clear of each other, over the old data, or for a negative length two headers with a huge length |
| RingProtocol.StepKeeps | library/rbuf_device/ring_buffer.c:58-183 | every step of writer or reader, acting on a stale counter, keeps the invariant of stream, cells, copies in progress and completed calls |
| RingProtocol.InterleavingsAreFifo | library/rbuf_device/ring_buffer.c:58-183 | in every interleaving within the wrap condition: received is a prefix of sent, unread bytes are in place, and sent is the returned writes whole and in order plus part of the running one |
| RingProtocol.SentIsPassed | library/rbuf_device/ring_buffer.c:169-178 | in every interleaving of any length, with the buffers passed to the write calls in order: the calls returned are all of them, or all but the running one, and the bytes sent are those of the returned calls in order followed by a prefix of the running one |
| RingProtocol.FifoExactly | library/rbuf_device/ring_buffer.c:58-183 | every interleaving committing at most `budget` bytes is FIFO if and only if the size divides 2^32 or the budget is at most 2^32 |
| RingProtocol.BrokenInterleaving | library/rbuf_device/ring_buffer.c:78-105 | otherwise an interleaving of 2^32 + 1 bytes exists that delivers a byte out of turn |
| RingProtocol.NeverStuck | library/rbuf_device/ring_buffer.c:95-183 | in every reachable state each side has a step of its own, with no condition on sizes |
| RingProtocol.PassProgresses | library/rbuf_device/ring_buffer.c:95-107 | from every reachable state and whatever the reader does in between, a pass publishes exactly the smaller of the rest and what was free at the load, so with anything free what is left strictly shrinks |
| RingProtocol.ReadTakes | library/rbuf_device/ring_buffer.c:142-167 | from every reachable state and whatever the writer does in between, a read adds to what was received exactly the smaller of its length and the bytes unread at the load |
| RpcQueue.FullMeans | mica/micad/services/rpc/rpc_workers.c:44-44 | the modular test for full holds if and only if `size - 1` requests are queued |
| RpcQueue.BetweenPush | mica/micad/services/rpc/rpc_workers.c:48-51 | storing at the tail and stepping it round appends to the queued requests |
| RpcQueue.BetweenPop | mica/micad/services/rpc/rpc_workers.c:35-38 | the request at the head is the oldest and stepping the head round leaves the others |
| RpcQueue.Queue.constructor | mica/micad/services/rpc/rpc_workers.c:20-27 | an empty queue of the given size |
| RpcQueue.Queue.Enqueue | mica/micad/services/rpc/rpc_workers.c:42-53 | refused exactly when `size - 1` are queued, else appended |
| RpcQueue.Queue.Dequeue | mica/micad/services/rpc/rpc_workers.c:29-40 | nothing exactly when empty, else the oldest is removed and returned |
| RpcWorkers.RunKeeps | mica/micad/services/rpc/rpc_workers.c:29-122 | every run keeps mutex, wakeup, order, ownership, callback and submission invariants |
| RpcWorkers.EnqueueRefines | mica/micad/services/rpc/rpc_workers.c:42-79 | the enqueue step is `__enqueue` on the circular array: dropped exactly when the modular test says full, else stored at the tail |
| RpcWorkers.DequeueRefines | mica/micad/services/rpc/rpc_workers.c:29-66 | the dequeue step is `__dequeue` on the circular array: a wait exactly when head meets tail, else the request at the head |
| RpcWorkers.CircularQueue | mica/micad/services/rpc/rpc_workers.c:20-79 | over every run, working the array as the code does (store at the tail and step it unless full, take at the head and step it unless empty) leaves between head and tail exactly the queued requests, has given exactly the requests taken, in order, and refused exactly those dropped |
| RpcWorkers.MutualExclusion | mica/micad/services/rpc/rpc_workers.c:55-79 | in every reachable state at most one thread, worker or producer, is between lock and unlock |
| RpcWorkers.NoLostWakeup | mica/micad/services/rpc/rpc_workers.c:55-79 | while a worker is blocked, queued requests number at most the workers about to look plus one producer that has queued and not yet signalled |
| RpcWorkers.OnePlace | mica/micad/services/rpc/rpc_workers.c:29-122 | every submitted request is exactly one of offered, dropped, queued, taken; a taken one is held or was freed by the one worker that took it; one never taken is never freed |
| RpcWorkers.ExecutedOnce | mica/micad/services/rpc/rpc_workers.c:111-120 | a callback runs once for each freed request that has one, by the worker that freed it, and never for one without |
| RpcWorkers.SubmittedIsPassed | mica/micad/services/rpc/rpc_workers.c:81-87 | over every run the requests submitted are those handed to enqueue_req, in order, each with the callback it came with |
| RpcTurn.TriesOnce | mica/micad/services/rpc/rpc_workers.c:55-66 | whatever runs meanwhile, between taking the mutex and giving it back a worker tries the queue exactly once, and it leaves without a request exactly when it waited, which it does at most once |
| RpcWorkers.TakenInOrder | mica/micad/services/rpc/rpc_workers.c:29-66 | what was taken, then what is queued, is what was accepted, in order; the bound is never exceeded |
| RpcWorkers.QuietRunsEnd | mica/micad/services/rpc/rpc_workers.c:104-122 | without new submissions and spurious wakeups every run is bounded by the work in the state it starts from |
| RpcWorkers.SettledMeansDone | mica/micad/services/rpc/rpc_workers.c:55-122 | where such runs end, the queue is empty, every accepted request was freed, its callback ran, and nothing is left in hand |
| RpcDrops.DropReachable | mica/micad/services/rpc/rpc_workers.c:42-87 | for every capacity and any numbers of workers and producers some run drops a request |
| RpcDrops.DroppedExactly | mica/micad/services/rpc/rpc_workers.c:44-47 | a run drops a request if and only if it offers one to a full queue |
| RpcDrops.FreedExactly | mica/micad/services/rpc/rpc_workers.c:81-122 | where the pool settles, submitted requests are the freed ones plus the dropped ones, and all were freed if and only if none was offered to a full queue |
| UserMsg.StepKeeps | library/user_msg/user_msg.c:35-96 | every step of any process, the tx task, the RTOS or the callback keeps lock, memory, call and token invariants |
| UserMsg.RepliesMatch | library/user_msg/user_msg.c:55-90 | over every run and whatever the RTOS replies: a call that returns success hands back, with its length, the reply of the one answer to its own post, given for the address and data it passed; no two calls share an answer |
| UserMsg.AnswersTheWaiter | mica/micad/services/umt/rpmsg_umt.c:38-66 | whenever the RTOS answers, exactly one call waits, it posted last, and the answer takes the place of that post |
| UserMsg.OneToken | mica/micad/services/umt/rpmsg_umt.c:38-66 | semaphores, tx task, channels, RTOS and callback together hold one request exactly while some call waits, none otherwise; at most one call is inside the lock |
| UserProgress.FailureWedges | library/user_msg/user_msg.c:63-65 | after a failed mapping the lock stays taken and no further call succeeds, over every continuation |
| UserProgress.FailureReachable | library/user_msg/user_msg.c:35-65 | from every fresh session and every acceptable call, three steps lead to that failure |
| UserProgress.FinishExactly | library/user_msg/user_msg.c:35-96 | in every reachable state a call that has not returned success can still do so if and only if its arguments are accepted and no call has failed to map core memory |
| UserProgress.Completes | library/user_msg/user_msg.c:55-83 | a call inside the lock that has not failed can be driven to success with every other call left where it was |
| UserProgress.ExchangeMoves | library/user_msg/user_msg.c:55-83 | the exchange of a call inside the lock that has not failed has an enabled step other than a failing mapping |
| UserProgress.ExchangeWorks | mica/micad/services/umt/rpmsg_umt.c:38-66 | each step of the exchange strictly decreases the work left |
| UserProgress.ExchangeFinishes | library/user_msg/user_msg.c:55-83 | every schedule of the exchange is bounded by the work, and goes on until the call in the lock has returned success |
| Hostent.RoundTripExactly | mica/micad/services/rpc/rpc_helper.c:143-249 | following the pointers of the decoded encoding gives back name (absent apart from empty), aliases and addresses if and only if both counts are below 2^15 |
| Hostent.LaidShows | mica/micad/services/rpc/rpc_helper.c:166-195 | every pointer of the block lands in the payload, on the string or address it stands for; both tables end in NULL |
| Hostent.LayoutExact | mica/micad/services/rpc/rpc_helper.c:158-195 | tables and payload fill the allocation one after the other; the alias loop ends at the recorded address index, the address loop at the end of the payload |
| Hostent.WireHeader | mica/micad/services/rpc/rpc_helper.c:208-248 | the length of the encoding from the lengths of its parts with one terminator for each string, and each of the seven header fields at its offset |
| Hostent.WireName | mica/micad/services/rpc/rpc_helper.c:213-220 | from offset 24 the name and one zero |
| Hostent.WireAlias | mica/micad/services/rpc/rpc_helper.c:222-233 | each alias and one zero, right behind what comes before it |
| Hostent.WireAddress | mica/micad/services/rpc/rpc_helper.c:235-246 | each address, end to end, right behind the aliases |
| Hostent.DecodeRefuses | mica/micad/services/rpc/rpc_helper.c:150-157 | for every input, exactly when it is refused with which code and when it is decoded |
| Hostent.FitsMeans | mica/micad/services/rpc/rpc_helper.c:213-246 | the one-shot test in lengths of the parts: nothing to store, or 24 plus name, aliases and addresses below `buflen` |
| Hostent.ReplyBufferSafe | mica/micad/services/rpc/rpc_helper.c:222-246 | no hostent with positive address length that fits 432 bytes wraps a 16-bit counter |
| HostentCodec.EncodeHostent | mica/micad/services/rpc/rpc_helper.c:199-249 | the running checks amount to one: success if and only if nothing is stored or the total is below `buflen`; on success the buffer holds the encoding and is otherwise as before; on failure only bytes below `buflen` behind the header changed |
| HostentCodec.PutAliases | mica/micad/services/rpc/rpc_helper.c:222-233 | stores every alias with terminator behind what is there, or refuses exactly when they reach `buflen`; counts modulo 2^16 |
| HostentCodec.PutAddrs | mica/micad/services/rpc/rpc_helper.c:235-246 | the same for addresses |
| HostentCodec.DecodeHostent | mica/micad/services/rpc/rpc_helper.c:143-197 | the loops over one slot array compute the specified result for every input: block, error code, or undefined for negative counters |
| HostentCodec.FillAliases | mica/micad/services/rpc/rpc_helper.c:177-187 | fills the first table with the start of each successive string, ends it with NULL, touches no other slot |
| HostentCodec.FillAddrs | mica/micad/services/rpc/rpc_helper.c:188-194 | fills the second table with a pointer every `length` bytes, ends it with NULL, touches no other slot |
| Addrlist.NodeDecoded | mica/micad/services/rpc/rpc_helper.c:97-132 | on an encoded entry the checks amount to one comparison, and a success gives the entry and the cursor behind it |
| Addrlist.ListDecoded | mica/micad/services/rpc/rpc_helper.c:94-141 | an encoded list is decoded whole or the call is undefined, by one comparison with the end of the last address |
| Addrlist.RoundTripExactly | mica/micad/services/rpc/rpc_helper.c:42-141 | decode of encode is the identity if and only if every entry has an address or length zero and `buflen` exceeds the encoding less the last canonical name |
| Addrlist.ExactFit | mica/micad/services/rpc/rpc_helper.c:102-141 | with exactly the encoding, decoding gives the list if the last entry has a canonical name and is undefined otherwise |
| Addrlist.CountedExactly | mica/micad/services/rpc/rpc_helper.c:51-82 | the reported length bounds the written one and equals it if and only if every entry has an address or length zero |
| Addrlist.CountedIsSum | mica/micad/services/rpc/rpc_helper.c:51-57 | the reported length is the sum over the entries of 24, the address length, and the canonical name with one terminator |
| Addrlist.WireEntry | mica/micad/services/rpc/rpc_helper.c:64-79 | an entry byte by byte: five words, the name length with terminator, the address right behind, then the name and one zero |
| Addrlist.WireList | mica/micad/services/rpc/rpc_helper.c:63-82 | each entry lies behind the summed lengths of those before it |
| Addrlist.RoundTripIdentity | mica/micad/services/rpc/rpc_helper.c:42-141 | a list whose entries all have an address is decoded to itself from any longer buffer |
| AddrlistCodec.CountLength | mica/micad/services/rpc/rpc_helper.c:51-57 | the first pass sums the counted lengths |
| AddrlistCodec.EncodeAddrlist | mica/micad/services/rpc/rpc_helper.c:42-85 | each refusal with its code and no write; else the encoding at the start of the buffer, the rest untouched, count and length reported |
| AddrlistCodec.ReadNode | mica/micad/services/rpc/rpc_helper.c:97-132 | the checks and copies of one turn, in the order of the code, compute the specified entry and cursor or run out of room |
| AddrlistCodec.DecodeAddrlist | mica/micad/services/rpc/rpc_helper.c:87-141 | the loop computes the recursive decoding for every input and count, a negative count being none |
| Rendezvous.OutcomeOf | library/rpmsg_device/rpmsg_service.c:39-160 | after any interleaving: unserved endpoints pending in order, every other bound exactly once, to the earliest registered service serving it |
| Rendezvous.BoundRightly | library/rpmsg_device/rpmsg_service.c:39-160 | over every run with names that fit, said of the matchers alone: each binding went to the first registered service whose matcher takes the name, no registered matcher takes a pending name, and bound and pending endpoints are, each as often, those announced and those pending before |
| Rendezvous.SplitByMatcher | library/rpmsg_device/rpmsg_service.c:70-84 | a registration takes exactly the pending endpoints its matcher takes |
| Rendezvous.SplitKeepsAll | library/rpmsg_device/rpmsg_service.c:70-84 | and every pending endpoint is either taken or left |
| Rendezvous.OrderIndependent | library/rpmsg_device/rpmsg_service.c:55-159 | two interleavings of the same announcements and the same registrations end alike |
| Rendezvous.OrderFreeExactly | library/rpmsg_device/rpmsg_service.c:158-158 | the two orders agree for every service and matcher if and only if the name is shorter than 32 characters |
| MicaClient.Client.Bind | library/rpmsg_device/rpmsg_service.c:137-141 | one binding, one endpoint, and the table rewritten to record the endpoints as they now are |
| MicaClient.Client.RegisterRemoteEpt | library/rpmsg_device/rpmsg_service.c:162-177 | the endpoint is pending last, with its name cut to 31 characters |
| MicaClient.Client.RegisterService | library/rpmsg_device/rpmsg_service.c:39-90 | return codes; services, pending and bindings become those of the specification; endpoints created in order; the table current if anything was bound and untouched otherwise |
| MicaClient.Client.BindPending | library/rpmsg_device/rpmsg_service.c:70-84 | removing while walking binds exactly the served endpoints, in order, and leaves exactly the others; the table untouched if there were none |
| MicaClient.Client.NsBind | library/rpmsg_device/rpmsg_service.c:108-160 | the first matching service takes the endpoint and the table is current, else it is pending and the table untouched |
| MicaClient.Client.UnregisterAll | library/rpmsg_device/rpmsg_service.c:92-106 | no service is left; pending endpoints and bindings stay |
| EptTable.EptTable.Update | library/remoteproc/mica_rsc_table.c:42-84 | the table is exactly the first 64 bound endpoints with addresses exchanged, the rest zero; fails if and only if there are more; on the way it held every prefix of them, the empty one first |
| EptTable.BoundMeans | library/remoteproc/mica_rsc_table.c:60-65 | recorded are exactly the endpoints with a local and a remote address, each as often as it occurs |
| EptTable.EptTable.HandleRsc | library/remoteproc/mica_rsc_table.c:16-40 | entries with a nonzero address are appended to the pending list in order |
| Recovery.Recover | library/remoteproc/mica_rsc_table.c:16-84 | table saved, new client, table replayed, services registered: the client's endpoints are exactly the first 64 bound ones with a nonzero remote address and a serving service, name and both addresses as before; all of them if none exceeds these limits; and what the table held after each bind |
| Recovery.RecoveryExact | library/remoteproc/mica_rsc_table.c:16-84 | the same over the specification, for the bindings of every such run |
| Recovery.RegisterRecreates | library/rpmsg_device/rpmsg_service.c:70-84 | a registration on the restarted client creates exactly the endpoints it binds, allocating no address |
| Recovery.RecoveryComplete | library/remoteproc/mica_rsc_table.c:16-84 | all bound endpoints come back if there are at most 64, all served, none at remote address zero |
| Recovery.KeepsLocalAddress | library/remoteproc/mica_rsc_table.c:71-78 | a restored endpoint is created with its old local address, none is allocated |
| Recovery.SecondCrashExactly | library/remoteproc/mica_rsc_table.c:16-84 | after a crash `k` binds into the recovery the next replay restores everything if `k` is zero, else exactly the `k` endpoints bound by then; nothing is lost if and only if `k` is zero or every restored endpoint was back |
| Recovery.RewriteCrashExactly | library/remoteproc/mica_rsc_table.c:57-80 | after a crash inside the rewrite for any bind of the recovery, with `j` entries made, the next replay restores exactly the first `j` endpoints bound; nothing is lost if and only if `j` is the number restored before |
| Recovery.CutShortExactly | library/remoteproc/mica_rsc_table.c:57-80 | for every table, what its first `j` entries restore is a prefix of what it restores, and the same if and only if no later entry has an address |
| Recovery.SecondCrashLoses | library/rpmsg_device/rpmsg_service.c:73-82 | for any two saved endpoints served again, a crash between the two binds loses one |
| Masks.MaskRoundsDown | library/remoteproc/baremetal_rproc.c:175-175 | masking with the complement of a power of two less one rounds down to its multiple, for every width |
| PageMap.AlignedMeans | library/remoteproc/baremetal_rproc.c:173-177 | the 64-bit mask expressions are rounding down of the address and of the wrapped sum, for every address, size and power-of-two page |
| PageMap.SmallestCoverExactly | library/remoteproc/baremetal_rproc.c:173-177 | start and length are the smallest run of whole pages containing the range if and only if offset plus size plus page less one fits 64 bits |
| PageMap.Rproc.Mmap | library/remoteproc/baremetal_rproc.c:153-209 | refusals and failed bookkeeping register nothing and leave nothing mapped; else exactly one mapping is registered, with address defaults as the code resolves them |
| PageMap.Rproc.UnmapAll | library/remoteproc/baremetal_rproc.c:398-410 | the unmap calls are exactly the live mappings, each once, start and length as mapped |
| ShmPool.Translations | library/memory/shm_pool.c:14-26 | the two address conversions answer exactly on the pool and undo each other |
| ShmPool.GrantedAt | library/memory/shm_pool.c:50-55 | a region lies at the physical address asked for, or at the free pointer if none is |
| ShmPool.GrantedExactly | library/memory/shm_pool.c:50-72 | without overflow, a request is granted exactly when it starts in the pool at or behind the used part and ends in the pool |
| ShmPool.GrantedInside | library/memory/shm_pool.c:46-77 | a granted region lies in the free part of the pool if and only if its end does not overflow 64 bits |
| ShmPool.WrappingGrant | library/memory/shm_pool.c:66-74 | an overflowing length is granted on every fresh pool and moves the free pointer back |
| ShmPool.ServedDisjoint | library/memory/shm_pool.c:28-77 | over every run of requests: regions inside the pool and pairwise disjoint; bytes granted plus bytes skipped are the advance of the free pointer |
| ShmPool.PoolsApartExactly | library/remoteproc/baremetal_rproc.c:267-268 | pools of two CPUs are disjoint if and only if the CPU numbers differ modulo 2^15 |
| ShmPool.ClientsApart | library/remoteproc/baremetal_rproc.c:267-268 | regions of clients on such CPUs never share a physical byte, over all runs of both |
| ShmPool.ClientPool.constructor | library/memory/shm_pool.c:28-44 | a fresh pool over the mapped range |
| ShmPool.ClientPool.AllocRegion | library/memory/shm_pool.c:46-77 | address and new state are those of the specification; a refusal changes nothing |
| VdevLayout.AlignUpMeans | library/rpmsg_device/rpmsg_vdev.c:20-22 | the 32-bit mask expression rounds up to the next multiple of a power-of-two alignment |
| VdevRooms.AlignUpExactly | library/rpmsg_device/rpmsg_vdev.c:20-22 | for every size and power of two, the 32-bit expression is the smallest multiple not below the size if and only if size plus alignment is at most 2^32 |
| VdevRooms.PlacedRoom | library/rpmsg_device/rpmsg_vdev.c:52-78 | a placed vring lies behind everything before it, at its fixed address or recorded, and the free pointer moves past its size rounded up to its alignment if and only if that rounding fits 32 bits |
| VdevRooms.LaidApart | library/rpmsg_device/rpmsg_vdev.c:47-99 | after every successful set-up each vring has its size rounded up to its alignment and the buffer 512 bytes for each descriptor both ways; all lie in the free part of the pool, in order and pairwise disjoint, fixed ones where the table says; and the free pointer ends at the end of the buffer |
| VdevRooms.BufferExactly | library/rpmsg_device/rpmsg_vdev.c:86-86 | the 32-bit product for the buffer is exact if and only if there are fewer than 2^22 descriptors |
| VdevRooms.AutoFitsExactly | library/rpmsg_device/rpmsg_vdev.c:47-89 | with every placement left to the pool, set-up succeeds if and only if the summed rooms and the buffer fit what is free |
| VdevRooms.StopsAt | library/rpmsg_device/rpmsg_vdev.c:48-79 | a failing set-up stops at the first entry that cannot be placed behind those before it; these stay placed and recorded and the rest of the table is untouched |
| VdevRooms.SetupFails | library/rpmsg_device/rpmsg_vdev.c:61-89 | a failure is -ENODEV for a table without vrings and -ENOMEM otherwise |
| VdevLayout.ReplayPlace | library/rpmsg_device/rpmsg_vdev.c:47-79 | replaying the recorded vrings on the same mapping reproduces pool, table and addresses if every recorded address leads back, and fails otherwise |
| VdevLayout.ReplayExactly | library/rpmsg_device/rpmsg_vdev.c:24-100 | setting up again with the recorded table gives the same vring and buffer addresses if every automatic vring lies below 2^32 or at a low word of 0 or ANY, and is refused otherwise |
| VdevLayout.LowPoolReplays | library/rpmsg_device/rpmsg_vdev.c:24-100 | a pool ending below 4 GiB always replays |
| VdevLayout.SetupAlike | library/rpmsg_device/rpmsg_vdev.c:24-100 | for every table, where the pool is mapped changes neither the result code nor the recorded table nor any physical address |
| VdevLayout.ReplayElsewhere | library/rpmsg_device/rpmsg_vdev.c:24-100 | after a restart with the pool mapped at any address, the recorded table brings vrings and buffer back to their physical addresses if every record leads back, and is refused otherwise |
| VdevLayout.LowPoolReplaysElsewhere | library/rpmsg_device/rpmsg_vdev.c:24-100 | a pool ending below 4 GiB replays wherever it is mapped |
| VdevLayout.PlaceVrings | library/rpmsg_device/rpmsg_vdev.c:47-79 | the loop writing addresses back in place computes the specified placement, also when it stops early |
| VdevLayout.SetupVdev | library/rpmsg_device/rpmsg_vdev.c:24-100 | return code, table, addresses, buffer and pool are those of the specification, on success and on failure |
| RbufDevice.PlacedExactly | library/rbuf_device/rbuf_dev.c:51-70 | for every pool and 64-bit length: a granted region lies in the pool with both rings in it, clear of each other, if and only if its end does not overflow 64 bits and half of it is not negative as an `int` |
| RbufDevice.WildLength | library/rbuf_device/rbuf_dev.c:51-70 | every fresh pool grants 2^64 - 2 bytes; half of that is -1, which is not refused, and the second header would start one byte before the pool |
| RbufDevice.SetupRbufDev | library/rbuf_device/rbuf_dev.c:32-74 | for every pool and 64-bit length: return code, pool and device fields; well placed halves longer than a header become two empty rings filling them and nothing outside the region is written; shorter ones are left alone though success is reported; a badly placed region is flagged exactly |

## Left out

- RingSession.RingBufferWrite: follows the blocking loop only for as long as the given reader schedule lasts, because the code spins forever if nobody reads.
- RingProtocol.NeverStuck: says nothing about fairness between the two sides.
- RpcWorkers.SettledMeansDone: reached states only; that the scheduler keeps running enabled threads is not stated.
- UserMsg.RepliesMatch: does not model failure to map the shared record, a failing `create_sem`, negative lengths or unbinding the service.
- Hostent.RoundTripExactly: needs addresses of the announced length and a total below 2^31, because the code counts in `int`.
- HostentCodec.DecodeHostent: negative counters or length give "undefined" and `strlen` stops at the end of the block, because the code would leave its allocation on input no encoder makes; allocation failure is not modelled.
- AddrlistCodec.DecodeAddrlist: allocation failure and integer overflow of the cursor are not modelled; running out of room is undefined, not a refusal.
- MicaClient.Client.RegisterService: the service's own init and remove hooks and allocation failure are not modelled.
- Recovery.RecoveryExact: endpoint names are below 32 characters, which is what the name field of an rpmsg endpoint holds.
- ShmPool.ServedDisjoint: needs request lengths that cannot overflow 64 bits; `GrantedInside` and `WrappingGrant` say what happens otherwise.
- VdevLayout.SetupVdev: zeroing the buffer and registering the vring memory with the remoteproc are not modelled.
- VdevRooms.LaidApart: needs power-of-two alignments, as virtio demands, and sizes whose rounding fits 32 bits; `PlacedRoom` and `BufferExactly` say that it fails otherwise.
- RbufDevice.SetupRbufDev: what is stored outside a badly placed region is not followed.
- RPC system-call handlers in the RPC back end: per-call forwarding to libc and sockets.
- Kernel module, PSCI and inter-processor interrupts: hardware and kernel interfaces.
- Jailhouse back end, ELF loading, OpenAMP internals: foreign code or process spawning.
- Socket listener, daemon start-up, Python command line, gdb proxy, pty creation: input/output plumbing.
- Newline translation in the terminal writers: would only add easy members.
- Weak memory behaviour: steps are sequentially consistent.
