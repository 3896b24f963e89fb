# PulseKV in Dafny

A model of PulseKV's durable single-node store, of its write replication and of its context registry,
with proofs of what they promise over every input, every run and every interleaving.

**The log.** A record is a length-delimited, CRC-protected frame (`Bytes`, `Bits`, `Crc32`, `CrcEdge`,
`WalRecord`); a
log is a run of records with consecutive sequence numbers (`WalScan`). Threads submit requests to a linked
queue, one writer takes batches off its front, encodes each into one buffer, appends it in as many writes as
that takes, syncs once and completes the batch (`WalWriter`); at start-up the file is read in chunks,
replayed into the table and a bad tail is cut off (`Recovery`). `GroupCommit` is the same life as a state
machine with every failure, kill, power loss and restart in it, `Durability` proves what all its runs keep,
and `LogRefinement` proves that the methods of `WalWriter` and `Recovery` are runs of that machine.

**The server.** `Connection` is one socket's buffers and frame loop over the codec in `Protocol`, and
`Backpressure` what a readiness event does to it. `Server` is
the machine of workers, connections, the completion stack with its flag and eventfd, and the table;
`ServerSafety` proves its invariants and what they mean, `Shutdown` that no state of it is a dead end, `Answers`
what its clients are told, `UnsyncedReads` what of it a crash can take back, `WorkerOrder` when memory and log
agree, and `ServerRefinement` that the objects in memory take the machine's steps.
`CompletionStack` is the pointer side of the hand-over. `HashTable` is the chained table on the heap,
`ShardLocks` its locking as interleaved steps, `Mutation` what a logged record does to it.

**The cluster and the gateway.** `Replication` is the strong-ack fan-out between any number of nodes,
`Chunked` the two pairs of chunk streams, `Registry` the versioned registry as tables and transactions,
`Normalizer` the text form that is hashed.

Foreign calls are nondeterministic: a read returns any positive number of available bytes or fails, a write
accepts any positive number or fails, a sync succeeds or fails, an allocation succeeds or fails. The file keeps
a history of the calls that failed, so that an error is reported exactly for its cause. A power loss
leaves any prefix of the file, of what the last sync saw, or of what has been cut off since, that is at least
as long as the part no crash reaches; a killed process leaves the file as it is. Threads interleave in atomic steps. Time-outs and batching delays
are steps that may happen at any moment.

## Where the code does less than one might expect

- Two workers that set one key can apply their mutations in the order opposite to the log's, so that memory and
  a restart disagree although both were acknowledged. `WorkerOrder.TwoWorkersDisagree` is such a run for
  every number of workers above one; `WorkerOrder.MatchesIffOneWorker` is the exact condition.
- What a client has read can be lost. Recovery syncs a log only when it repairs it, so records that a killed
  server had written and not synced are replayed, served, and gone after a power loss:
  `UnsyncedReads.ReadIsLost`. `UnsyncedReads.GetSurvivesIff` is the exact condition for what a GET read,
  `UnsyncedReads.TableSurvivesIff` for the table, and `Durability.SurvivesIff` for any prefix of the history.
- A strong ack counts forwards, not nodes. `Replication.RepeatedTargetUndercounts` gives the run for every target
  list with a repeated address; `Replication.AcksAreNodesIffNoRepeats` is the exact condition.
- Chunk counters are 32 bits wide. A stream that declares 2^32 - 1 chunks may send one more, after which its
  counter is 0 again and the next chunk may declare another key, under which everything is stored:
  `Chunked.StoredUnderAnotherKey`. `Chunked.PutChunked` states exactly what is taken from streams of any length,
  `Chunked.KeepsDeclarationsIffShort` when that means keeping one's declarations, and `Chunked.PutRoundTrip` and
  `Chunked.GetRoundTrip` exactly which values survive a transfer.
- The checksum is stored with its high half next to the payload. One change of the last two payload bytes moves
  only that half, so that the four-byte change of both is accepted: `WalRecord.Twin`. `WalRecord.BurstIsError`
  states that no other change within four consecutive bytes is, and `WalScan.TwinGoesUnnoticed` what recovery
  makes of it.
- A frame can be left waiting for good. A frame whose answer does not fit the write buffer waits for the socket to
  become writable, which is asked for only while bytes are owed; if the kernel has taken all of them, nothing wakes
  the connection until the client sends more, and with a full read buffer not even that does.
  `Backpressure.StrandTheSecondGet` is such a connection for every key and every value of the largest size, and
  `Backpressure.OnEvent` states exactly when an event leaves one and what later events can do about it.
- The comment at src/main.c:471 says that a full read buffer holds nothing decodable. The code is right and
  the comment is not: a full buffer always decides (`Protocol.FullBufferDecides`), and the frame in it waits
  for the write side (`Connection.Conn.OnReadable`).

## Model

| member | source | states |
|---|---|---|
| Crc32.StepsAreLinear | src/wal.c:87-97 | any number of shift steps distributes over xor, the fact the table rests on |
| Crc32.UpdateIsDivision | src/wal.c:99-107 | xoring bytes in and shifting eight times each is the bit-serial polynomial division of the message |
| Crc32.TableStep | src/wal.c:99-107 | one table lookup and one shift equal eight division steps on the whole register |
| Crc32.TableEntry | src/wal.c:87-97 | the inner loop leaves the byte divided eight times |
| Crc32.InitTable | src/wal.c:87-97 | every one of the 256 entries is its index divided eight times |
| Crc32.Compute | src/wal.c:99-107 | the table-driven loop returns the bit-serial reflected CRC-32 for every byte string |
| Crc32.UpdateIsInjective | src/wal.c:99-107 | registers that differ still differ after any common bytes |
| Crc32.DetectsBurst | src/wal.c:99-107 | any change inside four consecutive bytes changes the CRC, whatever surrounds them |
| Crc32.CheckValues | src/wal.c:99-107 | the register starts from all ones and is complemented: two check values |
| Bytes.U32Order | src/wal.c:70-76 | the four bytes of a number are its digits to the base 256, the most significant first |
| Bytes.U64Order | src/wal.c:78-82 | the eight bytes of a number are those of its high half, then those of its low half |
| WalRecord.DecodeEncode | src/wal.c:128-198 | an encoded record decodes to itself and its length, whatever follows |
| WalRecord.EncodeDecode | src/wal.c:128-198 | every accepted frame is valid and re-encodes to exactly the bytes consumed |
| WalRecord.RecordLayout | src/wal.c:156-198 | the decoder accepts exactly the documented bytes: magic, version, opcode, zero flags, lengths, sequence number, key, value and checksum, each at its place and within its bounds |
| WalRecord.DecodeStable | src/wal.c:156-198 | a verdict other than "need more" never changes when more bytes arrive |
| WalRecord.DecodeStrictPrefix | src/wal.c:156-198 | every strict prefix of a record asks for more bytes |
| WalRecord.IncompleteIsShort | src/wal.c:156-198 | a buffer of the maximum record length never asks for more |
| WalRecord.BurstIsError | src/wal.c:156-198 | any change within four consecutive bytes of a record, anywhere, makes decoding fail, if and only if it is not the change to the record's twin |
| WalRecord.TwinIsClose | src/wal.c:128-154 | every record with two payload bytes has a twin, a different valid record whose encoding differs only in two payload and two checksum bytes |
| CrcEdge.EdgeBurst | src/wal.c:99-107 | messages that differ in their last one, two or three bytes have checksums that differ in as many last stored bytes, except for one pattern of two bytes |
| CrcEdge.BlindEdge | src/wal.c:99-107 | that pattern leaves the last two stored bytes of the checksum alone, for every message |
| WalRecord.AnyByteChangeIsError | src/wal.c:156-198 | changing any one byte of a record, header, payload or checksum, always makes decoding fail |
| WalRecord.EncodeInto | src/wal.c:128-154 | fills the caller's buffer with the encoding and nothing else, or refuses and leaves it alone, exactly when invalid or too long |
| WalScan.ScanOfLog | src/wal.c:286-316 | a well-formed log is accepted whole and the pass goes on with what follows |
| WalScan.ScanShape | src/wal.c:225-336 | for any bytes, what is kept is exactly the encoding of a well-formed log, and nothing is repaired iff every byte was kept |
| WalScan.ScanStops | src/wal.c:286-327 | the pass stops at the first place where the rest does not start with a whole record of the next number, and the kind of repair says what is there instead |
| WalScan.ScanAfterRepair | src/wal.c:211-223 | for any bytes, a second recovery after a repair replays the same records and repairs nothing |
| WalScan.ScanOfPrefix | src/wal.c:225-336 | cutting any file anywhere can only lose records off the end |
| WalScan.TornLog | src/wal.c:286-327 | a log cut at any byte recovers exactly the whole records before the cut, repaired as truncated iff the cut is not on a boundary |
| WalScan.DamagedRecord | src/wal.c:296-299 | any change within four consecutive bytes of a record, other than to its twin, stops the pass right before it, with every earlier record kept |
| WalScan.TwinGoesUnnoticed | src/wal.c:286-316 | a log with a twin in a record's place is read whole and not repaired |
| WalScan.AnyByteChangeStopsTheLog | src/wal.c:296-299 | changing any one byte of a log keeps exactly the records before it and reports corruption |
| Recovery.Drain | src/wal.c:286-316 | the inner loop replays the whole records in the buffer, and stops where and why the one-pass scan does, or because the table has no room for the next record |
| Recovery.RepairTail | src/wal.c:211-223 | on success exactly the valid prefix is left and synced; it fails iff truncating or syncing failed, and then the file is whole or cut and nothing more is synced |
| Recovery.KeepRest | src/wal.c:318-327 | the remainder moves to the front and is shorter than a record; at end of file it is a torn record |
| Recovery.Round | src/wal.c:264-327 | one pass of the outer loop keeps the buffer, file and table in step with the scan and makes progress |
| Recovery.ReplayAll | src/wal.c:264-327 | for every file, chunk size and pattern of short reads the outer loop ends with the scan's records replayed, or with the error of the one thing that failed |
| Recovery.Recover | src/wal.c:225-336 | the table is the replay of the scan's records, the statistics are the scan's, the file is the scan's valid bytes; on failure at most the bad tail is gone; each error is returned iff its cause is there: chunk size, opening, buffer, a failed read, a record the table has no room for, a failed repair, a failed close |
| WalWriter.Queue.Submit | src/wal.c:609-640 | the request gets the next sequence number and the last place in the linked queue, or is refused and changes nothing |
| WalWriter.Queue.TakeBatch | src/wal.c:412-425 | the first requests, up to the batch limit, leave the queue in order and the rest stays linked |
| WalWriter.Writer.Needed | src/wal.c:429-436 | the bytes a batch needs, or overflow iff a length is out of bounds or the sum is |
| WalWriter.Writer.Reserve | src/wal.c:438-454 | the doubling loop ends with room for the batch, or the buffer is untouched |
| WalWriter.Writer.EncodeBatch | src/wal.c:427-465 | the buffer starts with the concatenated encodings of the batch; each error is returned iff the lengths, the memory or the opcodes call for it |
| WalWriter.Writer.WriteAll | src/wal.c:396-410 | however short the writes, a prefix of the buffer is appended, all of it iff no write failed |
| WalWriter.Writer.Commit | src/wal.c:499-519 | no error means the whole batch appended and the file synced; an error means that encoding, a write or the sync failed; after a failure nothing is appended again and the first error is returned for ever |
| Durability.NextKeeps | src/wal.c:396-532 | every step of every thread, failure, crash and restart keeps the log's invariant |
| Durability.CrashKeepsAcked | src/wal.c:225-336 | whatever a crash leaves of the file recovers to a prefix of the accepted order that contains everything acknowledged |
| Durability.SurvivesIff | src/wal.c:211-336 | of what a running server recovered or acknowledged, the first k mutations survive every crash iff their records are out of its reach |
| Durability.EveryRunIsDurable | src/wal.c:225-532 | the same after any run from an empty disk |
| Durability.AckedStaysForever | src/wal.c:225-532 | what was ever acknowledged stays in the history at the same place through all later crashes and restarts |
| Durability.CompletedSurvives | src/wal.c:467-474 | a mutation completed without error is recovered at its own sequence number after every later crash |
| Durability.EveryRequestInOnePlace | src/wal.c:412-532 | every accepted request is completed, in the batch or queued, exactly once and in order of consecutive sequence numbers; when the writer has exited, all are completed |
| Durability.FailureIsFinal | src/wal.c:499-525 | after the first failure of a run nothing more is appended or acknowledged |
| LogRefinement.Submit | src/wal.c:609-640 | submitting to the linked queue is the machine's submit step |
| LogRefinement.Take | src/wal.c:412-425 | taking a batch off the linked queue is the machine's take step |
| LogRefinement.Commit | src/wal.c:499-519 | the writer's work on a batch is a run of the machine to the outcome it returns |
| LogRefinement.CompleteRun | src/wal.c:467-474 | completing a batch completes every request in order with that outcome and leaves the writer idle |
| LogRefinement.Turn | src/wal.c:476-532 | one turn of the writer is a run of the machine that completes a batch off the front of the queue |
| LogRefinement.Restart | src/main.c:1157-1203 | start-up is a run of the machine; it starts iff recovery succeeds, closing included, a sequence number is left and the writer can be set up, and then the table is the replay of the recovered history |
| HashTable.Hash | src/hashtable.c:22-30 | the loop computes 64-bit FNV-1a of the key |
| HashTable.HashOfLast | src/hashtable.c:6-30 | the hash of a key with one more byte is the hash of the key, xored with the byte and multiplied by the 64-bit prime; the empty key hashes to the offset basis |
| HashTable.Walk | src/hashtable.c:59-73 | finds the node with the key and the link that leads to it, or the key is nowhere in the chain |
| HashTable.Table.Find | src/hashtable.c:59-73 | finds the node iff the key is in the map |
| HashTable.Table.Get | src/hashtable.c:168-199 | the map's value, or invalid, absent or too big for the caller's buffer |
| HashTable.Route | src/hashtable.c:43-52 | the chain the hash of the key leads to |
| HashTable.RouteIsLowBits | src/hashtable.c:43-52 | the low eight bits of the hash are the shard and the next two the chain in it |
| HashTable.Table.Set | src/hashtable.c:113-166 | the map with the key set, or, without memory, unchanged; every other chain untouched, and so every chain of another shard |
| HashTable.Table.Del | src/hashtable.c:201-226 | the map without exactly that key; every other chain untouched, and so every chain of another shard |
| HashTable.Table.Overwrite | src/hashtable.c:138-146 | swaps one node's value and keeps every chain well-formed |
| HashTable.Table.Push | src/hashtable.c:148-165 | a new node at the head of its chain, every chain still well-formed |
| HashTable.Bypass | src/hashtable.c:217 | leading the head's or the predecessor's link past a node leaves a chain that holds the map without its key |
| HashTable.Table.Unlink | src/hashtable.c:201-226 | removes one node through that link, every chain still well-formed |
| ShardLocks.EveryRunIsSerial | src/hashtable.c:113-226 | in every interleaving one order of the operations explains the store and every answer returned to every thread, once each and in the order the thread asked, refused operations included; the counter is the number of keys once all updates are in |
| ShardLocks.EveryCallCanReturn | src/hashtable.c:113-226 | from every state, whatever locks are held, every operation begun can return |
| ShardLocks.Perform | src/hashtable.c:113-226 | run alone on the chained table, an operation answers and changes the table as it does in the serial order |
| Mutation.ReplayReadsLast | src/main.c:1057-1079 | after a replay, a key reads as its last record says: the value of a set, nothing after a delete |
| Mutation.ReplayReadsNone | src/main.c:1057-1079 | and a key without a record reads as before |
| Mutation.ApplyToTable | src/main.c:255-271 | the table takes the mutation iff it has room for it, and is unchanged otherwise; a delete always has room |
| Mutation.Settle | src/main.c:676-688 | a mutation is applied iff it is durable and the table has room for it |
| Protocol.DecodeEncodeRequest | src/protocol.c:35-127 | an encoded request decodes to itself and its length, whatever follows |
| Protocol.EncodeDecodeRequest | src/protocol.c:35-127 | every accepted request frame re-encodes to exactly the bytes consumed |
| Protocol.RequestLayout | src/protocol.c:35-73 | the decoder accepts exactly the documented bytes of a GET, SET or DEL, within the limits |
| Protocol.RequestStable | src/protocol.c:35-73 | a verdict other than "need more" never changes when more bytes arrive |
| Protocol.RequestStrictPrefix | src/protocol.c:35-73 | every strict prefix of a request asks for more bytes |
| Protocol.FullBufferDecides | src/main.c:470-475 | a full read buffer never asks for more bytes |
| Protocol.DecodeEncodeResponse | src/protocol.c:75-148 | an encoded response decodes to itself and its length, whatever follows |
| Protocol.EncodeDecodeResponse | src/protocol.c:75-148 | every accepted response frame re-encodes to exactly the bytes consumed |
| Protocol.ResponseLayout | src/protocol.c:75-102 | the decoder accepts exactly the documented bytes of an OK, NOT_FOUND or ERROR, within the limits |
| Protocol.ResponseStable | src/protocol.c:75-102 | a verdict other than "need more" never changes when more bytes arrive |
| Protocol.ResponseStrictPrefix | src/protocol.c:75-102 | every strict prefix of a response asks for more bytes |
| Connection.ParseFrames | src/main.c:378-459 | parsing a stream of encoded requests gives back the requests |
| Connection.Conn.Compact | src/main.c:311-319 | slides the unsent bytes to the front and owes the same bytes |
| Connection.Conn.QueueResponse | src/main.c:321-344 | appends the encoded response behind the bytes owed, iff it fits after compaction |
| Connection.Conn.Flush | src/main.c:346-365 | however short the writes, what is sent stays an in-order prefix of the replies; all of them are sent unless a write was pushed back or failed, and the connection ends iff one failed |
| Connection.Conn.Consume | src/main.c:370-376 | takes exactly the first frame out of the read buffer |
| Connection.Conn.AnswerNow | src/main.c:378-459 | the frame is consumed and its reply queued together, or neither |
| Connection.Conn.Execute | src/main.c:378-459 | a GET is answered from the table, a mutation waits for the log iff the log took it and is answered ERROR otherwise; nothing happens iff the answer does not fit behind the bytes owed; the ledger only grows |
| Connection.Conn.Park | src/main.c:435-457 | a mutation's frame is consumed once and submitted once, its record is the frame's, and its reply is owed |
| Connection.Conn.Reject | src/main.c:378-459 | a malformed frame ends the connection with one last ERROR, left out only if it does not fit |
| Connection.Conn.Process | src/main.c:378-459 | whole frames are executed, each on the table's present map, until one is incomplete or malformed, its answer does not fit or a mutation is pending, and never while one is; mutations went to the log iff it took them; with nothing owed, a whole frame is executed |
| Connection.Conn.OnReadable | src/main.c:461-513 | reads and executes on the table's present map until the socket is empty, a mutation is pending or the buffer is full; ends iff there was a malformed frame, a stop, end of file or a read error; a full buffer always holds a frame to decide; nothing is sent and the ledger only grows |
| Connection.Conn.Complete | src/main.c:668-709 | the pending frame's own record is applied if it is durable, and not otherwise; OK is answered iff it was durable and applied |
| Connection.Conn.Answer | src/main.c:702-709 | the reply reserved for a mutation always fits |
| Connection.Conn.Lookup | src/main.c:241-253 | a GET answers from the table's map |
| Connection.ExecutedIsAPrefix | src/main.c:378-513 | however the bytes were split into reads, the frames executed are a prefix of the parse of the whole stream, all of it when nothing is left |
| Connection.SentIsReplies | src/main.c:305-365 | bytes sent are a prefix of the in-order replies; reply i is the one frame i must get, a GET's from the map it was executed on and a mutation's OK iff it was applied; only a malformed end adds one ERROR |
| Connection.OkMeansApplied | src/main.c:668-709 | a mutation answered OK went to the log as its frame's record, and that record was applied to the table |
| Connection.SubmittedOnce | src/main.c:435-457 | no executed frame is submitted to the log twice |
| Backpressure.OnWritable | src/main.c:515-529 | once everything owed is written, a frame that was waiting is executed, and one that still waits has no room |
| Backpressure.OnEvent | src/main.c:1011-1027 | an event leaves a frame stranded iff it waits and nothing is owed; new bytes free it iff the read buffer is not full, and then no event of the client's changes anything any more |
| Backpressure.StrandTheSecondGet | src/main.c:1011-1027 | two GETs of any value of the largest size to a kernel that takes the first answer leave the second stranded, for good if enough follows them |
| CompletionStack.Push | src/main.c:617-624 | pushing puts one connection in front of the list |
| CompletionStack.Restore | src/main.c:659-667 | relinking in place reverses the detached stack |
| ServerSafety.NextKeeps | src/main.c:378-1041 | every step of writer, workers, crash and restart keeps the server's invariant |
| ServerSafety.NoLostWakeup | src/main.c:611-660 | a non-empty stack means the eventfd is readable, or the writer has yet to signal, or the worker has yet to detach |
| ServerSafety.NamedConnectionsLive | src/main.c:592-607 | a connection named by a queued, batched or stacked request is alive and waiting for exactly that one, named once, and the pending count is their number |
| ServerSafety.AppliedInLogOrder | src/main.c:651-727 | a worker handles its completions in the log's order, in increasing sequence |
| ServerSafety.TableIsAReplay | src/main.c:651-727 | with one worker and memory enough, the table is always the replay of a prefix of the log: what was recovered, then mutations acknowledged as durable, and nothing else |
| ServerSafety.TableIsAnInterleaving | src/main.c:651-727 | with any number of workers, the table is the recovered state with each worker's durable mutations applied once each and in that worker's log order |
| ServerSafety.LeavesNothingBehind | src/main.c:920-1041 | a worker that has left its loop has handled every request it submitted |
| Shutdown.ClosingOne | src/main.c:592-607 | a closed connection hears nothing more and is forgotten unless the log names it; no other is concerned |
| Shutdown.Draining | src/main.c:920-941 | a draining worker listens to nobody, keeps exactly the connections the log names and takes on nothing new |
| Shutdown.SomethingCanMove | src/main.c:943-1056 | unless everything is finished, some thread of the server can take a step that leaves less to do |
| Shutdown.CanAlwaysFinish | src/main.c:943-1056 | from every reachable state of the running server its threads alone can bring it to rest, with every request ever accepted completed and handled, without error if the disk had not failed before |
| WorkerOrder.OneWorkerMatches | src/main.c:651-727 | with one worker, once everything is durable and handled, the table is the replay of the whole log |
| WorkerOrder.TwoWorkersDisagree | src/main.c:651-727 | for every number of workers above one, a run after which it is not |
| WorkerOrder.MatchesIffOneWorker | src/main.c:651-727 | memory matches the log in every such state iff there is one worker |
| WorkerOrder.OwnKeyMatches | src/main.c:651-727 | with any number of workers, a key that only one of them has mutated since the start reads in such a state as the log has it |
| Answers.NextKeepsAnswers | src/main.c:378-1041 | every step of writer, workers, crash and restart keeps the record of what clients were told true |
| Answers.GetsReadThePast | src/main.c:241-253 | with any number of workers, each GET was answered from the recovered state with the first so many mutations that reached the table, and later answers never from fewer |
| Answers.OneWorkerAnswers | src/main.c:651-727 | with one worker, each GET read the replay of a prefix of the log made of what was recovered and of acknowledged mutations, each OK was for the last record of such a prefix, and the prefix never gets shorter from one answer to the next |
| Answers.GetsReadTheLast | src/main.c:241-271 | with one worker, a GET answers by the last mutation of its key in the log up to its moment: NOT_FOUND after a delete or none, OK with the value after a set |
| Answers.OkIsForever | src/main.c:668-709 | the record of every OK is recovered at its own sequence number from whatever any crash of any later state leaves, through any number of restarts |
| UnsyncedReads.ReadIsLost | src/wal.c:264-335 | a run in which a client reads a value that a power loss of that moment takes back |
| UnsyncedReads.GetSurvivesIff | src/wal.c:211-336 | what a GET read survives every crash of the moment iff a mutation of this run had reached the table by then or the recovered records are out of reach |
| UnsyncedReads.TableSurvivesIff | src/wal.c:211-336 | the same of the table's contents |
| ServerRefinement.ExecuteGet | src/main.c:407-420 | a GET executed from the read buffer is the machine's GET, with the same reply |
| ServerRefinement.Submit | src/main.c:435-457 | a mutation put on hold is the machine's request, and its record is the log's next |
| ServerRefinement.Handle | src/main.c:668-727 | telling a connection its outcome is the machine's handling of that completion: same effect on the table, same answer |
| ServerRefinement.HandleGone | src/main.c:668-715 | so is a completion for a connection that is closing or whose worker drains: applied if durable, nobody told, the connection freed |
| ServerRefinement.Detach | src/main.c:651-667 | relinking the stack in place gives the connections in the order of the machine's detached list |
| Replication.NextKeeps | node/grpc_shim/main.cpp:1382-1457 | every client call, forward, settlement and answer keeps the cluster's invariant |
| Replication.StrongAck | node/grpc_shim/main.cpp:647-683 | OK for a strong Put means that many of its forwards were stored at their targets, at that many different nodes if no address repeats |
| Replication.ClientAnswer | node/grpc_shim/main.cpp:1382-1443 | a client's Put is refused iff its key or size is out of bounds or its acks cannot be had; otherwise it is stored iff the engine takes it, forwarded to every target unless it is a forward, and answered at once unless it waits |
| Replication.ForwardAnswer | node/grpc_shim/main.cpp:1402-1411 | a forward that arrives is stored and answered OK iff the engine there takes it |
| Replication.AckAnswer | node/grpc_shim/main.cpp:676-683 | a waiting Put is answered OK once enough forwards succeeded, whatever the others do; without them it waits for the last forward or the time-out, and then reports the deadline |
| Replication.AnswerStays | node/grpc_shim/main.cpp:1382-1457 | an answer is final |
| Replication.AtMostOneStorePerTarget | node/grpc_shim/main.cpp:743-760 | a forwarded copy is never forwarded again, so one client Put is stored at most once here and once per target |
| Replication.RefusedStoresNothing | node/grpc_shim/main.cpp:1724-1745 | a refused Put, or one the local engine failed, is stored nowhere |
| Replication.RepeatedTargetUndercounts | node/grpc_shim/main.cpp:729-741 | for every target list with a repeated address, a run answered OK with fewer nodes than asked for |
| Replication.AcksAreNodesIffNoRepeats | node/grpc_shim/main.cpp:729-741 | OK promises that many different nodes iff no address repeats |
| Chunked.PutChunked | node/grpc_shim/main.cpp:1460-1559 | for streams of any length: stored iff every chunk passes under the declarations in force and the last ones are met, under the key declared last and as the in-order concatenation; the buffer never exceeds the limit; a rejected stream stores nothing, and is out of range iff the first fault is a declared length above the limit |
| Chunked.KeepsDeclarationsIffShort | node/grpc_shim/main.cpp:1475-1529 | a stream keeps its own declarations iff it is taken and has fewer than 2^32 chunks |
| Chunked.WrappingIsTaken | node/grpc_shim/main.cpp:1475-1529 | a stream of 2^32 + 1 chunks that declares two keys is taken, for any two valid keys |
| Chunked.StoredUnderAnotherKey | node/grpc_shim/main.cpp:1475-1549 | and stored under the second |
| Chunked.SendChunked | node/grpc_shim/main.cpp:817-844 | emits exactly the numbered pieces of the value, at least one |
| Chunked.PieceSizes | node/grpc_shim/main.cpp:817-844 | every piece but the last has 2^20 bytes, the last has the rest |
| Chunked.SentIsWellFormed | node/grpc_shim/main.cpp:817-844 | what is emitted keeps the declarations and carries exactly the key and value |
| Chunked.PutRoundTrip | node/grpc_shim/main.cpp:1460-1559 | what one node sends the other stores iff its chunk count fits 32 bits; a longer value is refused |
| Chunked.LongIsRefused | node/grpc_shim/main.cpp:817-844 | a value of 2^32 or more chunks is never taken |
| Chunked.GetChunked | node/grpc_shim/main.cpp:1561-1615 | streams the numbered pieces of the value, with 32-bit counters |
| Chunked.FetchChunked | node/grpc_shim/main.cpp:1258-1285 | accepts a stream iff it is not empty, counts up from zero and has the declared length, and returns the concatenation |
| Chunked.GetRoundTrip | node/grpc_shim/main.cpp:1258-1285 | a value is fetched back exactly iff its chunk count fits 32 bits; a longer one is never mistaken for anything |
| Chunked.PiecesJoin | node/grpc_shim/main.cpp:817-844 | the first pieces put together are the value up to the cut |
| Registry.CallKeeps | gateway/pulsekv_gateway/registry.py:420-507 | every call keeps hashes and aliases unique, hashes true to their text and pointers on stored versions |
| Registry.RunKeeps | gateway/pulsekv_gateway/registry.py:420-507 | so does every sequence of calls |
| Registry.RunGrows | gateway/pulsekv_gateway/registry.py:699-818 | over every sequence of calls stored content never changes, versions strictly rise, the pointer never goes back and aliases keep their context |
| Registry.PointersMove | gateway/pulsekv_gateway/registry.py:420-456 | a publish, and a register of a new context, point the context at the version stored; no other call moves any pointer |
| Registry.StoresTheRecord | gateway/pulsekv_gateway/registry.py:699-801 | an accepted record is stored whole and no other row changes |
| Registry.RefusesOnlyHarm | gateway/pulsekv_gateway/registry.py:699-801 | a new version is refused iff storing it would break uniqueness, truth of hashes or the order of versions, and with which error |
| Registry.RetiredForGood | gateway/pulsekv_gateway/registry.py:458-509 | retiring needs a live version not younger than the date, changes nothing but that date, and no lookup answers with the version again, whatever follows |
| Registry.HashLookupUnambiguous | gateway/pulsekv_gateway/registry.py:545-564 | at most one live record per namespace has a hash |
| Registry.AliasLookupUnambiguous | gateway/pulsekv_gateway/registry.py:566-599 | at most one current live record per namespace has an alias |
| Registry.LookupsStayUnambiguous | gateway/pulsekv_gateway/registry.py:545-599 | after any calls from an empty registry, no lookup has two answers |
| Registry.Store.Highest | gateway/pulsekv_gateway/registry.py:820-831 | the highest stored version of a context, or none iff it has none |
| Registry.Store.AliasConflict | gateway/pulsekv_gateway/registry.py:699-801 | some alias names another context |
| Registry.Store.ClaimAliases | gateway/pulsekv_gateway/registry.py:699-801 | unclaimed aliases come to name the context, claimed ones keep theirs |
| Registry.Store.Insert | gateway/pulsekv_gateway/registry.py:699-801 | inserts exactly when hash, version, live hash and aliases allow, with the first failing check as the outcome; otherwise nothing changes |
| Registry.Store.Register | gateway/pulsekv_gateway/registry.py:420-433 | inserts, and points the context at the version iff no version of it was stored; otherwise every pointer stays |
| Registry.Store.PublishVersion | gateway/pulsekv_gateway/registry.py:435-456 | inserts and points the context at the new version, and reads back what was stored |
| Registry.Store.Deprecate | gateway/pulsekv_gateway/registry.py:458-509 | retires a live version once, not before its creation |
| Registry.Store.ByContentHash | gateway/pulsekv_gateway/registry.py:545-564 | the one live record with the hash, or none iff there is none |
| Registry.Store.ResolveAlias | gateway/pulsekv_gateway/registry.py:566-599 | the one current live record with the alias, or none iff there is none |
| Normalizer.NormalizeForHash | gateway/pulsekv_gateway/normalizer.py:122-150 | the loops compute the normal form whose laws follow |
| Normalizer.LinesAreCanonical | gateway/pulsekv_gateway/normalizer.py:122-150 | no CR, no trailing inline whitespace, no two blank lines in a row, none at either end |
| Normalizer.NormalizeIsIdempotent | gateway/pulsekv_gateway/normalizer.py:122-150 | normalizing again changes nothing |
| Normalizer.ParagraphsAreKept | gateway/pulsekv_gateway/normalizer.py:122-150 | every line with content survives in order, right-stripped and otherwise untouched, and blank lines separate exactly the lines they separated |
| Normalizer.SameNormalForm | gateway/pulsekv_gateway/normalizer.py:122-150 | two texts are hashed alike iff they have the same paragraphs |
| Normalizer.LineEndsAreUnified | gateway/pulsekv_gateway/normalizer.py:129 | whichever of LF, CR and CRLF each line ends with, the text is read the same iff no CR stands in front of another line's LF |
| Normalizer.CrLfIsHashedAlike | gateway/pulsekv_gateway/normalizer.py:129 | a text with all its line ends written as CRLF, or as CR, has the same normal form |
| Normalizer.RstripStops | gateway/pulsekv_gateway/normalizer.py:137 | exactly space, tab, vertical tab and form feed are stripped off the end of a line |
| Normalizer.BlanksAreHashedAlike | gateway/pulsekv_gateway/normalizer.py:137 | any run of those four at the end of any line leaves the normal form alone |

## Left out

- ServerSafety.TableIsAReplay: is for one worker; WorkerOrder.MatchesIffOneWorker shows that it does not hold for more.
- Answers.OneWorkerAnswers: is for one worker, for the same reason; Answers.GetsReadThePast is for any number.
- LogRefinement.Turn: is one turn of the writer without submissions in between; LogRefinement.Submit, Take and Commit are the separate steps, and GroupCommit interleaves them freely.
- GroupCommit's submit step takes only records within the protocol's limits, which is all the server ever submits; WalWriter handles any record.
- Sockets, epoll registration, signals, path and file-type checks, gRPC stubs, clocks and time-outs: only their outcomes appear.
- Retries after an interrupted system call, read-call counts, statistics and logging.
- The fault-injection switch that skips recovery (src/main.c:1161).
- Weak-memory effects: the push loop of src/main.c:617-624 is one atomic step, and so is each flag exchange.
- The lifetime of the worker structure itself, and the order of joins at shutdown; Shutdown.CanAlwaysFinish shows that the threads can leave, not that the scheduler lets them.
- Backpressure.OnEvent: a failing epoll_ctl, and the same flush after a completion (src/main.c:717-723), are not in it.
- Creation and destruction of the table, its locks and the writer thread beyond whether they succeed.
- The asynchronous replication queue, convergence of replicas and catch-up, the bulk transport, and how the topology view is built.
- The tiered storage engine, the Go router, the encoder, vector index, guard and HTTP proxy.
- SQLite itself: every write block is atomic, its constraints are the checks the code makes before them; listing and candidate search.
- The field checks of the registry's record type, among them that a record names no alias twice.
- SHA-256 is a function of the text; Unicode normalization comes before the model of the normalizer.
