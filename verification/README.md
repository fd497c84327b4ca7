# SCOT replication layer: verified models

SCOT replicates key-value proposals over remote memory writes.  Each hash has an
owner.  Callers propose at any node; the owner puts requests for one hash in order,
coalesces requests that overtake each other, and sends its log to all other nodes.
This project models that layer and two libraries it carries along, and proves what
they are for.

| part | files |
|---|---|
| lock-free table of marked list entries, under any interleaving and as a class run alone | EntryHeap, TableSpec, TableSteps, MapMachine, MapAlone, Chains, LockfreeMap |
| slot allocator over its two atomic counters | SlotAllocator |
| replicator write path: slots, table, writer lock and log as one machine; and as classes run alone | Replicator, ReplicatorInv, ReplicatorSteps, ReplicatorRuns, ReplicatorAlone, ReadyFlags, ScotReplicator |
| byte log, its layout, and its transfer by remote writes that land as growing prefixes | Bytes, LogLayout, ScotLog, LogChannel, LogDelivery |
| checker, receiver, replayer, proposals; the cluster of nodes | Messages, Workers, Cluster, ClusterReplay, ClusterRuns |
| the cluster over bytes: nodes that read each other's logs out of memory | ClusterChannels, ByteCluster, ByteRuns, ByteProgress |
| MurmurHash3, on numbers and on machine words | Murmur, MachineWords, MurmurWords |
| JSON pointers, patch, diff and merge patch | JsonText, JsonPointer, JsonPatch, JsonOperations, JsonEffects, JsonKeys, JsonDiff, JsonDiffPlaces, JsonMergePatch |
| Grisu2 multiplication, boundaries, digit generation and rounding | Arithmetic, Grisu, GrisuBoundaries |
| ring buffer and blocking queue of spdlog | CircularQueue |

Concurrent parts are state machines whose steps are the single loads,
compare-and-swaps, fetch-and-adds and stores of the program; the main results are
about every state of every run.  That the steps can be taken, and calls and messages
completed by running alone, is what MapAlone, ReplicatorAlone, LogDelivery and
ByteProgress show.  Fields that hold history (`calls`, `hist`, `stamps`,
`rank`, `finished`, `epoch`, `lost`, `proposals`, `seen`, request ids) are no part
of the program.  Counts of slots, buckets, nodes, threads and log words are
arbitrary throughout.

What the proofs show about the code where it differs from its comments or names:

- The reset stores 0 to `next_free` before it stores 0 to `processed`
  (src/scot-slot.cc:86-87).  Counts made in between are lost, and after that no
  epoch is ever completed again (`SlotAllocator.LostMeansNoMoreResets`).  A full
  epoch can be reset exactly if every late store of the run so far found
  `processed` still equal to the slot count (`ResetIffNoCountInGap`); for every
  slot count there is a run in which one does not (`LostCountRun`).
- The store `ready = 0` follows the count (src/scot-slot.cc:73-74) and can hit a
  slot that already belongs to the next epoch and to another thread, for every slot
  but the last one (`ReadyFlags.LateClearIff`, `LateClearRun`).  Nothing reads
  `ready`, so nothing else changes (`ReadyUnread`).
- Payloads from 65532 bytes on overflow the 16-bit size and are overwritten by the
  next entry.
- The wait for an acknowledgement is a single test-and-set
  (src/includes/scot-core.hh:92), so a proposal at a node that is not the owner
  does not block.
- The receiver clears the message byte of WAIT messages only
  (src/scot-rcvr.cc:60-72).
- A JSON patch that adds below a string, number or boolean runs into an assertion,
  although RFC 6902 makes that an error of the patch
  (`JsonOperations.AddToPrimitive`, `AddToNumber`).  Removing something below a
  string, number, boolean or null is silently accepted (`RemoveAccepts`,
  `RemoveFromNumber`).  A move done in place whose second half fails has already
  removed the value, unless it was to move the whole document (`MoveLoses`,
  `MoveLosesMember`); the other operations change nothing when they fail
  (`FailuresKeep`).

The cluster machine takes each channel to hand over records in order.  ByteCluster
does not: there every node reads the copies of other nodes' logs into which remote
writes land piece by piece, each log on its own.  Until the first wrap of the logs,
and with payloads of at most 65531 bytes, every reachable state over bytes stands
for a reachable state of the cluster machine (`ByteRuns.RunProjects`), so what the
cluster's replayers see holds of what is read from bytes (`ReadIsPrefix`,
`ReadNeverGoesBack`, `DrainedNodesAgree`).

To check everything: `dafny verify dfyconfig.toml`.

## Model

| member | source | states |
|---|---|---|
| MapMachine.RunRefinesMap | src/lfmap.cc:20-77 | any run of searches and of stale insert, replace and remove attempts by any threads: every successful compare-and-swap is one map operation that is allowed at that time, everything else leaves the map as it is |
| MapMachine.RunListsSorted | src/lfmap.cc:20-77 | in every reachable state every bucket is a circular list in hash order, each live entry is reached in its bucket, and each hash has at most one |
| MapMachine.RunFreezesDead | src/lfmap.cc:39-57 | once an entry is dead its `next` word never changes again, and hashes of published entries never change |
| MapMachine.DeleteEnds | src/lfmap.cc:60-77 | a compare-and-swap ends a removal exactly when the target is marked afterwards; otherwise the removal goes on from the very word it has found, so an insertion behind the target never stops it |
| MapMachine.DeleteReadEnds | src/lfmap.cc:60-67 | a removal that has just read its target ends at once exactly if it is marked |
| MapMachine.InsertEnds | src/lfmap.cc:20-36 | an insertion ends only with its entry in the map, searches again exactly if the left neighbour has another word that is not the protected one, and else tries again with the word it has found |
| MapMachine.ReplaceEnds | src/lfmap.cc:39-57 | a replacement ends only with its entry in the map, searches again exactly if the entry found is no longer protected, and else tries again behind the successor it has found |
| MapAlone.NeverStuck | src/lfmap.cc:20-77 | in every reachable state every thread inside an operation has a step |
| MapAlone.PutAlone | src/scot-rpli.cc:15-26 | from every reachable state an idle thread that runs alone puts any unused entry in the map under any hash, by one insert or replace, and changes nothing else |
| MapAlone.RemoveAlone | src/lfmap.cc:60-77 | and removes any published entry without a mark |
| EntryHeap.BucketsShareNothing | src/lfmap.cc:136-140 | no entry is in two buckets |
| EntryHeap.InsertWf | src/lfmap.cc:20-36 | the inserting write, made on an unchanged left neighbour, keeps all lists well formed whatever happened elsewhere since the search |
| EntryHeap.SwitchWf | src/lfmap.cc:39-57 | the replacing write keeps the lists well formed although the right neighbour was read earlier |
| EntryHeap.UnlinkWf | src/lfmap.cc:193-195 | unlinking the dead entries between two positions keeps the lists well formed |
| TableSpec.LinkedUnique | src/lfmap.cc:143-201 | the memory determines the list of a bucket, so what a search promises about a list is about the only one |
| TableSpec.SearchKeeps | src/lfmap.cc:143-201 | a search is true exactly if the hash has a live entry, returns that entry protected or two adjacent neighbours around the hash, and leaves the map as it was |
| TableSpec.SearchTotal | src/lfmap.cc:143-201 | a search of a well-formed table has a result |
| TableSpec.InsertSetsMap | src/lfmap.cc:20-36 | the inserting write adds one absent hash and changes no other |
| TableSpec.SwitchSetsMap | src/lfmap.cc:39-57 | the replacing write sets one present hash and changes no other |
| TableSpec.DeleteErasesMap | src/lfmap.cc:60-77 | the deleting write erases one hash and changes no other |
| LockfreeTable.LockfreeMap.Traverse | src/lfmap.cc:143-201 | the traversal loop, on the words in memory, computes the specified search result and makes the specified write |
| LockfreeTable.LockfreeMap.Protect | src/lfmap.cc:165-183 | the inner loop ends, and protects exactly if the entry is not dead |
| LockfreeTable.LockfreeMap.Search | src/lfmap.cc:143-201 | search against the abstract map: found iff present, neighbours otherwise, map unchanged |
| LockfreeTable.LockfreeMap.Insert | src/lfmap.cc:20-36 | succeeds iff the left neighbour still points at the right one, protected or not; states the memory after either outcome |
| LockfreeTable.LockfreeMap.Replace | src/lfmap.cc:39-57 | succeeds iff the left neighbour is protected, then behind its current successor; states the memory after either outcome |
| LockfreeTable.LockfreeMap.Remove | src/lfmap.cc:60-77 | erases the hash of an unmarked target and leaves a target with either mark alone |
| LockfreeTable.LockfreeMap.InsertTurn | src/lfmap.cc:25-34 | one turn of the insert loop is the step the concurrent machines take |
| LockfreeTable.LockfreeMap.SwitchTurn | src/lfmap.cc:45-55 | one turn of the replace loop is the step the concurrent machines take |
| LockfreeTable.LockfreeMap.DeleteTurn | src/lfmap.cc:67-74 | one turn of the delete loop is the step the concurrent machines take |
| LockfreeTable.LockfreeMap.GetBucket | src/lfmap.cc:136-140 | the bucket is the index modulo the bucket count |
| LockfreeTable.LockfreeMap.Reset | src/lfmap.cc:322-326 | after a reset the table is well formed and holds the empty map |
| LockfreeTable.LockfreeMap.constructor | src/lfmap.cc:258-267 | a new table holds the empty map |
| LockfreeTable.LockfreeMap.TryInsert | src/scot-rpli.cc:15-26 | insert-or-replace makes the entry the live one of its hash and changes no other hash |
| Chains.InsertKept | src/lfmap.cc:20-36 | as long as nothing is removed, inserting keeps every entry listed and the entries of a hash in publication order |
| Chains.SwitchKept | src/lfmap.cc:39-57 | the same for replacing |
| Chains.SearchKept | src/lfmap.cc:143-201 | the same for searching: there is nothing to unlink |
| Chains.ChaseStep | src/scot-rpli.cc:32-37 | the successor of a dead entry has the same hash and was published later |
| Chains.ChaseSkipsNone | src/scot-rpli.cc:32-37 | and it is the very next one published for the hash |
| Chains.LiveIsLast | src/scot-rpli.cc:28-42 | the live entry of a hash was published last of all its entries |
| Chains.Chase | src/scot-rpli.cc:28-42 | chasing from any published entry ends on the live entry of its hash |
| SlotAllocator.SlotsExclusive | src/scot-slot.cc:39-65 | in no reachable state do two threads hold one slot |
| SlotAllocator.WipeOnlyWhenAllFinished | src/scot-slot.cc:77-90 | table reset and slot wipe are made by one thread, when every slot of the epoch has been counted and nobody holds one |
| SlotAllocator.StepInv | src/scot-slot.cc:25-93 | every step keeps the invariant over slots, resets and counters |
| SlotAllocator.ResetIffNoCountInGap | src/scot-slot.cc:77-87 | over every run: the last holder of a full epoch can reset iff every late store so far found `processed` equal to the slot count, that is, no count was made between the two stores of a reset |
| SlotAllocator.LateStoreLosesCounts | src/scot-slot.cc:86-87 | the late store to `processed` loses exactly the counts made since the store to `next_free` |
| SlotAllocator.LostMeansNoMoreResets | src/scot-slot.cc:25-29 | after a lost count there is no further reset, whatever the threads do |
| SlotAllocator.LostCountRun | src/scot-slot.cc:73-90 | for every slot count there is a run of two threads in which a count is lost and a full epoch is left that cannot be reset |
| SlotAllocator.FusedIsExact | src/scot-slot.cc:73-90 | with both stores made at once `processed` equals the number of finished slots in every reachable state, and a full epoch can be reset |
| SlotAllocator.CountersBounded | src/scot-slot.cc:39-48 | `next_free` exceeds the slot count by at most the number of spinning threads, `processed` by at most a factor of two |
| SequentialReplicator.ScotSlot.RegisterEntry | src/scot-slot.cc:39-65 | one turn of the wait: grants the next slot iff there is one left, fills it with the arguments and touches no other; the counter moves on in any case |
| SequentialReplicator.ScotSlot.MarkEntryFinished | src/scot-slot.cc:68-93 | one turn of the wait: counts and clears `ready`; the holder of the last slot resets the table, if there is one, and slots and counters iff all slots are counted |
| ReplicatorSteps.StepInv | src/scot-rpli.cc:49-151 | every step of every thread, resets included, keeps the invariant that joins slots, table, lock, log and history |
| ReplicatorRuns.LogNeverGoesBack | src/scot-rpli.cc:65-74 | over every run and all epochs: of two log records of one hash the later is of the same or a later publication |
| ReplicatorRuns.LastRecordIsLastPublished | src/scot-rpli.cc:65-74 | once no writer is between publishing and logging, the last record of every hash is the request published last for it |
| ReplicatorRuns.EveryCallPublished | src/scot-rpli.cc:54-69 | in every reachable state publications and requests in flight are together the requests called, each as often; when all threads rest the publications are a permutation of the calls; whatever was logged was called |
| ReplicatorRuns.CallerIsLogged | src/scot-rpli.cc:54-136 | once the thread of a call has released the writer lock, whatever the others do, the log holds its request or one published later for the same hash, from then on |
| ReplicatorRuns.RunGrows | src/scot-rpli.cc:74-74 | the log and the publications only grow at their ends |
| ReplicatorRuns.AssertionHolds | src/scot-rpli.cc:39-39 | the same-hash assertion never fails, in any interleaving |
| ReplicatorRuns.ChaseMovesOn | src/scot-rpli.cc:33-37 | each turn of the chase loop moves to a later publication, of which there are finitely many |
| ReplicatorRuns.NeverStuck | src/scot-rpli.cc:49-151 | in every reachable state every thread outside the three spin loops has a step |
| ReplicatorAlone.WriteAlone | src/scot-rpli.cc:49-151 | from every reachable state in which a slot is left and nobody is inside the writer lock, a thread that runs alone registers, publishes, logs and counts its own request |
| ReadyFlags.LateClearIff | src/scot-slot.cc:73-77 | the store to `ready` after the count of a slot can come in a later epoch iff the slot is not the last one |
| ReadyFlags.LateClearRun | src/scot-slot.cc:73-77 | for every slot count and every slot but the last: a run in which that store clears the flag of a slot another thread has just filled |
| ReadyFlags.ReadyUnread | src/scot-rpli.cc:35-35 | with any other flags every step of the replicator is possible all the same and does the same to all the rest |
| SequentialReplicator.ScotReplicator.GetLatestEntry | src/scot-rpli.cc:28-42 | returns the live entry of the hash and clears `ready` of exactly the entries passed |
| SequentialReplicator.ScotReplicator.LogLatest | src/scot-rpli.cc:68-136 | logs the newest entry of the hash and posts all bytes of that record to every other node, at its place in the log |
| SequentialReplicator.ScotReplicator.WriteRequest | src/scot-rpli.cc:49-151 | one caller at a time: its own request is logged byte for byte and posted to every other node, the table maps its hash to its slot, and exactly the last slot of a round resets |
| SequentialReplicator.TurnIsMod | src/scot-slot.cc:39-48 | write number i gets slot i modulo the slot count |
| SequentialReplicator.ScotReplicator.constructor | src/scot-rpli.cc:45-47 | a new replicator has an empty table and an empty log |
| LogLayout.TakeIsCeiling | src/scot-log.cc:45-50 | the 16-bit rounding takes as many words as payload and canary need iff the payload has at most 65531 bytes |
| LogLayout.AfterValue | src/scot-log.cc:43-57 | for every index and size the word after an entry: behind header, payload and canary, and 0 exactly if that is no aligned word; of a payload above 65531 bytes only the header is counted |
| LogLayout.LapDisjoint | src/scot-log.cc:60-104 | within one lap entries never overlap |
| LogLayout.LongPayloadOverlaps | src/scot-log.cc:45-57 | a longer payload is overwritten by the next entry unless the log wraps |
| LogLayout.IdxInArray | src/scot-log.cc:51-57 | the next index is always inside the aligned array |
| LogLayout.EntryInBuffer | src/scot-log.cc:60-104 | every byte of every entry stays in the buffer, also of an entry that runs past the aligned array |
| LogLayout.CompiledLayout | src/includes/scot-def.hh:40-49 | the compiled-in sizes leave that much room |
| LogLayout.HeaderBytesAre | src/includes/scot-log.hh:19-24 | the eight header bytes: hash and size with the lowest byte first, instance, message type |
| LogLayout.EncodeAt | src/scot-log.cc:60-95 | header, payload from byte 8 on, canary 36 right behind it |
| LogLayout.MasksHear | src/scot-log.cc:121-122 | which message bytes each of the two masks hears, and the message types |
| LogLayout.LookIs | src/scot-log.cc:119-152 | an entry is taken iff its message byte is heard and it is a bare header or has the canary behind its payload; it is taken byte for byte |
| LogLayout.TakenAt | src/scot-log.cc:146-153 | taking an entry sets its canary to 0 and changes no other byte |
| LogLayout.TakenOnce | src/scot-log.cc:146-153 | an entry taken is not seen again, but a bare header is |
| LogLayout.EncodeLook | src/scot-log.cc:106-167 | an encoded entry is read back as it was written, whatever bytes the payload holds |
| MessageLog.ScotLog.constructor | src/scot-log.cc:31-42 | clears the aligned log and nothing behind it |
| MessageLog.ScotLog.WriteLocalLog | src/scot-log.cc:60-104 | the memory afterwards is the one before with the encoded entry at the next index; index and instance move on |
| MessageLog.ScotLog.PollOnce | src/scot-log.cc:106-167 | one test of both spins: takes an entry iff the shared reading function sees one, resets its canary, moves on; otherwise changes nothing |
| LogChannel.ReaderExact | src/scot-log.cc:106-167 | with remote writes landing as arbitrary growing prefixes, up to the first wrap, the reader has taken complete entries only, in the order sent, with exactly their headers and payloads; indices and instance numbers agree once all is read |
| LogChannel.ReadsWhenComplete | src/scot-log.cc:121-158 | the reader can take an entry exactly when the next one has landed completely |
| LogChannel.StepInv | src/scot-log.cc:60-167 | every send, landing, read and clearing keeps the invariant between sent entries, landed bytes and reader |
| LogDelivery.CanSend | src/scot-log.cc:60-104 | before the first wrap every message of a type the reader listens to can be sent |
| LogDelivery.CanDeliver | src/scot-log.cc:106-167 | from every reachable state landing and reading alone can bring over all that was sent, as it was sent |
| Workers.ScotChecker.WriteRequest | src/scot-chkr.cc:22-136 | one caller at a time: takes slot i modulo the slot count, posts the whole message as WAIT to the owner and just the header as HDRONLY to everybody else, at the same offset, and counts; nothing waits |
| Workers.ScotChecker.PostOne | src/scot-chkr.cc:75-109 | rewrites the message byte for the destination and posts what that destination gets |
| Workers.ForwardedBytes | src/scot-chkr.cc:75-109 | the owner gets all bytes of the entry as WAIT, every other node the eight header bytes as HDRONLY |
| Workers.ForwardedIsAddressed | src/scot-chkr.cc:75-109 | these are the bytes of what the cluster machine addresses to that node |
| Workers.ScotChecker.ReleaseWait | src/scot-chkr.cc:139-148 | releases the lock only for the hash waited for |
| Workers.ScotReplayer.Turn | src/scot-rply.cc:47-66 | takes a PURE or ACK record, releases the checker for an ACK of its hash, clears the message byte |
| Workers.ScotReceiver.Turn | src/scot-rcvr.cc:47-73 | a WAIT becomes one write of the replicator, as ACK with hash and payload as sent, is posted to every other node and cleared; a bare header is passed over |
| Workers.ScotCore.Propose | src/scot-core.cc:116-138 | exactly one of replicator and checker takes the proposal, by the owner of its hash; what each posts |
| ClusterRuns.RecordsComeFromTheOwner | src/scot-core.cc:116-138 | in every reachable state a record stands in the replicator log of the owner of its hash, carries a proposed payload, and is PURE iff proposed there |
| ClusterRuns.ReplayedIsPrefix | src/scot-rply.cc:47-66 | what a node has replayed for a hash is a prefix of the records of its owner, so of two nodes one is ahead of the other |
| ClusterRuns.ReplayedNeverGoesBack | src/scot-rply.cc:47-66 | no node replays a value and after it one published earlier for the same hash |
| ClusterRuns.OwnerReplaysNothing | src/scot-rpli.cc:104-123 | a node replays nothing of the hashes it owns |
| ClusterRuns.EveryProposalCalledOnce | src/scot-rcvr.cc:60-63 | once checkers and receivers are done every proposal is exactly one call at the owner of its hash |
| ClusterRuns.DrainedNodesAgree | src/scot-rply.cc:47-66 | once the owner rests and its channel is drained, a node ends on the request published last for the hash |
| Cluster.HearSource | src/scot-rcvr.cc:47-73 | a receiver step keeps all calls fit for the node that owns the hash |
| ClusterReplay.HearAccount | src/scot-rcvr.cc:47-73 | a receiver step neither loses nor doubles a proposal |
| ClusterReplay.ReplayReplay | src/scot-rply.cc:47-66 | a replayer step keeps what was replayed a prefix of the owner's records |
| ClusterChannels.SendIsWrite | src/scot-rpli.cc:74-123 | logging a record gives the byte log to each node that record |
| ClusterChannels.ReadIsReplay | src/scot-rply.cc:47-66 | reading a replicator log over a byte log is the cluster's step of replaying the next record, with hash, payload and type as logged |
| ClusterChannels.ReadIsHear | src/scot-rcvr.cc:47-73 | reading a forwarded message over a byte log is the cluster's step of hearing it: a WAIT calls the replicator with hash and payload as read, a bare header calls nothing |
| ClusterChannels.SendIsForward | src/scot-chkr.cc:75-109 | forwarding a message gives the byte log to each node what is addressed to it |
| ByteCluster.StepStands | src/scot-log.cc:60-167 | every step of the cluster over bytes (proposals, posts, bytes landing in any prefix, reads, replicator steps) is a step of the cluster machine or one it does not see |
| ByteRuns.RunProjects | src/scot-log.cc:60-167 | every reachable state of the cluster over bytes stands for a reachable state of the cluster machine |
| ByteRuns.ReadIsPrefix | src/scot-rply.cc:47-66 | what a node reads from bytes for a hash says a prefix of what the owner has logged for it, so of two nodes one is ahead of the other |
| ByteRuns.ReadNeverGoesBack | src/scot-rply.cc:47-66 | no node reads from bytes a value and after it one published earlier for the same hash |
| ByteRuns.DrainedNodesAgree | src/scot-rply.cc:47-66 | once the owner rests and all that was sent has been read, the last record a node has read from bytes says the request published last for the hash |
| ByteProgress.CanProposeElsewhere | src/scot-core.cc:116-138 | a node always takes a proposal for a hash it does not own |
| ByteProgress.CanProposeHere | src/scot-core.cc:116-138 | and the owner one on any thread that rests |
| ByteProgress.CanForward | src/scot-chkr.cc:75-109 | a message that waits can be forwarded as long as no log to another node has wrapped |
| ByteProgress.CanWork | src/scot-rpli.cc:49-151 | so can the replicator take any step, also one that logs |
| ByteProgress.CanHearNext | src/scot-rcvr.cc:47-73 | from every reachable state a receiver whose thread rests can hear its next message; one meant for its node becomes a call there |
| ByteProgress.CanReplayAll | src/scot-rply.cc:47-66 | from every reachable state a node can replay all that another one has logged |
| Murmur.ComputeHash | src/lfmap.cc:204-255 | the loop computes the hash function |
| MurmurWords.WordHash | src/lfmap.cc:204-255 | the hash on numbers is, for every key and seed, the program on 32-bit machine words with its shifts, rotations, xors and products |
| MurmurWords.HashIs | src/lfmap.cc:204-255 | so either determines the other |
| MurmurWords.WordRotL15 | src/lfmap.cc:222-222 | the rotation by 15 is that of the macro |
| MurmurWords.WordRotL13 | src/lfmap.cc:226-226 | the rotation by 13 is that of the macro |
| MurmurWords.WordXor | src/lfmap.cc:225-225 | bit by bit the xor of words |
| MurmurWords.WordMul | src/lfmap.cc:220-223 | the product modulo 2^32 is the product of words |
| MurmurWords.WordBlock | src/lfmap.cc:216-219 | four bytes are loaded as a little-endian word |
| MurmurWords.WordTail | src/lfmap.cc:231-238 | up to three bytes behind the blocks, each at its place |
| MurmurWords.HashOfAbcd | src/lfmap.cc:204-255 | "abcd" with seed 0 has the hash 0x43ed676a |
| MurmurWords.HashOfHello | src/lfmap.cc:204-255 | "hello" with seed 0 has the hash 0x248bfa47 |
| Murmur.NoCollisionInBlock | src/lfmap.cc:218-228 | keys of one length that differ inside one aligned block only have different hashes |
| Murmur.NoCollisionInTail | src/lfmap.cc:230-244 | keys of one length that differ behind the last block only have different hashes |
| Murmur.NoCollisionOfSeeds | src/lfmap.cc:209-209 | for one key different seeds give different hashes |
| Murmur.MixHashInjective | src/lfmap.cc:219-227 | mixing a block in loses neither the hash so far nor the block |
| Murmur.FinalInjective | src/lfmap.cc:248-254 | the final mixing is injective |
| JsonText.ReplaceSubstring | extern/nlohmann/detail/string_escape.hpp:31-40 | the in-place loop ends and replaces every occurrence, from left to right |
| JsonText.EscapeSigns | extern/nlohmann/detail/string_escape.hpp:50-56 | a tilde becomes ~0, a slash ~1, and every other character stays |
| JsonText.UnescapeSigns | extern/nlohmann/detail/string_escape.hpp:63-69 | and back |
| JsonText.UnescapeEscape | extern/nlohmann/detail/string_escape.hpp:50-69 | unescaping undoes escaping for every text |
| JsonText.EscapeUnescape | extern/nlohmann/detail/string_escape.hpp:50-69 | escaping undoes unescaping for every properly escaped text |
| JsonText.IndexToString | extern/nlohmann/detail/json_pointer.hpp:214-249 | an array index is read back from its decimal form up to the largest size |
| JsonEffects.DecimalDigits | extern/nlohmann/detail/json_pointer.hpp:214-249 | the decimal form has the digits of the number, the lowest last |
| JsonEffects.IndexIff | extern/nlohmann/detail/json_pointer.hpp:214-249 | a token is an index iff it is the decimal form of a number below the largest size |
| JsonEffects.IndexCodes | extern/nlohmann/detail/json_pointer.hpp:214-249 | how every other token fails |
| JsonPointer.SplitText | extern/nlohmann/detail/json_pointer.hpp:666-724 | the slash loop computes the tokens or the error |
| JsonPointer.SplitPrint | extern/nlohmann/detail/json_pointer.hpp:68-76 | splitting a printed token list gives the list back |
| JsonPointer.PrintSplit | extern/nlohmann/detail/json_pointer.hpp:666-724 | printing the tokens of a valid pointer gives the pointer back |
| JsonPointer.SplitIff | extern/nlohmann/detail/json_pointer.hpp:666-724 | which texts are pointers |
| JsonPointer.SplitCodes | extern/nlohmann/detail/json_pointer.hpp:666-724 | how every other text fails |
| JsonPointer.ToText | extern/nlohmann/detail/json_pointer.hpp:68-76 | printing token by token |
| JsonPatch.GetChecked | extern/nlohmann/detail/json_pointer.hpp:421-466 | the loop over the tokens computes the value pointed to, or the error |
| JsonEffects.GetNext | extern/nlohmann/detail/json_pointer.hpp:421-466 | what one more token leads to: a member, an item, or which error |
| JsonPatch.Document.PatchInplace | extern/nlohmann/json.hpp:4674-4941 | the loop leaves the document, also when an operation throws, and ends with the exception that the function says |
| JsonEffects.PatchAppend | extern/nlohmann/json.hpp:4813-4941 | elements are applied one after the other until one fails |
| JsonEffects.PatchAdds | extern/nlohmann/json.hpp:4858-4862 | a patch of one add puts the value at its place and changes nothing else, or fails and changes nothing |
| JsonEffects.PatchRemoves | extern/nlohmann/json.hpp:4864-4868 | a patch of one remove takes away the member or item and changes nothing else, or fails and changes nothing |
| JsonEffects.PatchReplaces | extern/nlohmann/json.hpp:4870-4875 | a patch of one replace succeeds iff the place is there, puts the value there and changes nothing else |
| JsonEffects.PatchMoves | extern/nlohmann/json.hpp:4877-4892 | a patch of one move takes the value away from its source and adds it at the target to what is left; what a failing one leaves |
| JsonEffects.PatchCopies | extern/nlohmann/json.hpp:4894-4907 | a patch of one copy adds the value found at its source and takes nothing away, or changes nothing |
| JsonEffects.PatchTests | extern/nlohmann/json.hpp:4909-4930 | a patch of one test changes nothing, succeeds iff the value is there, and how it fails |
| JsonEffects.PatchRejects | extern/nlohmann/json.hpp:4845-4853 | an element that is no object, or has no text for op or path, fails with 104 or 105 |
| JsonEffects.PatchLacks | extern/nlohmann/json.hpp:4816-4843 | another operation, or a missing value or source, fails with 105 |
| JsonEffects.PatchBadPointer | extern/nlohmann/json.hpp:4851-4854 | a bad pointer fails as reading it does |
| JsonEffects.PatchBadSource | extern/nlohmann/json.hpp:4879-4880 | so does a bad source |
| JsonEffects.PatchNoArray | extern/nlohmann/json.hpp:4807-4811 | a patch that is no array fails with 104 |
| JsonOperations.AddIsThere | extern/nlohmann/json.hpp:4711-4776 | an added value is found at its pointer unless appended as "-" |
| JsonEffects.AddDoes | extern/nlohmann/json.hpp:4711-4776 | an add makes the member or item, and every place apart from the parent is as it was |
| JsonEffects.AddAccepts | extern/nlohmann/json.hpp:4711-4776 | an add succeeds iff it is for the whole document, or the parent is null, an object, or an array with such a place |
| JsonEffects.AddFails | extern/nlohmann/json.hpp:4711-4776 | the number with which an add fails; the separate look at the topmost token never matters |
| JsonEffects.RemoveDoes | extern/nlohmann/json.hpp:4779-4805 | a remove takes away the member or item, and every place apart from the parent is as it was |
| JsonEffects.RemoveFails | extern/nlohmann/json.hpp:4779-4805 | the number with which a remove fails |
| JsonEffects.ReplaceDoes | extern/nlohmann/json.hpp:4870-4875 | a replace puts the value there, and every place apart is as it was |
| JsonOperations.RemoveUndoesAdd | extern/nlohmann/json.hpp:4779-4805 | removing what was added restores the document iff a new member or an indexed item was added |
| JsonOperations.ReplaceIsThere | extern/nlohmann/json.hpp:4870-4875 | a replaced value is found at its pointer, and replacing it back restores the document |
| JsonOperations.MoveIsThere | extern/nlohmann/json.hpp:4877-4892 | a moved value is found at the new pointer; a failing move has lost the value unless there was nothing to move or it was to move the whole document |
| JsonOperations.MoveLoses | extern/nlohmann/json.hpp:4877-4892 | a failing move leaves the document as it was iff there is nothing at its source or the source is the whole document |
| JsonOperations.MoveLosesMember | extern/nlohmann/json.hpp:4877-4892 | {"a":1} moved from /a to /b/c fails and leaves {} |
| JsonOperations.RemoveAccepts | extern/nlohmann/json.hpp:4779-4805 | removing what is not there succeeds, and changes nothing, iff the parent is there and neither object nor array |
| JsonOperations.RemoveFromNumber | extern/nlohmann/json.hpp:4787-4804 | removing /a from 1 and from null succeeds |
| JsonOperations.FailuresKeep | extern/nlohmann/json.hpp:4711-4805 | a failing add, remove, replace or copy leaves the document as it was |
| JsonOperations.CopyIsThere | extern/nlohmann/json.hpp:4894-4907 | a copied value is found at the new pointer |
| JsonOperations.TestIff | extern/nlohmann/json.hpp:4909-4930 | a test succeeds iff the value is there, changes nothing, and how it fails |
| JsonOperations.AddToPrimitive | extern/nlohmann/json.hpp:4720-4775 | an add runs into the assertion that parents are no primitives iff the parent is there and no null, object or array |
| JsonOperations.AddToNumber | extern/nlohmann/json.hpp:4765-4775 | adding /a to 1 runs into that assertion |
| JsonDiff.PatchDiff | extern/nlohmann/json.hpp:4954-5085 | patching any source with the diff gives the target, and no operation fails |
| JsonDiffPlaces.DiffNeeded | extern/nlohmann/json.hpp:4954-5085 | every operation of a diff is needed where it is made: it replaces a value by another that is not of the same kind of container, removes what the target lacks, or adds what the source lacks |
| JsonDiff.DiffAt | extern/nlohmann/json.hpp:4954-5085 | the same for the diff of a value anywhere in a document, under its printed path |
| JsonDiff.ComputeDiff | extern/nlohmann/json.hpp:4954-5085 | the loops and recursive calls compute the diff |
| JsonKeys.SortedKeys | extern/nlohmann/json.hpp:5026-5060 | objects are visited key by key in lexicographic order |
| JsonKeys.SortedAscends | extern/nlohmann/json.hpp:5026-5060 | that order is strictly ascending |
| JsonKeys.LessIff | extern/nlohmann/json.hpp:5026-5060 | the order of two keys is decided at the first position where they differ |
| JsonMergePatch.MergeInPlace | extern/nlohmann/json.hpp:5097-5121 | the in-place merge equals MergePatch of section 2 of RFC 7396 |
| JsonMergePatch.MergedMember | extern/nlohmann/json.hpp:5097-5121 | key by key: a member not named is kept, null removes, anything else merges, a missing one counting as null |
| JsonMergePatch.MergedPlace | extern/nlohmann/json.hpp:5097-5121 | at any depth: what the patch sets is there, what it sets to null is gone, what it does not name is as it was |
| JsonMergePatch.MergeTwice | extern/nlohmann/json.hpp:5097-5121 | merging one patch twice is merging it once |
| Grisu.Mul | extern/nlohmann/detail/conversions/to_chars.hpp:82-141 | the rounded upper half of the 128-bit product, exactly, without overflow |
| Grisu.MulMonotone | extern/nlohmann/detail/conversions/to_chars.hpp:82-141 | it keeps the order and is within half a unit of the product |
| Grisu.FindLargestPow10 | extern/nlohmann/detail/conversions/to_chars.hpp:489-544 | the number of digits and the power of ten of the leading one, with one digit for 0 |
| Grisu.Round | extern/nlohmann/detail/conversions/to_chars.hpp:546-581 | lowers the last digit step by step, never below zero, as far as that goes closer |
| Grisu.RoundedIsClosest | extern/nlohmann/detail/conversions/to_chars.hpp:573-580 | where the loop stops no other number with as many decimals in the interval is closer to the target |
| Grisu.IntegralDigits | extern/nlohmann/detail/conversions/to_chars.hpp:627-709 | the digits of the integral part, with early stop |
| Grisu.FractionDigits | extern/nlohmann/detail/conversions/to_chars.hpp:750-806 | the digits of the fraction; ends after as many digits as the fraction has bits, and as soon as there are enough for the interval |
| Grisu.DigitGen | extern/nlohmann/detail/conversions/to_chars.hpp:587-820 | no overflow, no failing assertion; digits of a number in the interval, closest to the target, with no shorter one in the interval, and neither first nor last digit zero; with the upper bound at most 10^(n-1) times the interval no more than n digits, for every n |
| Grisu.GoodIsBetween | extern/nlohmann/detail/conversions/to_chars.hpp:587-589 | the number printed lies between the two bounds |
| GrisuBoundaries.ComputeBoundaries | extern/nlohmann/detail/conversions/to_chars.hpp:189-254 | the number and the midpoints to its neighbours as 64-bit numbers of one exponent, normalized, with no bit shifted out; also below the smallest normal number and at powers of two |
| GrisuBoundaries.BoundsAreMidpoints | extern/nlohmann/detail/conversions/to_chars.hpp:220-254 | the upper boundary is half way to the next floating-point number, the lower one half way to the one before |
| GrisuBoundaries.NextNumber | extern/nlohmann/detail/conversions/to_chars.hpp:196-219 | counting the bits of a number up by one adds one unit of its exponent |
| GrisuBoundaries.KnownNumbers | extern/nlohmann/detail/conversions/to_chars.hpp:196-219 | significand and exponent of 1.0 and of the smallest number, in both precisions |
| GrisuBoundaries.Grisu2 | extern/nlohmann/detail/conversions/to_chars.hpp:828-877 | what is printed lies strictly between the exact products of the boundaries with the cached power, and are at most 17 for double and 9 for single precision |
| GrisuBoundaries.Grisu2Of | extern/nlohmann/detail/conversions/to_chars.hpp:1093-1103 | for every finite number above zero and any table of normalized cached powers of fitting exponent: what is printed lies strictly between the boundaries of that number scaled by the power taken, and `max_digits10` characters are enough |
| GrisuBoundaries.PrintedIsBetween | extern/nlohmann/detail/conversions/to_chars.hpp:828-877 | digits times the power of ten of both exponents lie strictly between the exact products of the boundaries with the cached power |
| CircularQueue.CircularQ.PushBack | extern/spdlog/details/circular_q.h:49-62 | keeps the last items up to the capacity and counts the one pushed out; a disabled queue drops the item |
| CircularQueue.CircularQ.PopFront | extern/spdlog/details/circular_q.h:99-102 | drops the oldest item; pushes are pops, overruns and items held |
| CircularQueue.CircularQ.At | extern/spdlog/details/circular_q.h:91-95 | item i of those held |
| CircularQueue.CircularQ.Full | extern/spdlog/details/circular_q.h:109-117 | full exactly at capacity; a disabled queue never |
| CircularQueue.BlockingQueue.Enqueue | extern/spdlog/details/mpmc_blocking_q.h:32-40 | one turn of the wait: goes on iff there is room, then appends, and never overruns |
| CircularQueue.BlockingQueue.Dequeue | extern/spdlog/details/mpmc_blocking_q.h:70-79 | one turn of the wait: goes on iff there is an item, then takes the oldest; what came out is always a prefix of what went in |

## Left out

- Cluster.HearSource: states where calls come from; that one acknowledgement answers one WAIT is not claimed, because coalescing may log another request.
- LogChannel.ReaderExact: ends at the first wrap of the log, because the code neither clears old payloads nor has flow control for PURE messages; it starts from a buffer that is zero throughout, while the constructor clears the aligned log only.
- LogLayout.LapDisjoint: payloads of at most 65531 bytes, the exact bound of the 16-bit size.
- JsonDiff.PatchDiff: values are compared exactly; an integer equal to a floating-point number, unsigned integers as a type of their own, NaN and binary values are not modelled. Every array must have a length that fits in 64 bits.
- JsonPatch.Document.PatchInplace: where C++ leaves the order of two failing checks open, a missing value is reported first; exception texts are left out.
- Grisu.DigitGen: a lower bound of zero, which no normalized number has, is covered but for shortness and the last digit.
- GrisuBoundaries.Grisu2Of: the table of cached powers is a parameter, normalized and with exponents in range as the source asserts of it; how close its entries are to powers of ten, the formatting of the digits and the reading of the bits of a floating-point number are not part of this model.
- LockfreeTable.LockfreeMap.Replace: requires that the two marks do not stand together, which no step ever produces and with which the loop of the source would not end.
- SequentialReplicator.ScotReplicator.WriteRequest: one caller at a time, so its slot is always granted and it logs its own request; Replicator has the interleavings and the writer lock.
- ClusterChannels.ReadIsHear: reading a message and calling the replicator with it is one step, for a receiver whose thread of the replicator rests, as a worker finishes one message before it takes the next.
- ByteRuns.RunProjects: ends for a log at its first wrap, and leaves out payloads above 65531 bytes, as LogChannel does.
- Single loads inside one search: the program reads `prev->next` after `curr->next`, and the table invariant is not claimed at that grain.
- `cleanup` and `cleanup_after_slot` of the table: nothing calls them, and they compare a value before assigning it.
- Progress of the spin loops, fairness and memory orders.
- The slots of the checker in the cluster machine; its calls stand in a set until it sends.
- Remote memory registration, queue pairs, connection set-up, worker pause and halt, heartbeat, statistics and message output.
- Lifetime of the callers' buffers: payloads are taken at the call.
- Changing the ownership rule while proposals are under way.
- JSON parsing and dumping, flatten and unflatten; the sinks and formatters of spdlog, its non-blocking queue calls and the resetting of its overrun counter.
