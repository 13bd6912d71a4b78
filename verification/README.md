# Verified model of the streaming backend

A Dafny model of the hand-written parts of the streaming platform: the radix tree behind route
lookup, the work-stealing thread pool, WebSocket framing and connections, JSON web tokens with
their Base64URL codec, the Redis (RESP) codec, HTTP request framing, route dispatch, viewer
counting, the database connection pool, and the generated fragment shader of the scene renderer.

Structures that the source changes in place (tree nodes, queues, connections, the registry, the
server's routes) are classes whose methods are proved against functions of the old state; the
two concurrent pools are step systems in which every atomic access, critical section, semaphore
or condition-variable operation is one step, and the theorems quantify over all runs. Sockets are
replaced by arbitrary chunks and arbitrary partial-send sizes, the clock and the MAC by parameters.

`dafny verify dfyconfig.toml` checks the project.

## Files

- `RadixShape`, `RadixUpdates`, `RadixDoubled`, `RadixOrder`: the tree as a forest of records, its
  rearrangements, doubled keys and the visiting order. `RadixTree`, `RadixIterator`: the heap
  structure. `RadixRuns`: whole runs.
- `SafeQueue`, `ThreadPool`, `PoolSafety`, `PoolRuns`, `PoolOrder`,
  `PoolWaiters` (with `Sums`): the thread pool.
- `Sequences`, `Sizes`, `Bytes`, `Streams`, `WebSocketFrame`, `WireFormat`, `WebSocketConnection`:
  framing and the connection.
- `Text`, `Base64`, `Jwt`; `Resp`; `HttpFraming`; `Routing`; `SceneShader`; `Viewers`; `PgPool`.

## Where the code does not do what one would expect

- Re-inserting a present key that no other key extends turns its leaf into an internal node with
  one empty-edge child ("doubled"). The map is unchanged, but a later `erase` of that key leaves it
  stored with the default value and still decrements the size. `RadixRuns.EraseRemovesIff` gives
  the exact condition over whole runs, `RadixRuns.SizeDrift` the resulting drift of `size()`.
- After the last key is erased the root stays: `find("")` then returns the root, and `erase("")`
  would go through its null parent pointer. `Find` states the first; the second is `Erase`'s only
  precondition (`RadixRuns.Crashes` over runs, reached in `RadixRuns.DrainedEraseCrashes`).
- The thread pool announces completion with `notify_one`: of two threads in `wait_for_tasks` one
  can stay blocked for good. `PoolWaiters.ReleasesIff`: all waiting threads are always released
  iff there is at most one; `PoolRuns.WaitersReleased`: or if no two are blocked at once.
- `pos + payload_len` in the frame parser wraps for lengths near 2^64 and the following resize
  throws (`FailsIff`, `HugeLengthFails`); it cannot when the top length bit is clear.
- An empty CLOSE is answered with status 1005, which section 7.4.1 of RFC 6455 reserves.
- A user name with a double quote does not come back from its token (`Jwt.NameComesBackIff`), and
  it may set the expiry that `Verify` reads (`Jwt.OwnExpiryIff`, `Jwt.NameSetsExpiry`).
- Exact routes ignore the request method, pattern routes compare it. `Routing.RespectsMethodIff`
  says for which requests that makes no difference, `Routing.LaterMethodUnreached` where it does.
- `OnReadable` of the HTTP connection handles one request per event, although its comment speaks
  of pipelining: a second complete request waits for the next event (`HttpFraming.PipeliningIff`,
  `HttpFraming.BacklogDrains`).
- A Content-Length near 2^64 wraps the size of the request, which is then cut off inside its own
  header block, even at zero bytes (`HttpFraming.CutCoversHeadersIff`, `HttpFraming.ZeroByteRequest`).
- A close handler that runs for a viewer no longer registered lowers the counter of the others;
  `Viewers.ExactIff` gives the exact condition.

## Model

| member | source | states |
|---|---|---|
| `RadixTrees.RadixTree.FindNode` | backend/zvejys-rest-api/include/PhamPhiLong_Radix-Tree/radix_tree.h:47-71 | a descent from a trunk node ends on the leaf holding the key, or on nothing exactly when no leaf holds it |
| `RadixTrees.RadixTree.Find` | backend/zvejys-rest-api/include/PhamPhiLong_Radix-Tree/radix_tree.h:107-114 | finds the stored value of the key, end iff the key is absent; the one exception, exactly: `""` on a tree whose root has lost all children yields the root |
| `RadixTrees.RadixTree.FindParentNode` | backend/zvejys-rest-api/include/PhamPhiLong_Radix-Tree/radix_tree.h:73-89 | ends on the deepest non-empty-edge node whose key starts the searched key |
| `RadixTrees.RadixTree.Insert` | backend/zvejys-rest-api/include/PhamPhiLong_Radix-Tree/radix_tree.h:275-366 | the represented map gains the pair iff the key was absent and is otherwise unchanged; the shape invariant survives splitting, leaf-to-internal conversion and rejected duplicates; the exact new set of doubled keys (keys left with a single empty-edge child) |
| `RadixTrees.RadixTree.SplitEdge` | backend/zvejys-rest-api/include/PhamPhiLong_Radix-Tree/radix_tree.h:300-316 | steps 1 to 4 of the common-branch case produce the split forest, every parent pointer and edge in place |
| `RadixTrees.RadixTree.Erase` | backend/zvejys-rest-api/include/PhamPhiLong_Radix-Tree/radix_tree.h:374-416 | returns 1 iff the key was present; removes exactly the key unless it is doubled, in which case it stays with the default value; the merge keeps the shape; other doubled keys are untouched |
| `RadixTrees.RadixTree.Clear` | backend/zvejys-rest-api/include/PhamPhiLong_Radix-Tree/radix_tree.h:419-423 | empty map, size 0, no node left |
| `RadixTrees.RadixTree.SearchKeyIsEdge` | backend/zvejys-rest-api/include/PhamPhiLong_Radix-Tree/radix_tree_node.h:70-77 | the clamped `substr` of `get_search_key` is the very edge under which the node hangs |
| `RadixDoubled.LoneIffDoubled` | backend/zvejys-rest-api/include/PhamPhiLong_Radix-Tree/radix_tree.h:399-412 | a stored key is doubled iff its leaf is the only child of a node below the root |
| `RadixDoubled.OnTheWay` | backend/zvejys-rest-api/include/PhamPhiLong_Radix-Tree/radix_tree.h:73-89 | a node with one child lying on the way of a key can only be where the descent ends |
| `RadixDoubled.DoubledPresent` | backend/zvejys-rest-api/include/PhamPhiLong_Radix-Tree/radix_tree.h:334-346 | inserting a present key doubles it iff it is not empty and no stored key extends it |
| `RadixDoubled.DoubledAdded` | backend/zvejys-rest-api/include/PhamPhiLong_Radix-Tree/radix_tree.h:348-362 | inserting an absent key undoubles exactly the doubled keys that start it |
| `RadixDoubled.DoubledErased` | backend/zvejys-rest-api/include/PhamPhiLong_Radix-Tree/radix_tree.h:399-412 | dropping a leaf, merge included, undoubles its key and no other |
| `RadixUpdates.MergedFacts` | backend/zvejys-rest-api/include/PhamPhiLong_Radix-Tree/radix_tree.h:403-412 | the sibling merge keeps the shape and the represented map |
| `RadixUpdates.BesideFacts` | backend/zvejys-rest-api/include/PhamPhiLong_Radix-Tree/radix_tree.h:299-331 | an edge split plus the new leaf keeps the shape and adds exactly the new key |
| `RadixRuns.RunInserts` | backend/zvejys-rest-api/include/PhamPhiLong_Radix-Tree/radix_tree.h:275-371 | after any inserts, duplicates and prefixes included, the tree is the first-insert-wins map and `size()` counts the distinct keys |
| `RadixRuns.FirstWinsMeans` | backend/zvejys-rest-api/include/PhamPhiLong_Radix-Tree/radix_tree.h:275-366 | that map holds exactly the inserted keys, each with the value of its first insert |
| `RadixRuns.Lookup` | backend/zvejys-rest-api/include/PhamPhiLong_Radix-Tree/radix_tree.h:107-114 | `find` on any tree with a key is the lookup in the represented map |
| `RadixRuns.Run` | backend/zvejys-rest-api/include/PhamPhiLong_Radix-Tree/radix_tree.h:275-416 | after any run of inserts and erases (short of the null dereference of `erase("")` on an emptied tree) map, doubled keys and size counter are those of the abstract run |
| `RadixRuns.DoubledMeans` | backend/zvejys-rest-api/include/PhamPhiLong_Radix-Tree/radix_tree.h:334-365 | over whole runs: a key is doubled iff some insert of it while present and unextended has since been followed by neither its erase nor an insert of an extension |
| `RadixRuns.EraseRemovesIff` | backend/zvejys-rest-api/include/PhamPhiLong_Radix-Tree/radix_tree.h:374-416 | after any run, erasing a present key removes it iff no such insert exists in the history; all other keys stay as they are |
| `RadixRuns.SizeDrift` | backend/zvejys-rest-api/include/PhamPhiLong_Radix-Tree/radix_tree.h:368-415 | over any run the counter equals the number of stored keys less the erases that left their key in place, modulo 2^64 |
| `RadixRuns.DisciplinedIsMap` | backend/zvejys-rest-api/include/PhamPhiLong_Radix-Tree/radix_tree.h:275-416 | if keys are inserted only while absent, any run of inserts and erases is the same run on a plain map and never doubles a key |
| `RadixRuns.DisciplinedSize` | backend/zvejys-rest-api/include/PhamPhiLong_Radix-Tree/radix_tree.h:368-415 | then `size()` is the number of keys |
| `RadixRuns.ReinsertedKeySurvivesErase` | backend/zvejys-rest-api/include/PhamPhiLong_Radix-Tree/radix_tree.h:335-365 | a concrete run: insert `a`, insert `a`, erase `a` leaves `a` stored with the default value and `size()` 0 |
| `RadixRuns.DrainedEraseCrashes` | backend/zvejys-rest-api/include/PhamPhiLong_Radix-Tree/radix_tree.h:399-400 | a concrete run: insert `a`, erase `a`, and `erase("")` is the excluded call |
| `RadixIterators.Increment` | backend/zvejys-rest-api/include/PhamPhiLong_Radix-Tree/radix_tree_iterator.h:45-82 | from any node, `++` moves to the head of the remaining visiting order, and to end iff nothing remains; it terminates |
| `RadixIterators.NextSibling` | backend/zvejys-rest-api/include/PhamPhiLong_Radix-Tree/radix_tree_iterator.h:53-65 | the sibling jump continues the visiting order, or nothing is left under this parent |
| `RadixIterators.Begin` | backend/zvejys-rest-api/include/PhamPhiLong_Radix-Tree/radix_tree.h:93-99 | the first leaf of the visiting order, or end on an empty tree |
| `RadixIterators.Traverse` | backend/zvejys-rest-api/include/PhamPhiLong_Radix-Tree/radix_tree_iterator.h:45-82 | `begin()` and `++` until end visit each stored pair exactly once, in as many steps as there are keys, for every enumeration order of the children |
| `RadixOrder.ListingComplete` | backend/zvejys-rest-api/include/PhamPhiLong_Radix-Tree/radix_tree_iterator.h:45-82 | the visiting order lists every stored leaf, once |
| `SafeQueues.SafeQueue.PushBack` | backend/include/ptsouchlos_thread-pool/thread_safe_queue.h:32-35 | appends at the back |
| `SafeQueues.SafeQueue.PopFront` | backend/include/ptsouchlos_thread-pool/thread_safe_queue.h:55-62 | takes the front, or nothing from an empty queue |
| `SafeQueues.SafeQueue.Steal` | backend/include/ptsouchlos_thread-pool/thread_safe_queue.h:73-80 | takes the back, or nothing from an empty queue |
| `SafeQueues.SafeQueue.Clear` | backend/include/ptsouchlos_thread-pool/thread_safe_queue.h:47-53 | empties the queue and returns how many entries were lost |
| `SafeQueues.SafeQueue.RotateToFront` | backend/include/ptsouchlos_thread-pool/thread_safe_queue.h:82-91 | puts the item first; a permutation when it was there |
| `SafeQueues.SafeQueue.CopyFrontAndRotateToBack` | backend/include/ptsouchlos_thread-pool/thread_safe_queue.h:93-104 | returns the front and moves it to the back; a permutation |
| `SafeQueues.RotatedToFrontPermutes` | backend/include/ptsouchlos_thread-pool/thread_safe_queue.h:82-91 | rotating a present item to the front permutes the queue |
| `PoolSafety.TotalStep` | backend/include/ptsouchlos_thread-pool/thread_pool.h:56-98 | every weighted count over calls, queues, workers and clears changes by exactly what the step moves |
| `PoolSafety.CountersStep` | backend/include/ptsouchlos_thread-pool/thread_pool.h:62-81 | every step keeps both atomic counters equal to the number of tasks they account for |
| `PoolSafety.ConservedStep` | backend/include/ptsouchlos_thread-pool/thread_pool.h:265-286 | every step keeps each submitted task in exactly one place |
| `PoolSafety.StrandedStep` | backend/include/ptsouchlos_thread-pool/thread_pool.h:56-98 | every step keeps: a non-empty queue has an active worker, a raised semaphore or a call about to release it |
| `PoolSafety.SignalStep` | backend/include/ptsouchlos_thread-pool/thread_pool.h:91-96 | every step keeps: the completion signal is up, or somebody will still raise it |
| `PoolRuns.Safe` | backend/include/ptsouchlos_thread-pool/thread_pool.h:56-98 | the whole invariant holds in every state of every interleaving, for any number of threads, calls, clears and waiters |
| `PoolRuns.NoTaskStranded` | backend/include/ptsouchlos_thread-pool/thread_pool.h:265-286 | when no worker, call or clear can move, all queues are empty, both counters are 0, every task was run, cleared or refused exactly once, and the completion signal is up if any task was accepted |
| `PoolRuns.ExactlyOnce` | backend/include/ptsouchlos_thread-pool/thread_pool.h:62-85 | in every reachable state each submitted task is in exactly one place and has run at most once |
| `PoolRuns.WaitReturnsWhenDrained` | backend/include/ptsouchlos_thread-pool/thread_pool.h:237-243 | `wait_for_tasks` returns only at a moment with nothing queued, claimed or running |
| `PoolRuns.PriorityIsPermutation` | backend/include/ptsouchlos_thread-pool/thread_safe_queue.h:82-104 | the priority list is always a permutation of the thread ids |
| `PoolOrder.OwnQueueIsFifo` | backend/include/ptsouchlos_thread-pool/thread_pool.h:62-62 | over every run and for every queue: the tasks its worker claimed from it, in the order of the claims, and then the tasks it holds are the tasks pushed into it, in the order of the pushes, less those stolen or cleared |
| `PoolOrder.EndsTaken` | backend/include/ptsouchlos_thread-pool/thread_pool.h:62-84 | whenever a worker claims a task it is, of those pushed into that queue and not yet taken, the one pushed first in its own queue and the one pushed last in another |
| `PoolOrder.OneWorkerInOrder` | backend/include/ptsouchlos_thread-pool/thread_pool.h:56-72 | a pool of one thread that is never cleared: tasks done, the one in hand and those queued are the tasks pushed, in the order of the pushes |
| `PoolOrder.FirstNonEmpty` | backend/include/ptsouchlos_thread-pool/thread_pool.h:62-84 | a worker by itself takes a task from the first queue that is not empty, its own first and then round the others |
| `PoolOrder.Executes` | backend/include/ptsouchlos_thread-pool/thread_pool.h:62-88 | a claimed task is executed and both counters lowered; after a stolen one the worker looks at the counter, else at its queue |
| `PoolOrder.RoundRobin` | backend/include/ptsouchlos_thread-pool/thread_pool.h:265-285 | submissions in a row go to the workers in the order of the priority list, round and round |
| `PoolOrder.IdleLastServedFirst` | backend/include/ptsouchlos_thread-pool/thread_pool.h:90-90 | the worker that went idle last is given the next task |
| `PoolSafety.WaiterStep` | backend/include/ptsouchlos_thread-pool/thread_pool.h:91-96 | as long as at most one thread is blocked, a thread blocked although the signal is up has a notification under way |
| `PoolSafety.AcceptingStep` | backend/include/ptsouchlos_thread-pool/thread_pool.h:237-243 | every accepted task has its call, and no thread gets as far as waiting before the first one |
| `PoolRuns.WaitersReleased` | backend/include/ptsouchlos_thread-pool/thread_pool.h:91-96 | however many threads wait and however often, all are released once the pool is idle, provided no two were ever blocked at the same time |
| `PoolRuns.LoneWaiterReleased` | backend/include/ptsouchlos_thread-pool/thread_pool.h:237-243 | with at most one waiting thread none is left blocked once the pool is idle, whether or not a task was accepted |
| `PoolWaiters.OthersLeftBlocked` | backend/include/ptsouchlos_thread-pool/thread_pool.h:94-95 | for every number of workers and every m: a run of one task after which all of m waiting threads but the first stay blocked on an idle, drained pool |
| `PoolWaiters.ReleasesIff` | backend/include/ptsouchlos_thread-pool/thread_pool.h:237-243 | for every pool and every m: all idle runs with m waiting threads have released them iff m <= 1 |
| `WebSocketFrames.Parse` | backend/zvejys-rest-api/WebSocketFrame.h:34-86 | the loop-based parser computes the frame grammar: incomplete, one frame with its size, or the length error after 64-bit wrap-around |
| `WebSocketFrames.Serialize` | backend/zvejys-rest-api/WebSocketFrame.h:91-115 | the bytes of an unmasked frame in all three length tiers |
| `WebSocketFrames.ParseSerialized` | backend/zvejys-rest-api/WebSocketFrame.h:34-115 | `Parse(Serialize(f) + rest)` is f and consumes exactly its bytes; every strict prefix is incomplete |
| `WireFormat.ParseMeans` | backend/zvejys-rest-api/WebSocketFrame.h:38-85 | whenever `Parse` returns a frame: every field read off literal byte positions, and of a masked one each payload bit is set iff exactly one of the bits of its byte and of its mask byte is |
| `WireFormat.ParseWhen` | backend/zvejys-rest-api/WebSocketFrame.h:50-72 | a frame comes iff header and announced payload are there, the exception iff their sizes reach 2^64, the length being one, two or eight bytes written out |
| `WireFormat.MaskedHello` | backend/zvejys-rest-api/WebSocketFrame.h:34-86 | the masked "Hello" of section 5.7 of RFC 6455 as literal bytes |
| `WireFormat.WireMeans` | backend/zvejys-rest-api/WebSocketFrame.h:91-115 | what `Serialize` writes, by literal byte positions and the weights of the length bytes |
| `WebSocketFrames.ParseEncoded` | backend/zvejys-rest-api/WebSocketFrame.h:64-86 | a masked (client) frame parses back to its unmasked payload, whatever follows |
| `WebSocketFrames.MaskedTwice` | backend/zvejys-rest-api/WebSocketFrame.h:78-82 | masking twice with a key is the identity |
| `WebSocketFrames.ParseExtends` | backend/zvejys-rest-api/WebSocketFrame.h:34-86 | a verdict is not changed by bytes that arrive later |
| `WebSocketFrames.ParsePrefix` | backend/zvejys-rest-api/WebSocketFrame.h:34-86 | every strict prefix of a parsed frame is incomplete |
| `WebSocketFrames.FailsIff` | backend/zvejys-rest-api/WebSocketFrame.h:71-75 | the parser throws iff header size plus announced length reaches 2^64 |
| `WebSocketFrames.HugeLengthFails` | backend/zvejys-rest-api/WebSocketFrame.h:55-75 | ten concrete header bytes on which the parser throws |
| `WebSocketFrames.TopBitClear` | backend/zvejys-rest-api/WebSocketFrame.h:55-62 | with the top length bit clear (section 5.2 of RFC 6455) the sum never wraps |
| `WebSocketFrames.DecodeFrames` | backend/zvejys-rest-api/WebSocketFrame.h:34-86 | greedy decoding of any sequence of encoded frames gives back these frames and the decoding of the rest |
| `WebSocketFrames.FramesUnchunked` | backend/zvejys-rest-api/WebSocketConnection.h:83-161 | decoding chunk by chunk equals decoding the whole stream, for every chunking |
| `Streams.DecodeResumes` | backend/zvejys-rest-api/WebSocketConnection.h:102-161 | decoding can stop anywhere and resume with the undecoded rest |
| `WebSocketConnections.WsConnection.OnReadable` | backend/zvejys-rest-api/WebSocketConnection.h:83-167 | after every call that ends in EAGAIN the dispatched frames and the buffer are the greedy decoding of everything received, and callbacks, state and queued frames are exactly what dispatching the new frames in order gives; end of file closes and dispatches nothing |
| `WebSocketConnections.WsConnection.Dispatch` | backend/zvejys-rest-api/WebSocketConnection.h:112-157 | one frame: its callback and the frames it makes the connection queue |
| `WebSocketConnections.EventsMean` | backend/zvejys-rest-api/WebSocketConnection.h:112-157 | the callbacks, by literal opcodes and bytes: 1 and 2 report their own payload and opcode, 8 reports status code and reason, others nothing |
| `WebSocketConnections.Listen` | backend/zvejys-rest-api/WebSocketConnection.h:83-161 | a fresh connection that receives the encoding of frames in any reads and chunks dispatches these frames, is told of each as above, and keeps nothing back |
| `WebSocketConnections.CallBytes` | backend/zvejys-rest-api/WebSocketConnection.h:40-80 | the first byte on the wire and the payload of what each API call queues; a close on a connection that is not open queues nothing |
| `WebSocketConnections.PingAnswered` | backend/zvejys-rest-api/WebSocketConnection.h:121-129 | a ping is answered by a frame starting with 0x8A with the same payload |
| `WebSocketConnections.HandledKeeps` | backend/zvejys-rest-api/WebSocketConnection.h:121-153 | whatever the callbacks do, a PING is answered by one PONG with its payload, at most one CLOSE is ever queued, and a connection is never reopened |
| `WebSocketConnections.AllHandledKeeps` | backend/zvejys-rest-api/WebSocketConnection.h:103-161 | over any frames: the PONGs carry the payloads of the PINGs, in order, and there is at most one CLOSE |
| `WebSocketConnections.CloseHandled` | backend/zvejys-rest-api/WebSocketConnection.h:135-153 | a peer CLOSE ends the connection and is echoed iff it was open |
| `WebSocketConnections.AllPerformedKeeps` | backend/zvejys-rest-api/WebSocketConnection.h:40-80 | no sequence of API calls queues a second CLOSE or reopens the connection |
| `WebSocketConnections.WsConnection.Close` | backend/zvejys-rest-api/WebSocketConnection.h:67-80 | queues the CLOSE frame and moves to CLOSING from OPEN, and does nothing otherwise |
| `WebSocketConnections.WsConnection.OnWritable` | backend/zvejys-rest-api/WebSocketConnection.h:170-194 | under any partial sends, bytes sent plus the unsent rest is the concatenation of all serialized frames, the offset stays below the front entry, and exactly as many bytes go out as the sends take; an error closes |
| `WebSocketConnections.AccountedTake` | backend/zvejys-rest-api/WebSocketConnection.h:185-189 | one partial send keeps that account |
| `WebSocketConnections.FlushesAll` | backend/zvejys-rest-api/WebSocketConnection.h:172-190 | a socket that takes at least a byte per send empties the queue within as many sends as there are bytes |
| `WebSocketConnections.WsConnection.Call` | backend/zvejys-rest-api/WebSocketConnection.h:40-80 | an API call between events does what it says and keeps every invariant |
| `WebSocketConnections.RunSession` | backend/zvejys-rest-api/WebSocketConnection.h:33-194 | over any mix of readable, writable and API events with any callbacks: bytes sent are the beginning of the queued frames, PONGs answer PINGs in order, at most one CLOSE is queued and none while open, dispatched frames decode the bytes received |
| `WebSocketConnections.CloseEchoed` | backend/zvejys-rest-api/WebSocketConnection.h:135-147 | the answer of an open connection to a close frame: its payload, or the two bytes of 1005 when it has no status code |
| `WebSocketConnections.EchoRepeatsIff` | backend/zvejys-rest-api/WebSocketConnection.h:135-147 | the answer repeats the received close payload iff that has a status code; an empty one is answered with the reserved code 1005 |
| `Base64.Base64UrlEncode` | backend/zvejys-rest-api/utils/JsonWebToken.h:8-32 | the loop computes unpadded Base64URL |
| `Base64.Base64UrlDecode` | backend/zvejys-rest-api/utils/JsonWebToken.h:70-100 | the loop computes the group-wise decoding after padding |
| `Base64.Base64Encode` | backend/zvejys-rest-api/WebSocketUtils.h:96-113 | the loop computes padded Base64 |
| `Base64.UrlRoundTrip` | backend/zvejys-rest-api/utils/JsonWebToken.h:8-100 | decoding the encoding of any bytes gives them back |
| `Base64.UrlIsStripped` | backend/zvejys-rest-api/WebSocketUtils.h:96-113 | Base64URL is Base64 with `=` dropped, `+` and `/` replaced |
| `Base64.SymbolMeans` | backend/zvejys-rest-api/utils/JsonWebToken.h:9-10 | the alphabet by character codes |
| `Base64.GroupMeans` | backend/zvejys-rest-api/utils/JsonWebToken.h:14-23 | three bytes become the symbols of their bits, six at a time from the left |
| `Base64.TailMeans` | backend/zvejys-rest-api/WebSocketUtils.h:102-111 | one and two bytes at the end, with and without padding |
| `Text.ReadPrinted` | backend/zvejys-rest-api/utils/JsonWebToken.h:128-140 | reading a printed integer followed by a non-digit gives it back |
| `Jwt.TokenRoundTrip` | backend/zvejys-rest-api/utils/JsonWebToken.h:40-146 | for every secret, id, name without a quote and expiry, `Verify(Create(...))` returns exactly these claims while now <= exp and nothing later |
| `Jwt.ClaimsRoundTrip` | backend/zvejys-rest-api/utils/JsonWebToken.h:122-145 | the substring searches find the printed fields of the payload, whatever the name contains short of a quote |
| `Jwt.ClaimsRead` | backend/zvejys-rest-api/utils/JsonWebToken.h:122-145 | whatever the user name: the id comes back, the name up to its first quote, and the expiry of `Create` unless the name brings one along |
| `Jwt.TokenReads` | backend/zvejys-rest-api/utils/JsonWebToken.h:40-146 | the same for `Verify(Create(...))` |
| `Jwt.OwnExpiryIff` | backend/zvejys-rest-api/utils/JsonWebToken.h:138-140 | the expiry that `Create` wrote is the one read iff `"exp":` does not occur in a quote followed by the user name |
| `Jwt.TokenBegins` | backend/zvejys-rest-api/utils/JsonWebToken.h:43-58 | every token begins with the fixed text `eyJhbGciOiJIUzI1NiIsInR5cCI6IkpXVCJ9.` |
| `Jwt.PayloadText` | backend/zvejys-rest-api/utils/JsonWebToken.h:47-51 | between the two dots of a created token the literal payload text is encoded |
| `Jwt.MissingNames` | backend/zvejys-rest-api/utils/JsonWebToken.h:126-139 | a payload without one of the three names is never accepted |
| `Jwt.AcceptedMeans` | backend/zvejys-rest-api/utils/JsonWebToken.h:122-145 | for any payload, from `Create` or not: what is read behind the first occurrence of each name, and when that is an exception, a rejection or accepted |
| `Jwt.NameSetsExpiry` | backend/zvejys-rest-api/utils/JsonWebToken.h:138-143 | concrete names that contain an expiry field: that expiry is the one read, whatever `Create` wrote |
| `Jwt.NameComesBackIff` | backend/zvejys-rest-api/utils/JsonWebToken.h:131-135 | the user name comes back iff it contains no double quote |
| `Jwt.SplitParts` | backend/zvejys-rest-api/utils/JsonWebToken.h:104-108 | a token of three dotless parts is split at exactly its two dots |
| `Jwt.DotsIff` | backend/zvejys-rest-api/utils/JsonWebToken.h:104-108 | the two positions are found iff the token has exactly two dots, there |
| `Jwt.OnlySignedAccepted` | backend/zvejys-rest-api/utils/JsonWebToken.h:104-120 | a token is rejected unless the part after the second of exactly two dots is the encoded MAC of all before it; then what is read is the part between the dots |
| `Resp.BuildCommand` | backend/services/RedisClient.h:164-169 | the encoding of a command as an array of bulk strings |
| `Resp.RedisClient.SendCommand` | backend/services/RedisClient.h:164-181 | under any partial sends the whole encoding goes out, or a beginning of it and the client is closed |
| `Resp.RedisClient.ReadLine` | backend/services/RedisClient.h:184-199 | the line up to the first CR, two bytes more consumed, or empty and disconnected |
| `Resp.RedisClient.ReadBytes` | backend/services/RedisClient.h:202-217 | under any short reads exactly the counted bytes and the trailing two, or disconnected |
| `Resp.RedisClient.ReadBulkString` | backend/services/RedisClient.h:227-244 | bulk, nil, simple, error and other lines, and the exception of a bad length |
| `Resp.RedisClient.ReadArray` | backend/services/RedisClient.h:247-259 | the elements in order, the rest of the input left |
| `Resp.LineMeans` | backend/services/RedisClient.h:227-244 | what each kind of line makes `readBulkString` report, by its literal first character |
| `Resp.NoArrayReads` | backend/services/RedisClient.h:247-251 | a reply that is not an array gives no elements and consumes just its line |
| `Resp.EmptyArrayReads` | backend/services/RedisClient.h:253-258 | an array header with no or a negative number of elements gives none and consumes just its line |
| `Resp.CommandMeans` | backend/services/RedisClient.h:164-169 | the bytes of any command, with literal marks and line ends |
| `Resp.CommandReads` | backend/services/RedisClient.h:164-259 | `readArray` of the encoding of any list of byte strings, CR LF inside included, returns the list and leaves exactly the rest |
| `Resp.ReplyReads` | backend/services/RedisClient.h:227-259 | any well-formed flat array with nil, integer, simple, error and bulk elements is consumed exactly |
| `HttpFraming.HttpConnection.OnReadable` | backend/zvejys-rest-api/HttpConnection.cpp:20-90 | requests taken so far followed by the buffer are what the stream decodes to, for every chunking; one request at most per call, and exactly when the buffer holds one; a complete request is left behind iff the buffer held two |
| `HttpFraming.NextRequestExtends` | backend/zvejys-rest-api/HttpConnection.cpp:54-86 | a request once complete is not changed by later bytes |
| `HttpFraming.NothingLost` | backend/zvejys-rest-api/HttpConnection.cpp:80-86 | received bytes equal the extracted requests followed by the buffer |
| `HttpFraming.RequestReads` | backend/zvejys-rest-api/HttpConnection.cpp:56-86 | a request with a true Content-Length is cut off exactly, whatever follows |
| `HttpFraming.PlainRequestReads` | backend/zvejys-rest-api/HttpConnection.cpp:56-86 | a request whose headers contain neither spelling of the name ends at its blank line, whatever follows |
| `HttpFraming.LengthHeaderReads` | backend/zvejys-rest-api/HttpConnection.cpp:64-75 | a printed length is read as its number: either spelling, the lower-case one only without the capitalised one, and no, one or several blanks and tabs |
| `HttpFraming.OddValues` | backend/zvejys-rest-api/HttpConnection.cpp:69-75 | a value that is no number counts as 0; a section that ends in blanks after the name throws |
| `HttpFraming.HugeValue` | backend/zvejys-rest-api/HttpConnection.cpp:74-74 | a number of 2^64 or more counts as 0 |
| `HttpFraming.PipeliningIff` | backend/zvejys-rest-api/HttpConnection.cpp:77-90 | over every run of events: the requests handed on are after each event all that the received bytes hold iff no event found two complete requests |
| `HttpFraming.BacklogDrains` | backend/zvejys-rest-api/HttpConnection.cpp:77-90 | k events without new bytes hand on the first k of the requests left behind, and a complete one remains iff there were more than k |
| `HttpFraming.PipelinedSecondWaits` | backend/zvejys-rest-api/HttpConnection.cpp:77-90 | two requests in one read: the event hands on the first and finds two complete |
| `HttpFraming.CutCoversHeadersIff` | backend/zvejys-rest-api/HttpConnection.cpp:60-86 | the cut covers the header block iff header size plus Content-Length stays below 2^64; when it wraps, the request is cut off inside its own headers |
| `HttpFraming.ZeroByteRequest` | backend/zvejys-rest-api/HttpConnection.cpp:60-86 | 40 concrete bytes of headers that are cut off as a request of zero bytes |
| `HttpFraming.BlankLineIsRequest` | backend/zvejys-rest-api/HttpConnection.cpp:56-61 | a bare blank line counts as a request |
| `Routing.SplitPath` | backend/zvejys-rest-api/ZvejysServer.h:72-73 | the `getline` loops give the non-empty segments |
| `Routing.MatchPattern` | backend/zvejys-rest-api/ZvejysServer.h:63-91 | true iff the segments match one by one, with the captured parameters |
| `Routing.MatchIsSubstitution` | backend/zvejys-rest-api/ZvejysServer.h:78-90 | with distinct names, a path matches iff some values substituted into the pattern give its segments, and the captured ones do |
| `Routing.Server.Register` | backend/zvejys-rest-api/ZvejysServer.cpp:54-77 | keeps tree and pattern list equal to the registrations made |
| `Routing.Server.Dispatch` | backend/zvejys-rest-api/HttpConnection.cpp:155-180 | equals a linear search and is the answer of `DispatchMeans`: first registration of that very path (whatever its method), else the first matching pattern with the method, else not found |
| `Routing.DispatchMeans` | backend/zvejys-rest-api/HttpConnection.cpp:155-180 | over indices of the registrations and with literal braces: the earliest registration of this very path, else the earliest path with a brace that fits segment by segment and has the method, with its parameters, else not found, and not found iff there is neither |
| `Routing.SegmentsMean` | backend/zvejys-rest-api/ZvejysServer.h:72-73 | the equations that determine the segments: none of the empty path, one of a path without slash, concatenation across a slash |
| `Routing.RespectsMethodIff` | backend/zvejys-rest-api/HttpConnection.cpp:155-180 | dispatch equals dispatch that compares the method for exact routes too iff the path has no exact registration or its first one is for this method |
| `Routing.LaterMethodUnreached` | backend/zvejys-rest-api/ZvejysServer.cpp:61-63 | the concrete case: two methods registered on one path, a request for the second gets the handler of the first |
| `Routing.ExactIsFirst` | backend/zvejys-rest-api/ZvejysServer.cpp:61-63 | the first-insert-wins tree is the linear search for the exact path |
| `Routing.PatternsAreFirst` | backend/zvejys-rest-api/ZvejysServer.cpp:57-60 | scanning the pattern list is scanning all registrations |
| `SceneShader.GenerateFragmentShader` | frontend/src/features/stream/utils/StreamHelpers.ts:32-73 | for every frame and pixel the generated front-to-back early-return program gives what painting the captures back to front over the background gives |
| `SceneShader.ByLayerStable` | frontend/src/features/stream/models/Scene.ts:49-54 | the captures are sorted by layer, each layer in its original order |
| `SceneShader.RenderPixel` | frontend/src/features/stream/models/Scene.ts:49-54 | sorting and shader together: the pixel has the colour of the topmost capture with ink there (highest layer, then latest, images after videos), or the background |
| `SceneShader.InkMeans` | frontend/src/features/stream/utils/StreamHelpers.ts:38-55 | in scene coordinates, without the program: which pixels a capture covers, where its texture is sampled, and what it puts there |
| `SceneShader.SampledInside` | frontend/src/features/stream/utils/StreamHelpers.ts:41-46 | texture coordinates are taken only where they lie in [0, 1), with no division by zero |
| `Viewers.ViewerRegistry.Remove` | backend/services/ViewerRegistry.h:18-25 | removes the viewer, and the stream with its last viewer |
| `Viewers.ViewerRegistry.CloseAll` | backend/services/ViewerRegistry.h:52-69 | forgets the stream and returns exactly its viewers |
| `Viewers.Node.Handle` | backend/routes/viewer-route/VIewerRoutes.cpp:23-98 | join, close and cleanup handlers change registry and counter as the abstract step does |
| `Viewers.NeverOvercounts` | backend/routes/viewer-route/VIewerRoutes.cpp:83-98 | over every run, 0 <= counter <= registered viewers for every stream, and no empty set is kept |
| `Viewers.ExactIff` | backend/routes/viewer-route/VIewerRoutes.cpp:90-98 | the counter equals the number of viewers throughout a run iff no close handler runs for an unregistered viewer while others watch |
| `Viewers.OrderlyIsExact` | backend/routes/viewer-route/VIewerRoutes.cpp:23-98 | when every close follows its own join, with neither another close of it nor a cleanup of its stream between, the counter is exact all along |
| `Viewers.LateCloseUndercounts` | backend/services/StreamCleanup.h:6-15 | a concrete run: a close arriving after a cleanup takes away the count of a later viewer |
| `PgPools.StepInv` | backend/pg-connection-pool/pgPool.cpp:30-69 | every step keeps the size, exclusive possession, and an attendant for each idle connection while anybody waits |
| `PgPools.NeverShared` | backend/pg-connection-pool/pgPool.cpp:30-69 | in every interleaving of leases, releases, successful and failed replacements, idle plus carried connections equal the pool size and no connection is in two places |
| `PgPools.LeaseAndReturn` | backend/pg-connection-pool/pgPool.cpp:30-55 | a lease takes the connection that was idle longest; an open one or its replacement ends with the caller, one that could not be replaced goes back |
| `PgPools.ReleaseReturns` | backend/pg-connection-pool/pgPool.cpp:57-69 | a released connection is queued behind all others |
| `PgPools.WaitsOnlyWhenAllLeased` | backend/pg-connection-pool/pgPool.cpp:34-36 | no wake-up is lost: at rest a thread waits only if the queue is empty and all connections are leased |

## Left out

- `find_with_prefix` of the tree: unfinished in the source.
- Freed and leaked nodes: the tree model drops deleted nodes from its live set; object lifetimes are not modelled.
- Thread pool destructor, stop tokens, thread start failure and tasks that throw: the model's workers run for ever and its tasks return; a task that enqueues more is one of the concurrent calls.
- Memory ordering: atomics are sequentially consistent. Spurious wake-ups of `atomic::wait` are not a step; the pool's waiter re-tests anyway.
- The second copy of the thread pool under `backend/stream-pocket/include`: the same code.
- Data races between `conn_mutex_` and `write_mu_` in the WebSocket connection: handlers are atomic here. Callbacks are taken as set and as any script of sends and closes.
- CONTINUATION reassembly: the source does not do it.
- SHA-1, SHA-256 and HMAC: the MAC is an arbitrary function of secret and text.
- Base64.Base64UrlDecode: characters above 127 index outside the source's table; the model treats them as foreign symbols.
- JWT expiry: `Create` adds a lifetime to the clock; the model takes the resulting expiry, within `long`.
- Resp.RedisClient.ReadBytes: the line end behind a bulk string is taken to arrive whole; the source does not check how much of it that `recv` delivered. Nested arrays are not read by the source.
- Viewers.Node.Handle: one node, handlers one at a time; broadcasts and chat are left out.
- HTTP request-line, header and query parsing, CORS, upgrades and response writing: parsing of single requests into fields, plumbing.
- WebGL calls, blending and float precision: colours and coordinates are reals; the shader text is a statement tree.
- PGPool: the connection string and the constructor's connections; a fixed arbitrary number of threads, each leasing any number of times.
- File routes of the stream pocket, WebRTC, FFmpeg, SQL and JSON libraries, React components: foreign code or plumbing.
