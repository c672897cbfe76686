# Verification of Tvix

A Dafny model of the parts of Tvix where many steps have to add up to one simple promise, with proofs of these promises.

**Directory closures** (`Directories`, `GraphStates`, `GraphEffects`, `Traversal`, `ValidatedGraphs`, `DirectoryGraphs`, `Resends`, `InsertionOrders`, `ClosureStreams`, `DirectoryServices`).
Directories are addressed by the hash of their content and form an acyclic graph.
A `DirectoryGraph` receives them one at a time, leaves first or root first, checks recorded sizes edge by edge, and validates the whole at the end.
The putter, the traversal of a store, the receiving client and the near/far cache are built on it.
The model has the graph as a class whose methods change nodes, edges and weights in place, and states every law over whole sequences of calls, failing ones included.

**Service composition** (`Compositions`, `CompositionOutcomes`).
Services are instantiated lazily and concurrently behind one mutex.
The model is a transition system: requests arrive and take steps in any order.

**Reference scanning** (`RefScan`).
A reader passes data through and scans it in overlapping windows, however the underlying reader splits the data.

**Blobs** (`ChunkedReaders`, `BlobServices`, `ObjectStores`).
Blobs are stored as chunks and lists of chunks, read through a seekable reader, and combined from a local and a remote service.

**Nix base 32** (`NixBase32`).
Unaligned 5-bit packing with a carry and a check for canonical form.

**Archive export** (`DirectoryMessages`, `Exports`, `ExportListings`).
The Go exporter merges three sorted lists per directory and walks the tree with an explicit stack.

**Bytecode chunks** (`Opcodes`, `Bytecode`, `BytecodeChunks`).
Instructions are emitted piece by piece, jumps are patched afterwards, and source spans are kept in a compressed table.

## How the model stands for the code

- Digests are ideal: a digest is the directory or the content it is the hash of, or a value that is the hash of nothing. No two contents share a digest, and no directory contains its own digest.
- `u64` and `u16` arithmetic wraps where the code wraps, and is checked where the code checks it. Indices and lengths are unbounded naturals.
- petgraph's walks are written out: depth-first post-order with a stack, breadth-first with a queue, and edges of a node from the latest back.
- The string search is leftmost and non-overlapping. Compression, the protobuf encoding of chunk lists, and the content-defined chunker are a lossless pair, a lossless pair, and any partition into non-empty pieces.
- The varint codec is a parameter: any self-delimiting code of one to nine bytes.
- Polls, failing requests and the sizes of short reads are left open, so the contracts hold for every way they turn out. Stores are maps; a store that is not reliable may fail a write before or after it takes effect.
- State that the code changes in place is in classes. Their methods are tied to values, about which the lemmas speak.
- Automatic induction is switched off: where a proof is by induction, the lemma calls itself.

## Where the code differs from what it says

- `Directory::size()` in `castore/src/nodes/directory.rs` adds the number of nodes to a sum that counts each node again. Its documentation, the protobuf definition and the Go code count each once. `Directories.SizeCountsDescendantsTwice` states what the value is, and `Directories.SizeIsDescendantsOnlyWhenEmpty` when it is the documented one. The sum is therefore also not covered by the overflow check made on insertion; the model lets it wrap.
- A root-to-leaves `DirectoryGraph` can panic when a directory that was rejected because of the size a referring directory records is added again. Over every sequence of calls a call panics exactly if no child present contradicts the directory, its latest attempt was rejected for that reason, and every entry linked to it since records its size (`Resends.PanicsExactly`); otherwise a resend is rejected for its size (`Resends.ResendPanics`). `Resends.SendAgain` has a concrete run of either kind. Leaves first this cannot happen (`DirectoryGraphs.LeavesFirstNeverPanics`).
- The recursion check of the composition is per call chain, so it does not prevent all deadlocks: one can be reached exactly when some set of keys each depend on another key of the set (`Compositions.DeadlockIffKnot`). What does finish for a key that depends on itself always ends in a failure (`CompositionOutcomes.SelfDependentFails`).
- After the error for a missing chunk a `ChunkedReader` goes on behind the hole while its position does not (`ChunkedReaders.ReadPastHole`), until a seek that moves. It is a cursor over the blob exactly if every missing chunk ends at offset zero, because empty chunks at the start are never opened (`ChunkedReaders.AnswerAll`, `ChunkedReaders.ReadByBytes`). The contracts of `PollRead` and `StartSeek` hold in every state.
- A `ReferenceReader` with capacity zero, which is possible only without non-empty needles, reports the end of the data at once. Input shorter than the longest needle is never scanned, so that a needle that occurs in it is missed (`RefScan.ShortInputIsNotScanned`); `RefScan.WholePassFlagsAll` is the exact condition.
- `patch_jump` cuts the distance to 16 bits, so a jump is right exactly for distances below 65536 (`BytecodeChunks.PatchedJumpLands`). Positions lose the two highest bits of their index (`Opcodes.UnpackOfPack`).
- The receiving client accepts a directory again if a later one refers to it again (`ClosureStreams.RepeatedIsAccepted`, `ClosureStreams.LeafSentTwice`); what it received is still exactly the closure, and the cache copies such a stream as well (`DirectoryServices.Cache.ReceiveRemote`).
- The first-entry branch of `get_span` for offsets before the table is never taken, because the table starts at offset zero.

## Model

| member | source | states |
|---|---|---|
| `Directories.ReachClosed` | castore/src/directoryservice/directory_graph.rs:44-73 | The closure of a digest holds the digest and everything its members refer to |
| `Directories.ReachIsLeast` | castore/src/directoryservice/directory_graph.rs:44-73 | The closure is contained in every set that is closed under references and holds the root |
| `Directories.ChildIsSmaller` | castore/src/directoryservice/directory_graph.rs:44-73 | References never lead back: a child is strictly shallower than its parent, because a digest depends on the content |
| `Directories.UniqueSourceReaches` | castore/src/directoryservice/directory_graph.rs:202-223 | In a finite closed set where every member but one has a parent in the set, that one reaches exactly the whole set |
| `Directories.ReachHasParent` | castore/src/directoryservice/directory_graph.rs:44-73 | Everything in a closure but the root is referred to by another member of the closure |
| `Directories.SizeCountsDescendantsTwice` | castore/src/nodes/directory.rs:40-53 | If every recorded size below `d` passed the per-edge check, `size()` of `d` is twice the number of nodes of the unfolded tree, modulo 2^64 |
| `Directories.SizeIsDocumentedOnlyWhenEmpty` | castore/src/nodes/directory.rs:40-53 | For every directory, `size()` is the documented sum if and only if there are no entries (or a multiple of 2^64) |
| `Directories.SizeIsDescendantsOnlyWhenEmpty` | castore/src/nodes/directory.rs:40-53 | So `size()` is the documented number of descendants exactly for an empty directory |
| `Directories.SizesRightBelow` | castore/src/directoryservice/directory_graph.rs:75-86 | Right sizes in a closure are right sizes in the closure of every member |
| `GraphStates.AddPresent` | castore/src/directoryservice/directory_graph.rs:141-144 | Adding a directory that is already there changes nothing and succeeds, from a graph in any state |
| `GraphStates.AddContradicted` | castore/src/directoryservice/directory_graph.rs:146-173 | If an entry contradicts the size of a child that is present, the result is the size error, and the node stays empty for good |
| `GraphStates.AddUnsettled` | castore/src/directoryservice/directory_graph.rs:175-192 | Stopping at a waiting edge leaves a node that no later insertion can fill; it panics exactly if the edge had lost its weight before |
| `GraphStates.AddFilled` | castore/src/directoryservice/directory_graph.rs:146-197 | When all sizes agree the node is filled; a graph without failures stays one, and holds exactly one directory more |
| `GraphStates.CleanIsPending` | castore/src/directoryservice/directory_graph.rs:154-171 | Without failed insertions an edge still has its weight exactly while its target is missing |
| `GraphStates.WaitingEdges` | castore/src/directoryservice/directory_graph.rs:175-192 | Without failed insertions the waiting edges speak for exactly the entries, of directories present, that point at the new one |
| `GraphStates.JamPersists` | castore/src/directoryservice/directory_graph.rs:132-198 | A node that cannot be filled any more stays so under every further insertion |
| `GraphStates.ContradictedBySizes` | castore/src/directoryservice/directory_graph.rs:154-165 | The first loop fails exactly if some entry records another size than that of a child already present |
| `ValidatedGraphs.EdgesAreReferences` | castore/src/directoryservice/directory_graph.rs:146-173 | Without failed insertions there is an edge between two nodes exactly when the first directory refers to the second |
| `ValidatedGraphs.SourceReachesAll` | castore/src/directoryservice/directory_graph.rs:201-224 | In a complete graph with at most one source, there is none only if the graph is empty, and otherwise the source reaches exactly the directories present |
| `ValidatedGraphs.ValidationMeans` | castore/src/directoryservice/directory_graph.rs:201-224 | A graph without failed insertions passes validation if and only if the directories present are nothing, or exactly the closure of one of them |
| `ValidatedGraphs.OrderCoversAll` | castore/src/directoryservice/directory_graph.rs:233-272 | A walk that visits what is reachable from the root visits every node |
| `ValidatedGraphs.PickLeavesFirst` | castore/src/directoryservice/directory_graph.rs:256-272 | A walk that finishes successors first takes out every child strictly before each of its parents |
| `ValidatedGraphs.PickRootFirst` | castore/src/directoryservice/directory_graph.rs:233-249 | A walk in which every node has an earlier parent takes out every directory but the first behind one that refers to it |
| `ValidatedGraphs.DrainLeavesToRoot` | castore/src/directoryservice/directory_graph.rs:251-272 | Each directory of the closure exactly once, every child strictly before each of its parents, the root last; nothing for an empty graph |
| `ValidatedGraphs.DrainRootToLeaves` | castore/src/directoryservice/directory_graph.rs:228-249 | Each directory of the closure exactly once, the root first, every other one referred to by an earlier one |
| `Traversal.PostOrder` | castore/src/directoryservice/directory_graph.rs:256-265 | The depth-first walk with an explicit stack visits exactly the reachable nodes, once each, successors first, the root last, and ends |
| `Traversal.BreadthFirst` | castore/src/directoryservice/directory_graph.rs:233-242 | The walk with a queue visits exactly the reachable nodes, once each, each with an earlier predecessor, the root first, and ends |
| `Traversal.Enter` | castore/src/directoryservice/directory_graph.rs:256-265 | Entering a node of an acyclic graph keeps the stack invariant: what is stacked above an entered node ranks below it and covers its unfinished successors |
| `Traversal.Leave` | castore/src/directoryservice/directory_graph.rs:256-265 | A node that is on top for the second time has only finished successors |
| `DirectoryGraphs.CleanRun` | castore/src/directoryservice/directory_graph.rs:91-119 | Over every sequence of calls without a size rejection: the graph holds exactly what was accepted, its invariants hold, and the assertion on edge weights never fires |
| `DirectoryGraphs.RejectionIsFinal` | castore/src/directoryservice/directory_graph.rs:132-198 | In either order, once a size was rejected some node stays empty under every further sequence of calls |
| `DirectoryGraphs.RunValidates` | castore/src/directoryservice/directory_graph.rs:91-119 | Over every sequence of calls: validation succeeds if and only if no size was rejected and the accepted directories are nothing or the closure of one of them |
| `DirectoryGraphs.ValidatedSizes` | castore/src/directoryservice/directory_graph.rs:75-86 | In a validated graph the sizes of all directories have their global meaning |
| `DirectoryGraphs.LeavesFirstAccepted` | castore/src/directoryservice/order_validator.rs:80-105 | Members of a closure with right sizes, children first, are all accepted by a leaves-to-root graph |
| `DirectoryGraphs.RootFirstAccepted` | castore/src/directoryservice/order_validator.rs:22-58 | Members of a closure with right sizes, root first and each behind one that refers to it, are all accepted by a root-to-leaves graph |
| `DirectoryGraphs.LeavesFirstNeverPanics` | castore/src/directoryservice/directory_graph.rs:184-189 | A leaves-to-root graph never fires the assertion on edge weights, whatever was rejected before |
| `GraphEffects.BlockedPanics` | castore/src/directoryservice/directory_graph.rs:175-192 | A known, missing directory one of whose edges has lost its weight panics if and only if no child contradicts it and every edge added since records its size |
| `GraphEffects.BlockedIsRejected` | castore/src/directoryservice/directory_graph.rs:184-191 | Otherwise it is rejected for its size again; it is never accepted any more |
| `GraphEffects.AgreeStep` | castore/src/directoryservice/directory_graph.rs:146-173 | The edges that wait for a directory agree after another insertion if and only if they did before and those of the inserted directory's entries do, up to the first that a present directory refutes; this holds whether it is accepted or not |
| `GraphEffects.WaitingStays` | castore/src/directoryservice/directory_graph.rs:175-191 | Only an insertion that gets past the children of a directory takes weights from edges to it |
| `Resends.RunFills` | castore/src/directoryservice/directory_graph.rs:132-198 | Over every sequence of calls, whatever was rejected, the graph holds exactly what was accepted |
| `Resends.ResendPanics` | castore/src/directoryservice/directory_graph.rs:175-192 | Over every sequence of calls: a directory whose latest attempt was rejected because of a referring directory is never accepted again. It panics if no child present contradicts it and every entry linked to it since, also by rejected directories, records its size; otherwise it is rejected for its size |
| `Resends.PanicsExactly` | castore/src/directoryservice/directory_graph.rs:184-189 | Over every sequence of calls, any call panics if and only if no child present contradicts the directory, its latest attempt was rejected because of a referring directory, and every entry linked to it since records its size |
| `Resends.SendAgain` | castore/src/directoryservice/directory_graph.rs:175-192 | Two concrete runs: the parent records a wrong size, and the child sent twice in a row gives a size error and then a panic; with another wrong reference accepted in between, the second attempt is a size error |
| `DirectoryGraphs.DirectoryGraph.WireChildren` | castore/src/directoryservice/directory_graph.rs:146-173 | The first loop adds exactly one edge per child entry, pending exactly if the child is missing and recording the entry's size, and stops at the first contradicted size |
| `DirectoryGraphs.DirectoryGraph.SettleParents` | castore/src/directoryservice/directory_graph.rs:175-192 | The second loop takes the weights from the latest incoming edge back, and stops at the first one that is gone or records another size |
| `DirectoryGraphs.DirectoryGraph.AddOrderUnchecked` | castore/src/directoryservice/directory_graph.rs:132-198 | From a graph in any state: exactly when it accepts, exactly when it panics, which edges it adds and which weights it takes, and that it never frees a node that cannot be filled |
| `DirectoryGraphs.DirectoryGraph.Add` | castore/src/directoryservice/directory_graph.rs:88-119 | A step of a run: a directory that is out of order is refused without any change, and inserted otherwise. Which ones are out of order is stated by the two lemmas that follow |
| `InsertionOrders.RootFirstRefuses` | castore/src/directoryservice/order_validator.rs:34-68 | Over every sequence of calls, root first: a directory is refused if and only if it is not the root and no earlier directory that was not itself refused for its order refers to it; without a given root, the first directory is the root |
| `InsertionOrders.LeavesFirstRefuses` | castore/src/directoryservice/order_validator.rs:71-106 | Over every sequence of calls, leaves first: a directory is refused if and only if it refers to one that no earlier call, not itself refused for its order, brought |
| `InsertionOrders.Dangling` | castore/src/directoryservice/order_validator.rs:128-161 | Two concrete runs: a leaf where its parent is the root, and a parent whose child has not come |
| `DirectoryGraphs.DirectoryGraph.Validate` | castore/src/directoryservice/directory_graph.rs:200-224 | Succeeds if and only if there is at most one source and no empty node, with the error of the first check that fails, and hands over the root |
| `ClosureStreams.NewChildren` | castore/src/directoryservice/utils.rs:58-70 | Adds each child that is neither sent nor in the worklist, once, and forgets none |
| `ClosureStreams.TraverseDirectory` | castore/src/directoryservice/utils.rs:16-75 | Ends on every store; yields distinct reachable directories, root first and each behind one that refers to it; fails exactly if the root is there and something below it is missing or corrupt, after what was yielded leads to such a directory; and yields the whole closure otherwise |
| `ClosureStreams.ExpectedInClosure` | castore/src/directoryservice/grpc.rs:122-186 | While the client accepts, all it received or expects is in the closure of the requested root, and every child is expected or received |
| `ClosureStreams.OutstandingMeans` | castore/src/directoryservice/grpc.rs:165-186 | At the end nothing is outstanding if and only if the whole closure was received |
| `ClosureStreams.ReceiveClosure` | castore/src/directoryservice/grpc.rs:112-187 | Ends without error if and only if the stream did not break, every directory was expected when it came, and it was empty or exactly the closure. It hands on the longest prefix that was expected, and the error says whether a directory was unexpected, the transport failed, or the end was premature |
| `ClosureStreams.AdmissibleMeans` | castore/src/directoryservice/grpc.rs:127-152 | A stream is accepted if and only if each directory is the root, come for the first time, or was referred to since it came last |
| `ClosureStreams.TraversalIsAdmissible` | castore/src/directoryservice/grpc.rs:122-186 | Whatever the traversal of a complete store yields is accepted by the client |
| `ClosureStreams.AdmissibleIsRootFirst` | castore/src/directoryservice/grpc.rs:127-159 | Whatever the client accepts comes root first, each directory behind one that refers to it |
| `ClosureStreams.RepeatedIsAccepted` | castore/src/directoryservice/grpc.rs:129-153 | A directory that was received is accepted again behind a later one that refers to it, and whether the closure is complete does not change |
| `ClosureStreams.LeafSentTwice` | castore/src/directoryservice/grpc.rs:129-153 | A concrete stream with a repeated directory that the client accepts |
| `DirectoryServices.DirectoryStore.Get` | castore/src/directoryservice/memory.rs:22-46 | Nothing exactly if the digest is not stored; otherwise the directory with that digest, or an error if something else is stored there |
| `DirectoryServices.PutThenGet` | castore/src/directoryservice/memory.rs:22-57 | What was put and acknowledged is what is got, and lookups of other digests are not affected |
| `DirectoryServices.DirectoryStore.Put` | castore/src/directoryservice/memory.rs:49-57 | Stores a directory under its own digest and changes nothing else; an acknowledgement of that digest means it is stored |
| `DirectoryServices.WriteKeepsClosed` | castore/src/directoryservice/simple_putter.rs:62-74 | Writing children first keeps a store without dangling references free of them at each single write |
| `DirectoryServices.WrittenClosure` | castore/src/directoryservice/simple_putter.rs:62-74 | All writes together add exactly the closure of the root |
| `DirectoryServices.SimplePutter.Put` | castore/src/directoryservice/simple_putter.rs:31-42 | Passes the directory on to the validator and reports its verdict; fails once closed |
| `DirectoryServices.SimplePutter.WriteAll` | castore/src/directoryservice/simple_putter.rs:62-74 | Every state the store goes through is free of dangling references, also when a write fails; on success everything is written |
| `DirectoryServices.SimplePutter.Close` | castore/src/directoryservice/simple_putter.rs:45-79 | Writes nothing unless what was put is a non-empty closure with no rejected size; on success returns the root, and the whole closure is stored; every intermediate state is free of dangling references |
| `DirectoryServices.ReceivedClosure` | castore/src/directoryservice/directory_graph.rs:201-224 | A closure received without a rejection validates, leaves exactly itself in the graph, and has right sizes |
| `DirectoryServices.RootFirstRevalidates` | castore/src/directoryservice/directory_graph.rs:228-249 | A closure that comes root first, drained or streamed with repetitions, is accepted and validated by a fresh graph if and only if the recorded sizes are right |
| `DirectoryServices.LeavesFirstRevalidates` | castore/src/directoryservice/directory_graph.rs:251-272 | What one graph drains leaves first is accepted and validated by a fresh one if and only if the recorded sizes are right |
| `DirectoryServices.RejectionMeansWrongSize` | castore/src/directoryservice/combinators.rs:58-66 | The copy of a streamed closure only rejects a directory if some recorded size is wrong |
| `DirectoryServices.Cache.Copy` | castore/src/directoryservice/combinators.rs:51-70 | The copy of a stream validates if and only if the stream did not fail and is empty or has right sizes; repeated directories do no harm |
| `DirectoryServices.Cache.Receive` | castore/src/directoryservice/combinators.rs:51-70 | With a store as far side: the copy validates if and only if far does not know the digest, or holds its complete closure with right sizes; what was received comes root first |
| `DirectoryServices.Cache.ReceiveRemote` | castore/src/directoryservice/combinators.rs:51-70 | With a remote far side: the copy validates if and only if the client accepts the stream, and it is empty or the closure with right sizes |
| `DirectoryServices.Cache.GetRemote` | castore/src/directoryservice/combinators.rs:42-81 | With a remote far side, on a miss: succeeds if the client accepts the stream, it is the closure with right sizes, and near's writes succeed; then the directory is returned and near holds the closure. If the stream is not such, it fails with near unchanged; near never holds dangling references |
| `DirectoryServices.Cache.Insert` | castore/src/directoryservice/combinators.rs:72-76 | A validated closure is never rejected by near's putter; afterwards near holds it; an empty one ends in an error |
| `DirectoryServices.Cache.Get` | castore/src/directoryservice/combinators.rs:42-81 | Serves from near; otherwise, if far holds the complete closure with right sizes, returns that directory and near holds the closure, and if not, fails with near unchanged; near never has dangling references in between |
| `DirectoryServices.Cache.GetRecursive` | castore/src/directoryservice/combinators.rs:89-139 | The same for the recursive form, which yields exactly the closure. In every case, also when near fails midway, the directories come root first, each behind one that refers to it |
| `DirectoryServices.Cache.GetThrough` | castore/src/directoryservice/combinators.rs:42-81 | A cache as the far side of another cache: succeeds if the inner near side holds the closure with right sizes, or does not know it and the inner far side does, and the writes succeed; then near holds the closure. If not, fails with near unchanged |
| `Compositions.Composition.Extend` | castore/src/composition.rs:458-483 | Every config is registered as unbuilt and other keys keep their entries; on a new composition the result is the initial state of the transition system, in which the invariant holds |
| `Compositions.Composition.BuildInternal` | castore/src/composition.rs:343-411 | The section under the mutex, case by case: what the caller has to do, and the new entry; only an unbuilt entry changes, and the placeholder never survives |
| `Compositions.AdvanceKeeps` | castore/src/composition.rs:300-412 | Every step of every request keeps the protocol invariant. In it, a finished builder has built a service of its own if and only if its config works and all its dependency requests ended in services; otherwise it ended like the first of them that failed, or in a failure of its own |
| `Compositions.CompleteBuilds` | castore/src/composition.rs:379-390 | What a builder publishes is that, stated on the finished requests for its dependencies |
| `Compositions.InterleavingKeeps` | castore/src/composition.rs:300-412 | The invariant holds in every state of every interleaving of arriving and stepping requests; the stack of every request is without repetition |
| `Compositions.BuiltOnce` | castore/src/composition.rs:366-391 | Over a whole run each registered config is taken by at most one request |
| `Compositions.SameResult` | castore/src/composition.rs:360-408 | All requests for a registered key that are not inside its own recursion end in the same published result |
| `Compositions.StepsUseUpPotential` | castore/src/composition.rs:300-412 | Every step lowers a measure of what is left to do |
| `Compositions.SchedulesAreBounded` | castore/src/composition.rs:300-412 | So no schedule goes on forever, cyclic configs included |
| `Compositions.StuckIsKnotted` | castore/src/composition.rs:392-407 | If nothing can step and something is unfinished, the unpublished keys are a knot: each depends on another one of them |
| `Compositions.KnotDeadlocks` | castore/src/composition.rs:304-316 | Every knot has an interleaving that deadlocks, because the stack is per call chain |
| `Compositions.DeadlockIffKnot` | castore/src/composition.rs:300-412 | A deadlock is reachable if and only if the configs hold a knot |
| `Compositions.RankedHasNoKnot` | castore/src/composition.rs:300-412 | Acyclic dependencies, self references aside, hold no knot |
| `Compositions.EveryRequestFinishes` | castore/src/composition.rs:300-412 | Without a knot, from every reachable state, every schedule that cannot go on has finished all requests, within a known number of steps |
| `Compositions.NeverWaits` | castore/src/composition.rs:392-407 | A single depth-first driver never has to wait, cyclic configs included |
| `Compositions.DepthFirstRuns` | castore/src/composition.rs:300-412 | Its runs keep the depth-first discipline in every state |
| `Compositions.DepthFirstProgress` | castore/src/composition.rs:300-412 | Nor is it ever stuck before everything is finished |
| `Compositions.OutcomesAreDetermined` | castore/src/composition.rs:379-387 | For acyclic configs every request, under every interleaving, ends in the error, or success, that a sequential evaluation of its key ends in; whose service it is, is part of the invariant |
| `CompositionOutcomes.BuildableMeans` | castore/src/composition.rs:300-391 | What can be built within finitely many levels are exactly the keys all of whose direct and indirect dependencies are registered and work, none of them depending on itself |
| `CompositionOutcomes.StackIsChain` | castore/src/composition.rs:371-378 | The stack of every request is the chain of dependencies that led to it |
| `CompositionOutcomes.BuildableIsServed` | castore/src/composition.rs:300-412 | In every state, a finished request for such a key ended in a service |
| `CompositionOutcomes.ServicesAreBuildable` | castore/src/composition.rs:300-412 | Over every interleaving, only requests for such keys ended in a service |
| `CompositionOutcomes.ServiceIffSound` | castore/src/composition.rs:300-412 | Over every interleaving, cyclic configs included, a finished request ended in a service if and only if everything its key depends on, directly or not, is registered and works and nothing there depends on itself; it is then the instance of the one builder of the key |
| `CompositionOutcomes.SelfDependentFails` | castore/src/composition.rs:304-316 | A key that depends on itself, directly or not, always ends in a failure |
| `CompositionOutcomes.CycleIsRejected` | castore/src/composition.rs:551-580 | The depth-first run of two keys that need each other ends in the recursion error with both on the stack |
| `RefScan.Find` | castore/src/refscan.rs:100-104 | The search is leftmost and non-overlapping: matches are real and come one behind the other, no occurrence starts outside of them, and each is the first needle that occurs there; so every occurrence that no other overlaps is among them |
| `RefScan.LongestIsReached` | castore/src/refscan.rs:47-61 | The longest length is that of one of the needles |
| `RefScan.WindowsCover` | castore/src/refscan.rs:209-233 | Windows that overlap by one byte less than the longest needle miss no occurrence that no other overlaps |
| `RefScan.IsolatedInWindow` | castore/src/refscan.rs:209-233 | An occurrence that no other overlaps stays one in every window that contains it |
| `RefScan.ReferenceScanner.Scan` | castore/src/refscan.rs:93-105 | Flags stay set, and are only set for needles that occur; input at least as long as the longest needle has all isolated occurrences flagged; shorter input is not scanned |
| `RefScan.ReferenceReader.constructor` | castore/src/refscan.rs:156-165 | The capacity is at least the length of the longest needle |
| `RefScan.ReferenceReader.Compact` | castore/src/refscan.rs:209-215 | Keeps the overlap, and the position in the stream |
| `RefScan.ReferenceReader.FillUp` | castore/src/refscan.rs:216-230 | Reads until a scan is possible or the data ends; pending or failing in the middle loses nothing |
| `RefScan.ReferenceReader.ScanBuffer` | castore/src/refscan.rs:232-233 | Extends what has been scanned to everything read so far |
| `RefScan.ReferenceReader.PollFillBuf` | castore/src/refscan.rs:191-236 | Hands out the unread part of the buffer; empty only at the end of the data |
| `RefScan.ReferenceReader.Consume` | castore/src/refscan.rs:238-242 | Delivers exactly the consumed bytes |
| `RefScan.ReferenceReader.PollRead` | castore/src/refscan.rs:173-183 | For every way the reader splits its data: what is delivered is a prefix of the input, and at the end all of it; the flags are then sound, complete for isolated occurrences if the input is as long as the longest needle, and untouched if it is shorter; with capacity zero, possible only without non-empty needles, nothing is ever delivered |
| `RefScan.WholePassFlagsAll` | castore/src/refscan.rs:95-105 | From clear flags, every isolated occurrence is flagged at the end if and only if the input is as long as the longest needle, or there is none |
| `RefScan.ShortInputIsNotScanned` | castore/src/refscan.rs:95-98 | A concrete input that is one of the needles, and is not flagged because another needle is longer |
| `RefScan.CompletePassIsExact` | castore/src/refscan.rs:93-105 | When occurrences do not overlap, a needle is flagged at the end if and only if it occurs |
| `NixBase32.BuildOrdTable` | nix-compat/src/nixbase32.rs:43-58 | The table maps every symbol to its value and every other byte to 0xFF |
| `NixBase32.DigitFromWord` | nix-compat/src/nixbase32.rs:22-35 | The five bits cut out of two neighbouring bytes are the digit of the whole number |
| `NixBase32.Encode` | nix-compat/src/nixbase32.rs:16-41 | The text has the canonical length and only symbols, and denotes the same number as the bytes; all indices are in bounds |
| `NixBase32.EncodingIsUnique` | nix-compat/src/nixbase32.rs:16-41 | Two pairs of bytes and text that denote the same numbers agree in one part exactly if they agree in the other |
| `NixBase32.PackStep` | nix-compat/src/nixbase32.rs:92-107 | One round keeps the number denoted by the bytes written and the carry |
| `NixBase32.PackEnd` | nix-compat/src/nixbase32.rs:116-122 | The carry that is left is zero exactly if the number fits the output |
| `NixBase32.FindInvalid` | nix-compat/src/nixbase32.rs:127-135 | Finds the first character outside the alphabet, which exists whenever it is called |
| `NixBase32.DecodeInner` | nix-compat/src/nixbase32.rs:92-125 | Writes the bytes of the number if all characters are symbols and it fits; else the error of the first invalid character, or of trailing bits |
| `NixBase32.DecodeFixed` | nix-compat/src/nixbase32.rs:77-90 | Decodes to a given length, with the error for each way the input can be wrong |
| `NixBase32.Decode` | nix-compat/src/nixbase32.rs:61-75 | Succeeds if and only if the input is the encoding of some bytes, and then returns these |
| `NixBase32.DecodeOfEncode` | nix-compat/src/nixbase32.rs:16-75 | For all bytes, decoding their encoding gives them back |
| `NixBase32.EncodeOfDecode` | nix-compat/src/nixbase32.rs:16-75 | For all inputs that decode, encoding the result gives the input back |
| `NixBase32.Lengths` | nix-compat/src/nixbase32.rs:137-145 | The two length functions are inverse on encoded lengths, and less than five padding bits remain |
| `ChunkedReaders.FromIter` | castore/src/blobservice/chunked_reader.rs:150-168 | Offsets are running sums modulo 2^64; the chunks lie one behind the other from zero if and only if the total size is below 2^64 |
| `ChunkedReaders.ContainingIsUnique` | castore/src/blobservice/chunked_reader.rs:178-194 | At most one chunk contains a position, empty chunks included |
| `ChunkedReaders.GetChunkIdxForPosition` | castore/src/blobservice/chunked_reader.rs:178-194 | Bisection finds the chunk that contains a position, if and only if the position is inside the blob |
| `ChunkedReaders.ChunkedReader.ReaderSkippedOffset` | castore/src/blobservice/chunked_reader.rs:196-251 | The stream then stands at exactly the given offset; the lookup cannot fail inside the blob |
| `ChunkedReaders.ChunkedReader.OpenNext` | castore/src/blobservice/chunked_reader.rs:217-241 | A chunk that is there leaves the stream where it is; a missing one is passed over with an error |
| `ChunkedReaders.ChunkedReader.PollRead` | castore/src/blobservice/chunked_reader.rs:53-69 | Hands on the next bytes of the blob and moves the position by as many; empty only at the end; fails exactly at a missing chunk, after which the stream stands behind it while the position stays |
| `ChunkedReaders.ChunkedReader.StartSeek` | castore/src/blobservice/chunked_reader.rs:77-124 | The target is the given number, the length plus it, or the position plus it. Overflow exactly if that is negative or at least 2^64, beyond the end exactly if it is behind the end and not the current position, and otherwise the position becomes the target; a seek that moves puts the stream back in step with the position |
| `ChunkedReaders.ChunkedReader.ReadToEnd` | castore/src/blobservice/chunked_reader.rs:53-69 | From a position in step with the stream, reading on gives exactly the rest of the blob, if and only if no chunk from the next one on is missing |
| `ChunkedReaders.AnswerAll` | castore/src/blobservice/chunked_reader.rs:49-124 | Over every sequence of reads and seeks, a reader gives the bytes, positions and errors of a cursor over the concatenation of the chunks, provided every missing chunk ends at offset zero |
| `ChunkedReaders.ReadByBytes` | castore/src/blobservice/chunked_reader.rs:49-124 | And only then: an unused reader that is read byte by byte answers like a cursor if and only if every missing chunk ends at offset zero, and otherwise like a cursor over no blob at all |
| `ChunkedReaders.ReadPastHole` | castore/src/blobservice/chunked_reader.rs:223-230 | A concrete reader that, after the error for a missing chunk, hands on the bytes behind it as if they came next |
| `BlobServices.PiecesAreShorter` | castore/src/blobservice/combinator.rs:66-80 | Two or more non-empty pieces are each shorter than the blob, so reading chunks through the service ends |
| `BlobServices.PiecesAreServed` | castore/src/blobservice/combinator.rs:72-80 | A service that has all the pieces serves every chunk as its slice of the blob |
| `BlobServices.ReadAll` | castore/src/blobservice/combinator.rs:48-85 | Reading a blob, and its chunks in turn, to the end gives the content that hashes to the digest, exactly when it is found |
| `BlobServices.OpenRead` | castore/src/blobservice/combinator.rs:48-85 | Whatever is found is opened with a reader over exactly its content |
| `BlobServices.ReadToEnd` | castore/src/blobservice/chunked_reader.rs:53-69 | Reading any opened blob to the end gives exactly its content |
| `BlobServices.CombinedFinds` | castore/src/blobservice/combinator.rs:43-45 | The combined service finds a blob exactly when either side has it |
| `BlobServices.LocalNeedsNoRemote` | castore/src/blobservice/combinator.rs:47-51 | A blob that the local service has is read from it, whatever the remote one says |
| `BlobServices.CombinedOpensContent` | castore/src/blobservice/combinator.rs:47-85 | If both sides are content-addressed, so is the combination, and all chunks it lists can be opened through it |
| `BlobServices.CombinedOpenRead` | castore/src/blobservice/combinator.rs:47-85 | Opens a blob exactly when either side has it, with a reader over exactly its content |
| `ObjectStores.ChunkKeepsConsistent` | castore/src/blobservice/object_store.rs:398-434 | Writing a chunk keeps every listed chunk present and every list equal to its blob |
| `ObjectStores.IndexKeepsConsistent` | castore/src/blobservice/object_store.rs:361-394 | So does writing the list of a blob whose chunks are there |
| `ObjectStores.ConsistentFinds` | castore/src/blobservice/object_store.rs:95-170 | In a consistent store nothing is invalid; a blob is found exactly when it is there, or is the empty blob |
| `ObjectStores.ConsistentOpens` | castore/src/blobservice/object_store.rs:116-170 | Lists handed to the chunked reader have at least two pieces, all of which can be opened |
| `ObjectStores.OpenStored` | castore/src/blobservice/object_store.rs:116-170 | In any store: an error exactly if the object looked at is not what belongs there; otherwise a reader over exactly the content, if and only if the blob is there or is the empty blob |
| `ObjectStores.StoreIsContentAddressed` | castore/src/blobservice/object_store.rs:95-244 | A consistent store is a content-addressed service, so it can stand on either side of the combinator |
| `ObjectStores.UploadChunk` | castore/src/blobservice/object_store.rs:399-434 | Afterwards the chunk is there, and nothing was overwritten |
| `ObjectStores.RecordsSplit` | castore/src/blobservice/object_store.rs:352-364 | What is written for a blob describes it, for any partition into non-empty pieces; fewer than two are not listed |
| `ObjectStores.ChunkAndUpload` | castore/src/blobservice/object_store.rs:315-397 | For any partition: the store is consistent after each single write, also when requests fail or the stream breaks off; nothing is lost; on success the digest of the data is returned, and the store has the blob and all its pieces |
| `ObjectStores.UploadAndReadBack` | castore/src/blobservice/object_store.rs:116-170 | What was uploaded is read back byte for byte, after any number of further uploads |
| `DirectoryMessages.CheckList` | castore-go/castore.go:133-209 | Accepts a list exactly if its nodes are valid, strictly increasing by name, and not seen before; the error names a rule that is broken |
| `DirectoryMessages.Validate` | castore-go/castore.go:116-212 | Accepts a directory if and only if all nodes are valid, all three lists are strictly sorted, and no name is used twice |
| `DirectoryMessages.NodeMeans` | castore-go/castore.go:43-88 | A node is valid if and only if its name is not empty, not one or two dots, and without zero bytes and slashes; its digest has 32 bytes; its target is not empty and without zero bytes |
| `Prelude.LexMeans` | store-go/export.go:264-273 | Names are compared at the first byte in which they differ, and a prefix comes first |
| `DirectoryMessages.SmallestIsHead` | store-go/export.go:214-262 | The smallest node heads one of the lists, and there is one exactly if any list is non-empty |
| `DirectoryMessages.SmallestIsLeast` | store-go/export.go:214-273 | In a sorted directory the smallest node comes strictly before every other one |
| `DirectoryMessages.MergedMembers` | store-go/export.go:194-212 | Draining a directory yields exactly its nodes |
| `DirectoryMessages.MergedIncreases` | store-go/export.go:194-212 | Draining a sorted directory yields its nodes by strictly increasing name |
| `Exports.JoinValid` | store-go/export.go:138-153 | Joining a valid name to a path adds one component |
| `Exports.JoinMeans` | store-go/export.go:138-153 | Any name is followed component by component: nothing and a dot stay, two dots go up but not above the root, all else goes down |
| `Exports.Message.DrainNextNode` | store-go/export.go:194-212 | Takes the head of the merge out of the message, in place |
| `Exports.PushFrame` | store-go/export.go:137-153 | Pushing a directory on the stack lists it in the place where the recursion would |
| `Exports.DrainFrame` | store-go/export.go:117-123 | Draining a node lists it before everything that remains on the stack |
| `Exports.Round` | store-go/export.go:112-191 | One round of the loop writes the next part of the recursive listing, and makes progress; the messages on the stack are never shared |
| `Exports.Export` | store-go/export.go:18-192 | For every tree the loop over the stack writes exactly the recursive pre-order listing, up to the first failing lookup, and ends; what that listing is, is stated by the lemmas that follow |
| `ExportListings.KindDescribes` | store-go/export.go:44-74 | A header describes the node: a folder, a file with the same flag and the same size read with a sign, or a link with the same target |
| `ExportListings.ListingThen` | store-go/export.go:111-191 | A listing followed by one of later paths is a listing of both; one that failed stays as it is |
| `ExportListings.NodeListed` | store-go/export.go:111-191 | For every valid tree, complete or not, the recursive listing has exactly the headers of the paths before which no lookup fails, in strictly increasing archive order; contents behind regular files; and it ends with the node whose lookup failed |
| `ExportListings.PathsAreUnique` | store-go/export.go:111-191 | In a valid tree a path leads to one node at most |
| `ExportListings.ExportIsComplete` | store-go/export.go:18-192 | An export is complete if and only if every lookup for a node that a path leads to finds something |
| `ExportListings.Size` | castore-go/castore.go:12-22 | The loop computes the entries plus the recorded sizes, modulo 2^64 |
| `ExportListings.SizeCountsNodes` | castore-go/castore.go:12-22 | If the recorded sizes are right, the size of a directory is the number of nodes below it, modulo 2^64 |
| `ExportListings.MergedCounts` | store-go/export.go:194-212 | The merge neither loses nor repeats a node |
| `ExportListings.ExportListsTree` | store-go/export.go:18-192 | A complete export of a valid tree lists every path of the tree exactly once, in archive order, with a header that describes the node the path leads to |
| `ExportListings.ExportWritesContents` | store-go/export.go:58-74 | In a complete export contents come behind the header of a regular file and nowhere else, and are what the blob lookup returns for the file that the path leads to |
| `ExportListings.ExportStopsAtFailure` | store-go/export.go:145-172 | An incomplete export ends with the header of the node whose lookup failed, behind all that come before it; if that is the root directory, nothing is written |
| `ExportListings.ExportMatchesSize` | store-go/export.go:18-192 | It has one header for the root and as many more as the size of the root directory says, modulo 2^64 |
| `Opcodes.OpOfCode` | eval/src/opcode.rs:264-275 | Every opcode is read back from its number |
| `Opcodes.CodeOfOp` | eval/src/opcode.rs:264-275 | Every number below that of `Invalid` is the number of the opcode read from it, and all others read as `Invalid` |
| `Opcodes.UnpackOfPack` | eval/src/opcode.rs:312-352 | A packed position is four times the index plus the tag of its kind; it is read back, by exactly the right one of the three readers, if and only if its index fits 62 bits |
| `Bytecode.Formats` | eval/src/opcode.rs:284-310 | Which numbers of opcodes go with which format of operands |
| `Bytecode.Layout` | eval/src/chunk.rs:44-78 | The bytes of an instruction: jumps have two bytes with the low one first, coercions one byte of two flags, closures the blueprint, twice the count plus the flag, and the positions |
| `Bytecode.UvarintReadsBack` | eval/src/chunk.rs:51-74 | A number is read back with its size in both branches, near the end of the code and inside, for every self-delimiting codec of at most nine bytes |
| `Bytecode.MarkedIsSelfDelimiting` | eval/src/chunk.rs:6-7 | There is such a codec |
| `Bytecode.EncodedAt` | eval/src/chunk.rs:44-78 | In the code of an instruction list each instruction lies at its start |
| `Bytecode.ReadCapture` | eval/src/chunk.rs:212-236 | The operands of closures and thunks are recovered, with the packed count and all positions |
| `Bytecode.DisassembleOp` | eval/src/chunk.rs:160-240 | At the start of an instruction: recovers it with its operands, and the number of bytes to the next one |
| `Bytecode.DisassembleChunk` | eval/src/observer.rs:111-122 | Walking by these sizes visits exactly the starts of the instructions, in order, and recovers the whole list |
| `BytecodeChunks.PushedIsOk` | eval/src/chunk.rs:124-134 | Pushing a span keeps the compressed table equal to the plain map from instructions to spans |
| `BytecodeChunks.OwnerHasSpan` | eval/src/chunk.rs:136-155 | The last entry at or before any byte has the span that was given for the instruction owning the byte |
| `BytecodeChunks.SearchSpans` | eval/src/chunk.rs:138-141 | Bisection finds the entry that starts at an offset, or where it would be inserted |
| `BytecodeChunks.PatchedJumpLands` | eval/src/chunk.rs:80-85 | A patched jump goes from the instruction behind it to exactly the next instruction emitted if and only if the distance is below 65536 |
| `BytecodeChunks.EmitKeepsJumps` | eval/src/chunk.rs:44-78 | Emitting more does not disturb any patched jump |
| `BytecodeChunks.PatchKeepsJumps` | eval/src/chunk.rs:80-85 | Patching one jump does not disturb the others |
| `BytecodeChunks.PatchChangesOperand` | eval/src/chunk.rs:80-85 | Patching replaces two bytes, and the result is the code of the list with that one offset replaced |
| `BytecodeChunks.Chunk.PushOp` | eval/src/chunk.rs:44-49 | Appends the opcode, remembers where, and records its span |
| `BytecodeChunks.Chunk.PushCapture` | eval/src/compiler/mod.rs:1332-1374 | Appends the blueprint, the count packed with the flag, and all positions |
| `BytecodeChunks.Chunk.Emit` | eval/src/chunk.rs:44-78 | Appends one instruction to the list that code, spans and jumps stand for |
| `BytecodeChunks.Chunk.PatchJump` | eval/src/chunk.rs:80-85 | Sets the offset of one jump to the distance to the next instruction, cut to 16 bits, and changes nothing else |
| `BytecodeChunks.Chunk.GetSpan` | eval/src/chunk.rs:136-155 | For every byte of the code, operands included: some instruction owns it, and the result is the span given for that instruction |
| `BytecodeChunks.Chunk.LastOp` | eval/src/chunk.rs:104-111 | The opcode and the start of the last instruction |

## Left out

- Network, gRPC channels, Bigtable, redb and object-store back ends, tokio and pinning: input and output plumbing. Polls are steps, stores are maps.
- The hash functions, zstd, FastCDC, Wu-Manber and vu128 themselves: libraries, replaced by what is assumed of them above.
- The registry, serde tags, URL parsing and anonymous stores in `castore/src/composition.rs`, and cancellation of tasks: configuration, not the protocol. A builder that resolves its dependencies one after the other, or not all of them, is not modelled; it resolves them concurrently.
- Concurrent writers racing with readers of one object store: operations run one after the other, their single requests may fail.
- The evaluator's compiler, virtual machine and values: only the format of chunks, and how instructions are put into them.
- `Directory::add` and `try_from_iter` with their overflow check, and the protobuf conversion of directories: a directory is a list of entries.
- The format of the archive itself: the export is the sequence of headers and file contents handed to the writer. Errors of that writer, of copying file contents, and a file whose length differs from its header are not modelled.
- glue, nar-bridge, cli, serde, tracing, error texts: thin wrappers that would only add easy members.
- Exports.Export: the directory lookup returns a new message each time. A lookup that hands out the same message twice would find it drained the second time, since draining happens in place.
- Exports.Export: paths are lists of cleaned components, not joined with slashes.
- DirectoryMessages.Validate: one helper is called for each of the three lists, where the Go code repeats the loop; which of several errors comes first is the same.
- RefScan.ReferenceReader.PollRead: says nothing about needles whose every occurrence overlaps another one, since the search is non-overlapping and may skip them.
- ObjectStores.OpenStored: for a blob that is found as a list of chunks, only in a consistent store; elsewhere a list may be empty, which makes the chunked reader panic, or name the blob itself.
- ChunkedReaders.ChunkedReader.constructor: requires a total size below 2^64. For larger lists only the index is modelled, which then does not lie in order (`ChunkedReaders.FromIter`).
- ChunkedReaders.FromIter: requires at least one chunk, which the code asserts.
- Bytecode.DisassembleOp: is stated at starts of instructions; for other bytes the code reads out of bounds or panics.
- BytecodeChunks.Chunk.Emit: the invariant is stated between instructions, not between the bytes of one.
