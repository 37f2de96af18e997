# Cast: verified core

This project models the parts of Cast in which several steps, several processes or several failure
branches have to fit together, and proves what each of them is for. It covers five areas.

- **Dependency graphs** (`crates/dag`). `Digraph` is the theory of walks, cycles and ranks; `IndexedGraph` the index-based graph with swap-removal; `TransactionDag` the `Dag` with cycle-checked edges, batched topological order, transposition and reachable subgraphs.
- **Declaration evaluation** (`crates/declarative_config`). `ImportSpec` says which modules a root reaches and when an import graph is admissible; `ImportState` is the bookkeeping of one preparation; `ImportCycle` the colour search for import cycles; `Worklist` the preparation as a function of its inputs; `ModuleGraph` the preparation as it runs. `IdentityCodec` and `EvaluationIdentity` are the byte stream of an evaluation identity, its canonical construction and its validation.
- **Durable state** (`crates/forge`). `MarkerCodec`, `MarkerDisk` and `TreeMarker` are the tree-marker frame, the directory as a state machine over system calls and power losses, and the creator and recovery code against it. `Migration` is the blob-and-catalog migration bridge under process deaths and power loss. `Streaming` holds the bounded download and read loops and the redirect policy, `SystemModel` the package synchronisation.
- **Containers** (`crates/container`). `Activation` follows a cgroup leaf and a cloned child through every failure branch; `Seccomp` interprets the payload filter and compares it with the policy.
- **Patterns** (`crates/fnmatch`). `Fnmatch` reads glob patterns into fragments and prints them back; `GlobRegex` compares the regular expression they compile to with the language of the glob, and `GroupOrder` settles when text in front of a group keeps its meaning.

`Basics` and `Ordering` hold shared vocabulary: optional values, lexicographic order, sorting.

Conventions. Strings that the code compares or hashes as bytes are sequences of bytes (`Text`); glob
patterns are Dafny strings. SHA-256 is a parameter, known only by the length or alphabet of its digests.
What a kernel, a clock or another process decides is a nondeterministic choice in a method, so a
contract holds for every outcome; counters and flags that only the modelled calls set (`faults`,
`signals`, a deadline's `passed`) say which failures were the environment's. In `TreeMarker` any number of legal moves of other processes happen before every system
call, and the recorded run is part of the contracts.

Findings, each with its exact condition in the table below:

- A pattern prints back from its fragments exactly when it is ASCII, has no stray `)` and opens every group right after a token, a group or the start. Text just before a group is emitted behind it: `a(n:b)` means "ab" and accepts "ba" (`GroupAfterText`). Plain text right before a last group keeps its meaning if and only if the group has no wildcard and its value commutes with the text (`TextBeforeGroupIff`).
- The emitted `.` refuses a line feed, which `?` and `**` mean to accept. A clean pattern of safe characters compiles to exactly its language if and only if it holds neither token; on paths without a line feed the two always agree (`PreservesEveryPathIff`, `CompilationPreservesMeaning`).
- A migration that finds its blob already present syncs nothing. A row committed over a blob that was not settled resolves until the power goes; rows survive every power loss if and only if their blobs are settled.
- A migration must not overlap a collection (`SweptBeforeCommit`): committing a row keeps every row resolvable if and only if the row's blob is intact at that moment.
- A blob torn by a dying write blocks every retry of that migration until a collection removes it (`TornBlobBlocksRetry`).
- Preparation is a function of its inputs for every catalog, but the order in which discovery lists requests can decide its result. For a catalog it never does if and only if no two names share an identity other than "root" and no identity starts with "relative:" (`PreparationIsConfluent`, `SharedIdentityMakesOrderMatter`). The identity "root" needs no such condition: importing it always ends in a reported cycle.
- Activation gives a child up if and only if SIGINT was overridden, the wait reported a status that is no end, and the handler could not be restored. The waits ask for ended children only (`WEXITED`; `waitpid` without flags), so that status is a defensive branch and not an ordinary outcome. In every other combination of outcomes the child is reaped or its pidfd can be taken from the error.
- A second package sync changes nothing if and only if every uncovered package whose own name nobody provides shares that name with an uncovered package whose providers name covered packages only; it always holds when packages provide their own names.
- The last canonicity check of the tree-marker decoder can never fire.

## Model

| member | source | states |
|---|---|---|
| IndexedGraph.RemoveIndexRefinesRemoval | crates/dag/src/lib.rs:64-70 | Swap-removal of an index removes exactly that node's weight and the edges at it; every other weight and edge survives the renumbering, and lower positions keep their place. |
| IndexedGraph.RunIsValid | crates/dag/src/lib.rs:50-97 | After any sequence of node insertions, renumbering removals and edge insertions from the empty graph, weights are distinct, parallel edges absent and the graph acyclic. |
| IndexedGraph.WithEdgeValid | crates/dag/src/lib.rs:82-97 | Inserting an edge only when its target does not reach its source keeps a graph acyclic. |
| IndexedGraph.SameReach | crates/dag/src/lib.rs:82-97 | Reachability between indices is reachability between the weights they carry. |
| TransactionDag.Dag.constructor | crates/dag/src/lib.rs:43-45 | A new Dag is empty and acyclic. |
| TransactionDag.Dag.AddNodeOrGetIndex | crates/dag/src/lib.rs:50-56 | The node is present exactly once afterwards, at the returned index; an existing node leaves the graph unchanged. |
| TransactionDag.Dag.RemoveNode | crates/dag/src/lib.rs:64-70 | Returns the node exactly when it was present and leaves the graph without it, still a DAG. |
| TransactionDag.Dag.TryAddEdge | crates/dag/src/lib.rs:82-97 | Already-present, cycle and added are told apart; a cycle is reported exactly when the target already reaches the source, as a path a, b, ..., a that follows a shortest walk of existing edges from b to a; the graph stays acyclic. |
| TransactionDag.Dag.AddEdge | crates/dag/src/lib.rs:73-75 | True exactly when the graph changed. |
| TransactionDag.FindPath | crates/dag/src/lib.rs:88 | Finds a walk from start to goal that no other is shorter than, and reports none only if the goal is unreachable. |
| TransactionDag.RemoveAll | crates/dag/src/lib.rs:143-148 | Removing indices in descending order by swap-removal leaves the graph induced on the other weights. |
| TransactionDag.LayeredBatches | crates/dag/src/lib.rs:126-151 | Batch k holds exactly the nodes whose longest incoming path has k edges, each once, and no batch is empty; on a cyclic graph the loop stops with the nodes that have such a length. |
| TransactionDag.BatchesPartition | crates/dag/src/lib.rs:126-151 | On a DAG every node is in exactly one batch and every edge leads to a strictly later batch. |
| TransactionDag.BatchCountIsMinimal | crates/dag/src/lib.rs:126-151 | No staging of the nodes that respects the edges needs fewer stages than there are batches. |
| TransactionDag.Dag.BatchedTopo | crates/dag/src/lib.rs:126-151 | The batches of a Dag are its longest-path layering and cover every node. |
| TransactionDag.TransposeArcs | crates/dag/src/lib.rs:154-158 | Transposition keeps the weights and reverses exactly the edges. |
| TransactionDag.Dag.Transpose | crates/dag/src/lib.rs:154-158 | The transposed Dag is again acyclic. |
| TransactionDag.ReachableSubgraph | crates/dag/src/subgraph.rs:5-42 | The result is the graph induced on the nodes reachable from the starting nodes that exist, each edge once however the starts overlap. |
| TransactionDag.Dag.Subgraph | crates/dag/src/lib.rs:161-163 | The subgraph of a Dag is the induced reachable graph and stays acyclic. |
| TransactionDag.ReverseSelection | crates/dag/src/lib.rs:154-163 | A subgraph of the transposed Dag holds exactly the nodes that reach one of the starts. |
| ImportCycle.BuildAdjacency | crates/declarative_config/src/module_graph.rs:390-401 | The adjacency lists hold exactly the observed import edges. |
| ImportCycle.Follow | crates/declarative_config/src/module_graph.rs:418-440 | Following one edge keeps colours, path and stack consistent, or closes a cycle of observed edges. |
| ImportCycle.Explore | crates/declarative_config/src/module_graph.rs:411-446 | One iterative depth-first search either returns a cycle of observed edges or extends a topological rank to everything reachable from its start. |
| ImportCycle.DetectImportCycle | crates/declarative_config/src/module_graph.rs:390-449 | A returned path is a closed walk of observed edges without a repeated module; none is returned exactly when the imports are acyclic, and then a rank exists. |
| ModuleGraph.ModuleGraph.CheckNewImportLimits | crates/declarative_config/src/module_graph.rs:678-714 | Passes only if one more module of that size breaks no count, file or graph limit; fails with the first limit broken, or because the deadline has passed. |
| ModuleGraph.ModuleGraph.CheckGraphBytes | crates/declarative_config/src/module_graph.rs:716-729 | Passes only if the byte total is within the graph limit; fails because it is not, or the deadline has passed. |
| ModuleGraph.ModuleGraph.RegisterAlias | crates/declarative_config/src/module_graph.rs:554-573 | An alias is recorded once; it is refused only if it already stands for another identity or the deadline has passed. |
| ModuleGraph.ModuleGraph.RegisterImport | crates/declarative_config/src/module_graph.rs:575-630 | A known identity changes nothing; a new one is counted, charged, recorded and queued; a failure is the broken limit or a passed deadline. |
| ModuleGraph.ModuleGraph.RegisterExternal | crates/declarative_config/src/module_graph.rs:632-668 | An external import is admitted or refused as the specification of one import says, unless the deadline has passed. |
| ModuleGraph.ModuleGraph.AddEmbedded | crates/declarative_config/src/module_graph.rs:467-495 | A catalog import is admitted or refused as the specification of one import says, with the same error, unless the deadline has passed. |
| ModuleGraph.ModuleGraph.AddRelative | crates/declarative_config/src/module_graph.rs:497-552 | So is a relative import, including every way its resolution can fail. |
| ModuleGraph.ModuleGraph.Process | crates/declarative_config/src/module_graph.rs:345-361 | So is any import request. |
| ImportState.AdmittedLedger | crates/declarative_config/src/module_graph.rs:575-630 | Every admitted import keeps the ledger balanced: the byte total is the root plus all recorded source texts, within the limits. |
| ImportState.AliasesAreFunctional | crates/declarative_config/src/module_graph.rs:554-573 | Any two recorded edges with one alias, from any parents, have one target. |
| ImportState.RefusedMeansInadmissible | crates/declarative_config/src/module_graph.rs:467-630 | An import is refused only if the inputs as a whole are inadmissible, whatever was processed before. |
| ImportState.NothingWaiting | crates/declarative_config/src/module_graph.rs:336-363 | Once the queue is empty exactly the reachable modules have been found and every import of each was seen. |
| ModuleGraph.ProcessAll | crates/declarative_config/src/module_graph.rs:345-361 | The loop over requests folds the specification of one import over them, for every catalog, and fails with the error of the first that is refused, or because the deadline has passed. |
| ModuleGraph.Drain | crates/declarative_config/src/module_graph.rs:336-363 | The loop over pending modules ends in the state, or the error, the worklist settles on, unless the deadline has passed, and shows discovery at most max_imports + 1 modules. |
| Worklist.AlwaysSettles | crates/declarative_config/src/module_graph.rs:336-363 | Whatever the catalog, within max_imports + 1 turns the worklist fails or empties its queue; only reachable modules are registered; when identities tell modules apart a failure means inadmissible inputs. |
| Worklist.FinalLedger | crates/declarative_config/src/module_graph.rs:554-630 | Whatever the catalog, the final byte total is the root plus the texts of the recorded sources, counts and sizes respect the limits, aliases have one target each, and discovery was shown as many modules as the root and the recorded sources. |
| Worklist.ResultIsUnique | crates/declarative_config/src/module_graph.rs:301-384 | Whatever the catalog, inputs determine the result, the clock aside. |
| Worklist.RootIdentityClosesCycle | crates/declarative_config/src/module_graph.rs:371-382 | An import with the identity of the root makes the recorded dependencies cyclic. |
| Worklist.ResultIsOutcome | crates/declarative_config/src/module_graph.rs:301-384 | When identities tell modules apart, what the worklist settles on is the closure exactly for admissible inputs, each module shown once. |
| ModuleGraph.PrepareModuleGraph | crates/declarative_config/src/module_graph.rs:301-384 | For every catalog the result is the one the worklist settles on, unless it is the timeout error and the deadline has passed. When identities tell modules apart it is, with the same exception, Ok exactly for admissible inputs and then exactly the reachable closure in canonical order, and discovery is shown the root and each source module once; at most max_imports + 1 modules are ever shown. |
| Worklist.CyclesAgree | crates/declarative_config/src/module_graph.rs:371-382 | When identities tell modules apart and none is the root's, the recorded dependency identities have a cycle exactly when the reachable modules have one. |
| Worklist.ClosureIsUnique | crates/declarative_config/src/module_graph.rs:365-370 | Two canonical listings of the reachable closure are equal. |
| Worklist.PreparationIsConfluent | crates/declarative_config/src/module_graph.rs:301-384 | With distinct catalog identities, two inputs that differ only in the order or repetition of discovered requests both fail or give identical graphs. |
| Worklist.SharedIdentityMakesOrderMatter | crates/declarative_config/src/module_graph.rs:467-552 | For every other catalog some root lists two requests that lead to two different prepared graphs in their two orders. |
| IdentityCodec.DecodeInvertsStream | crates/declarative_config/src/identity.rs:401-456 | A decoder recovers every descriptor, hash, module and dependency from the hashed stream, for all lengths below 2^64. |
| IdentityCodec.StreamIsInjective | crates/declarative_config/src/identity.rs:401-456 | Equal streams mean equal inputs. |
| IdentityCodec.AggregateStream | crates/declarative_config/src/identity.rs:401-456 | Feeding the digest piece by piece produces that stream. |
| IdentityCodec.ResourcePolicyIsInjective | crates/declarative_config/src/identity.rs:348-367 | Different resource limits of machine size have different policy encodings. |
| EvaluationIdentity.CanonicalModulesStrict | crates/declarative_config/src/identity.rs:118-129 | Sorting and deduplicating modules leaves each identity once, in strict order, and loses none. |
| EvaluationIdentity.CanonicalDependenciesStrict | crates/declarative_config/src/identity.rs:131-141 | Sorting and deduplicating dependencies keeps exactly the given edges, strictly ordered. |
| EvaluationIdentity.IdentityIgnoresOrder | crates/declarative_config/src/identity.rs:107-178 | An identity does not depend on the order of modules or on the order or repetition of edges. |
| EvaluationIdentity.Validate | crates/declarative_config/src/identity.rs:184-258 | Accepts exactly the canonical, internally consistent identities, and every error names something that is really wrong. |
| EvaluationIdentity.BuiltIdentityIsValid | crates/declarative_config/src/identity.rs:107-178 | A built identity validates exactly when its names, aliases and module hashes are well formed. |
| EvaluationIdentity.ValidIdentityIsRebuilt | crates/declarative_config/src/identity.rs:107-258 | Building again from what a valid identity records gives that identity. |
| EvaluationIdentity.DigestNamesTheIdentity | crates/declarative_config/src/identity.rs:184-258 | Two valid identities have one digest exactly when they are equal field by field, unless their streams collide. |
| EvaluationIdentity.PreparedGraphIsRecorded | crates/declarative_config/src/identity.rs:107-141 | The identity records a prepared graph unchanged. |
| MarkerCodec.DecodeInvertsEncode | crates/forge/src/tree_marker/integrity.rs:71-109 | Decoding an encoded token returns it; the frame is 78 bytes. |
| MarkerCodec.DecodedIsCanonical | crates/forge/src/tree_marker/integrity.rs:82-109 | A frame that decodes is the one encoding of a well-formed token, and the final canonicity check never fires. |
| MarkerDisk.PublishedOnce | crates/forge/src/tree_marker.rs:515-573 | Between power losses, in every interleaving of any number of processes, at most one file is published and its contents never change. |
| MarkerDisk.NameAlwaysSealed | crates/forge/src/tree_marker.rs:469-513 | In every run the canonical name denotes a complete, read-only, synced frame, across power losses too. |
| MarkerDisk.SettledForever | crates/forge/src/tree_marker.rs:269-294 | A settled marker stays settled, whatever any process or power loss does. |
| MarkerDisk.SettledMarkersAgree | crates/forge/src/tree_marker.rs:269-294 | Markers settled at any two moments of a run are one file with one token. |
| TreeMarker.TreeMarkerStore.Open | crates/forge/src/tree_marker.rs:201-228 | Opening succeeds only on a safe directory that is the given one and carries no default ACL, and retains it; an unsafe directory, a changed one, an ACL and a failed call are told apart. |
| TreeMarker.TreeMarkerStore.ValidateUsr | crates/forge/src/tree_marker.rs:369-378 | Passes only if the directory was the retained one at some moment of the call and carries no default ACL; fails only for an unsafe, changed or ACL-carrying directory or a failed call. |
| TreeMarker.TreeMarkerStore.RejectTemporary | crates/forge/src/tree_marker.rs:592-606 | Passes exactly when the temporary name is absent, a failed call aside. |
| TreeMarker.TreeMarkerStore.CanonicalWitness | crates/forge/src/tree_marker/integrity.rs:145-168 | Accepts exactly files of the right owner, mode, link count and length, and returns what the file is. |
| TreeMarker.TreeMarkerStore.ReadExactFrame | crates/forge/src/tree_marker/integrity.rs:235-288 | Returns the whole file, of frame length, however reads are chunked, tolerating up to 32 interruptions; fails only for a broken call, another length, or exactly 33 interruptions. |
| TreeMarker.TreeMarkerStore.ReadAndDecode | crates/forge/src/tree_marker/integrity.rs:207-221 | Returns the token of the pinned file, or fails because it does not decode. |
| TreeMarker.TreeMarkerStore.LoadCanonical | crates/forge/src/tree_marker.rs:380-447 | Returns the marker under the canonical name, or none when there is none; its change-detection errors cannot occur while nobody unlinks. |
| TreeMarker.TreeMarkerStore.Revalidate | crates/forge/src/tree_marker/retained.rs:135-159 | A loaded marker revalidates unless the environment fails, the directory changed or a temporary name appeared. |
| TreeMarker.TreeMarkerStore.ReadForRecovery | crates/forge/src/tree_marker.rs:340-348 | Recovery makes no move of its own, returns the marker under the canonical name, and every failure is the environment's. |
| TreeMarker.TreeMarkerStore.ReadExpectedForRecovery | crates/forge/src/tree_marker.rs:352-359 | Recovery bound to a token returns only that token, and a mismatch means another is stored. |
| TreeMarker.RecoveryAgrees | crates/forge/src/tree_marker.rs:340-348 | Whatever recovery reads after a creator succeeded is that creator's file and token. |
| TreeMarker.TreeMarkerStore.WriteAllAt | crates/forge/src/tree_marker/integrity.rs:290-307 | However writes are split or interrupted, success means the file holds exactly the bytes. |
| TreeMarker.TreeMarkerStore.CreateAnonymousTemporary | crates/forge/src/tree_marker.rs:449-467 | Success yields a file of one's own without a name. |
| TreeMarker.TreeMarkerStore.SealFrame | crates/forge/src/tree_marker.rs:469-497 | Success leaves the complete frame, read-only and synced, in a file that still has no name. |
| TreeMarker.TreeMarkerStore.WriteCompleteTemporary | crates/forge/src/tree_marker.rs:469-513 | So does the whole step with its read-back, whose mismatch errors cannot occur. |
| TreeMarker.TreeMarkerStore.LinkNoReplace | crates/forge/src/tree_marker.rs:536-542 | The link takes a free name only, and is made only of a sealed file. |
| TreeMarker.TreeMarkerStore.FinishPublication | crates/forge/src/tree_marker.rs:543-573 | After the link, success means the published token is settled under the canonical name. |
| TreeMarker.TreeMarkerStore.AdoptRacingCanonical | crates/forge/src/tree_marker.rs:576-590 | The loser of a race returns the winner's token, settled. |
| TreeMarker.TreeMarkerStore.PublishTemporary | crates/forge/src/tree_marker.rs:515-573 | Publication or adoption: success returns the settled marker, failure is the environment's. |
| TreeMarker.TreeMarkerStore.AdoptOrCreateBeforeJournal | crates/forge/src/tree_marker.rs:269-294 | Against any interleaving of other processes every move is legal, success returns the marker that is settled under the canonical name, and failure is never the protocol's own doing: interruptions that were retried do not count as a reason. |
| Migration.MigrationStore.constructor | crates/forge/src/declaration_migration.rs:42-46 | An empty store is durable, whatever fates await its steps. |
| Migration.MigrationStore.Read | crates/forge/src/declaration_migration.rs:132-143 | Bytes come back only if they still hash to their name; a mismatch is reported exactly for a stored blob that does not. |
| Migration.MigrationStore.Write | crates/forge/src/declaration_migration.rs:63-98 | Never changes an existing blob; without failures it succeeds exactly when the name is free or holds the same bytes; what a death leaves is a prefix under a free name; a fresh success is settled. |
| Migration.MigrationStore.CommitRow | crates/forge/src/db/state/declaration_migrations.rs:61-92 | Inserts an absent row, accepts an equal one, refuses any other; a row is never overwritten; rows that all resolve still do exactly if nothing was inserted or the inserted row's blob is intact. |
| Migration.MigrationStore.MigrateDeclaration | crates/forge/src/declaration_migration.rs:184-206 | Wherever it stops, every committed row still resolves; if nothing stops it, it commits exactly when the slot is free and the blob's name is free or holds the same bytes; it stays safe against power loss exactly unless a row was committed over an unsettled blob. |
| Migration.SurvivesIffSettled | crates/forge/src/declaration_migration.rs:63-98 | Rows resolve after every possible power loss if and only if all their blobs are settled. |
| Migration.AdoptedBlobCanBeLost | crates/forge/src/declaration_migration.rs:79-86 | A run: a process dies before the sync, the retry commits over the blob it finds, the slot resolves, and a power loss breaks it. |
| Migration.TornBlobBlocksRetry | crates/forge/src/declaration_migration.rs:63-98 | A run: a process dies while writing, the retry is refused for the torn bytes, and after a collection it commits durably. |
| Migration.SweptBeforeCommit | crates/forge/src/declaration_migration.rs:434-449 | A run: a collection between the write and the commit of a migration leaves a committed row that does not resolve. |
| Migration.MigrationStore.ResolveMigratedBlob | crates/forge/src/declaration_migration.rs:211-221 | A slot resolves exactly when it has a row, to the bytes the row names; in a sound store only a failed call prevents it. |
| Migration.MigrationStore.ResolveRevalidated | crates/forge/src/declaration_migration.rs:455-477 | Selects the bytes only if marker and source hash still match, and names the drift otherwise. |
| Migration.MigrationStore.VerifyMigrationReadiness | crates/forge/src/declaration_migration.rs:319-342 | Every required slot lands in exactly one list: ready ones resolve, missing ones have no row, unresolved ones have a row whose blob does not resolve, or could not be read. |
| Migration.MigrationStore.CollectUnreferencedBlobs | crates/forge/src/declaration_migration.rs:434-449 | Wherever it stops no selected blob is gone; on success exactly the selected blobs remain and the result lists the others once. |
| Migration.MigrationStore.FinalizeMigration | crates/forge/src/declaration_migration.rs:365-380 | Removes nothing unless every required slot is ready; otherwise leaves exactly the selected blobs. |
| Migration.MigrationStore.PruneStates | crates/forge/src/db/state/declaration_migrations.rs:128-132 | Drops all rows of the pruned states or none. |
| Migration.MigrationStore.RunOperations | crates/forge/src/declaration_migration.rs:184-449 | After any sequence of operations, each stopping anywhere, every committed row resolves to the bytes it did unless pruned; with power losses too, as long as no row was committed over an unsettled blob. |
| Streaming.ReadSourceWithLimits | crates/forge/src/request.rs:456-492 | Without read errors the whole stream is returned exactly when neither announced nor real length exceeds the limit, whatever the chunks; at most limit + 1 bytes are pulled. |
| Streaming.WriteFetchedToFile | crates/forge/src/request.rs:360-454 | The target is replaced only by the complete stream with the expected hash, within the limit; staging never remains. Unless a read or a file operation fails, it succeeds exactly when the stream is within the limit and has that hash, and otherwise says which of the two is not so. |
| Streaming.ReadToEndBounded | crates/forge/src/linux_fs.rs:104-144 | Returns the first min(length, limit) bytes exactly if no read and no reservation fails, the deadline does not pass and at most 1024 reads are interrupted; each error is returned exactly for its own cause. |
| Streaming.RetryInterrupted | crates/forge/src/linux_fs.rs:31-55 | At most 1025 calls, all but the last interrupted; succeeds exactly if no call fails, the deadline does not pass and at most 1024 calls are interrupted; each error is returned exactly for its own cause. |
| Streaming.RedirectsAreBounded | crates/forge/src/request.rs:82-101 | A followed chain has at most ten hops. |
| Streaming.RedirectsStaySecure | crates/forge/src/request.rs:82-101 | A followed chain never leaves https once on it. |
| Streaming.RedirectsCarryNothing | crates/forge/src/request.rs:82-101 | Every redirect target is an HTTP(S) URL with a host and without credentials or fragment. |
| SystemModel.SyncPackages | crates/forge/src/system_model.rs:304-323 | The new selection is exactly the old selections still provided plus the names of packages that had none selected. |
| SystemModel.SyncCovers | crates/forge/src/system_model.rs:304-323 | No selection still provided is lost; with packages that provide their own name every package has a selected provider and every selection belongs to a package. |
| SystemModel.SyncIsIdempotentIff | crates/forge/src/system_model.rs:304-323 | A condition on the selection and the packages before either sync under which, and only under which, the second changes nothing: every name the first adds is provided or belongs to a package it leaves uncovered. |
| SystemModel.SyncIsIdempotent | crates/forge/src/system_model.rs:304-323 | In particular it changes nothing when packages provide their own names. |
| SystemModel.SyncCanDrop | crates/forge/src/system_model.rs:304-323 | Two packages, one providing only the other's name, lose a selection at the second sync. |
| SystemModel.UpdateRepositories | crates/forge/src/system_model.rs:336-342 | Keeps the set of repositories; each that the update names takes its value, the others keep theirs. |
| Activation.Returned.TakeChildPidfd | crates/container/src/lib.rs:630-636 | Takes the reachable pidfd out: none is duplicated or dropped, leaves stay, and a second take finds none. |
| Activation.Returned.TakeCgroupLeaf | crates/container/src/lib.rs:641-648 | Takes the leaf out in the same sense. |
| Activation.WithoutPidfd | crates/container/src/lib.rs:630-636 | Emptying an error conserves all other handles at every depth. |
| Activation.Activation.CleanupPidfdChild | crates/container/src/process_runtime/lifecycle.rs:278-312 | Success means the child is reaped; failure gives the pidfd back and means that a call failed or the wait ran out. |
| Activation.Activation.CleanupAfterFailure | crates/container/src/process_runtime/lifecycle.rs:174-188 | The error holds the one pidfd exactly when the child is still unreaped. |
| Activation.Activation.CleanupUnstartedCgroup | crates/container/src/activation.rs:593-602 | The leaf is gone or its one handle is in the error; pidfds inside stay reachable. |
| Activation.Activation.RetryChildCleanup | crates/container/src/lib.rs:595-627 | Exactly one more attempt is made for an error that carries the pidfd itself, none otherwise; the pidfd leaves the error exactly when the child was reaped. |
| Activation.Activation.FinalizeStartedCgroup | crates/container/src/activation.rs:604-625 | Success means the leaf is gone; otherwise leaf and child are accounted for in the error; cleanup is retried exactly when the leaf went and the error carries the pidfd. |
| Activation.Activation.SpawnInCgroup | crates/container/src/activation.rs:131-207 | Succeeds, with a live child, exactly if no step fails; after a failure any child is reaped or its pidfd is in the error. |
| Activation.Activation.SpawnLegacy | crates/container/src/activation.rs:208-314 | Succeeds, with a live child, exactly if no step fails; a failure leaves no child, unless the numeric wait for it failed. |
| Activation.Activation.Supervise | crates/container/src/activation.rs:345-413 | If no call fails the child is reaped and the result reports its end, success exactly for status zero. Otherwise its pidfd is in the error unless it was reaped or given up, and it is given up exactly when an overridden SIGINT could not be restored after a wait that reported no end. |
| Activation.Activation.RunInternal | crates/container/src/activation.rs:64-419 | If no call fails, leaf and child are gone and the result reports the child's end, success exactly for status zero. For every combination of outcomes a leaf is gone or its one handle can be taken, and a child is reaped or its one pidfd can be taken, except for a child given up; that happens exactly when SIGINT was overridden, the wait reported no end and the handler was not restored. |
| Seccomp.ForwardOffset | crates/container/src/seccomp.rs:76-81 | The offset leads exactly to its target and fits a byte. |
| Seccomp.Interpret | crates/container/src/seccomp.rs:317-350 | For any program the interpreter agrees with the meaning of the program and never runs out of its length + 1 rounds; a well-formed program always returns a verdict. |
| Seccomp.FilterDecides | crates/container/src/seccomp.rs:87-143 | For every architecture, system call and 64-bit flag word the filter's verdict is the policy's. |
| Seccomp.FlagWords | crates/container/src/seccomp.rs:130-138 | Testing the two halves of a flag word is testing the whole word against the safe flags. |
| Seccomp.PayloadFilterIsWellFormed | crates/container/src/seccomp.rs:87-143 | The filter's jumps land inside it and nothing falls off its end. |
| Seccomp.RunPayloadFilter | crates/container/src/seccomp.rs:317-350 | Interpreting the filter always returns the policy's verdict. |
| Fnmatch.StringWalker.SubstringTo | crates/fnmatch/src/lib.rs:86-95 | Finds the text up to the first such character, stopping at one that is not ASCII. |
| Fnmatch.FragmentsFromString | crates/fnmatch/src/lib.rs:160-215 | The loop over walker, buffer and pending text computes the recursive reading of the pattern. |
| Fnmatch.GroupAt | crates/fnmatch/src/lib.rs:175-189 | A group's name, value and closing parenthesis make up the text it consumes, and its value holds no `)`. |
| Fnmatch.PrintsBackIffClean | crates/fnmatch/src/lib.rs:160-215 | Fragments print back to the pattern exactly when it is clean: ASCII, no stray `)`, every group opened at a fragment boundary. |
| Fnmatch.GroupsAreFlat | crates/fnmatch/src/lib.rs:175-193 | Groups are never nested. |
| GlobRegex.PatternFromString | crates/fnmatch/src/lib.rs:246-264 | The compiled text is the anchored emission of the fragments and the groups are exactly the names in the pattern. |
| GlobRegex.FragmentToRegex | crates/fnmatch/src/lib.rs:217-242 | A fragment's text and the names inside it, nested names first. |
| GlobRegex.LexEmitted | crates/fnmatch/src/lib.rs:217-242 | Read as a regular expression, the emitted text is the intended sequence of literals, runs and groups. |
| GlobRegex.MatchConcat | crates/fnmatch/src/lib.rs:246-264 | A concatenation of expressions matches exactly what splits into matches of the parts. |
| GlobRegex.CompilationPreservesMeaning | crates/fnmatch/src/lib.rs:160-264 | For clean patterns of safe characters with valid, distinct group names the expression accepts exactly the glob language, on every path without a line feed. |
| GlobRegex.PreservesEveryPathIff | crates/fnmatch/src/lib.rs:217-264 | For such patterns it accepts exactly that language on all paths if and only if the pattern holds neither `?` nor `**`. |
| GlobRegex.LineFeedIsRefused | crates/fnmatch/src/lib.rs:217-264 | `?` means a line feed and its expression refuses it. |
| GroupOrder.TextBeforeGroup | crates/fnmatch/src/lib.rs:175-193 | The expression for plain text right before a last group matches exactly the group's language followed by that text. |
| GroupOrder.MeaningOfTextBeforeGroup | crates/fnmatch/src/lib.rs:175-193 | Such a pattern means exactly that text followed by the group's language. |
| GroupOrder.GroupAfterText | crates/fnmatch/src/lib.rs:175-193 | `a(n:b)` means "ab" and not "ba"; its expression accepts "ba" and not "ab". |
| GroupOrder.TextBeforeGroupIff | crates/fnmatch/src/lib.rs:160-264 | For plain text right before a last group, in patterns the engine takes, expression and meaning agree on all paths without a line feed if and only if there is no text, or the group has no wildcard and its value commutes with the text. |
| GroupOrder.TextBeforeGroupEverywhereIff | crates/fnmatch/src/lib.rs:160-264 | On all paths they agree if and only if there is text and that condition holds, or there is none and the group has neither `?` nor `**`. |

## Left out

- TransactionDag.FindPath: which of several shortest walks is returned is not modelled.
- TransactionDag.Dag.TryAddEdge: indices must be in range, where the original panics.
- GlobRegex.CompilationPreservesMeaning: cleanness is sufficient; the exact condition is proved for text right before a last group (`TextBeforeGroupIff`), not for several groups behind texts or for a stray `)`. Backslashes and characters with a meaning in regular expressions are excluded, since they are passed through.
- GlobRegex.PatternFromString: stops before the regular-expression engine, so its refusal of invalid or repeated names appears only in `Accepts`.
- Fnmatch.FragmentsFromString: captured values of a match are not modelled, only the accepted language.
- TreeMarker.TreeMarkerStore.AdoptOrCreateBeforeJournal: the variant that tolerates a second, authorised link is not modelled, and nobody unlinks or renames the canonical name.
- TreeMarker.TreeMarkerStore.Revalidate: the authorised second link is not modelled, so the marker has one link throughout.
- TreeMarker.TreeMarkerStore.WriteAllAt: the original retries interrupted writes without bound; the model lets any finite number of signals arrive.
- Activation.Activation.RunInternal: signal masks, private devices and the sync socket are steps that succeed or fail; the child's own side, panics and the drop guards are not modelled.
- Activation.Activation.SpawnLegacy: a numeric kill or wait that fails leaves no handle; the contract only says when that is.
- Migration.MigrationStore.Write: hexadecimal encoding of digests and parent directories beyond the blob directory are not modelled.
- Migration.MigrationStore.RunOperations: operations follow one another; overlapping processes are excluded, and `SweptBeforeCommit` shows why.
- Streaming.WriteFetchedToFile: removing the staging file is taken to succeed; timeouts and progress callbacks are not modelled.
- Streaming.ReadSourceWithLimits: timeouts and connection errors count as read failures; progress callbacks are not modelled.
- ModuleGraph.PrepareModuleGraph: the text of diagnostics, path normalisation and the language's own discovery are parameters; byte totals are bounded by the machine word as in the original.
- Worklist.SharedIdentityMakesOrderMatter: the two orders are shown for some files and some path normalisation, which are parameters of the model, and for catalog sources whose lengths are machine words.
- IdentityCodec.AggregateStream: deadline checks between pieces are not modelled.
- SystemModel.SyncPackages: regenerating the snapshot text from the new selection is not modelled.
- Seccomp.Interpret: only the instructions and offsets the original interpreter knows.
- Migration coverage counts, the completion report and the scan for generated Gluon files are not modelled.
- The transition journal, namespaces, mounts, cgroup limits, the payload's setup, package resolution and the command line are outside the model.
