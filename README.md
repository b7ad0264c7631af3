# TTL-aware node selection (Presto `SimpleTtlNodeSelector`)

Presto's `SimpleTtlNodeSelector` places the splits of a query stage on worker nodes. It uses only nodes whose predicted remaining lifetime (TTL) covers the query's remaining execution time. In some cases it hands the request to the TTL-agnostic `SimpleNodeSelector`: when a split asks for a placement preference, or, when fallback is configured, when no node qualifies.

This project models that selector in Dafny and proves properties of the model:

- `common.dfy` (`Common`): an `Option` type, the element set of a list, distinctness, and the order-preserving subsequence relation, with its lemmas.
- `ttl.dfy` (`Ttl`): lifetime estimates and whole-second time arithmetic.
  - The `isTtlEnough` test.
  - The remaining-time estimate.
  - The min-by-expiry reduction of a node's estimates.
- `cluster.dfy` (`Cluster`): the cluster snapshot (`NodeMap`), remote tasks, splits, assignments, and the per-call load accounting (`AssignmentStats`), with the accounting after a list of assignments.
- `eligibility.dfy` (`Eligibility`), as pure functions:
  - the per-node TTL reduction;
  - the stable TTL filter `filterNodesByTtl`;
  - the existing-task part of `getEligibleNodes`.
- `collaborators.dfy` (`Collaborators`): the collaborators whose code is outside the model, given by their contracts only.
  - `NodeScheduler.selectNodes` and `RandomNodeSelection.pickNodes` are methods. Each picks an arbitrary draw that the contract allows, so everything proved about a caller holds for any sampler, random or not.
  - `SimpleNodeSelector.chooseLeastBusyNode` is a function-typed parameter, `LeastBusyChooser`. Where a result depends on it, it is stated for every chooser that answers only with one of the candidates it is offered.
- `selector.dfy` (`TtlNodeSelector`): the class `SimpleTtlNodeSelector`.
  - Its fields are the configuration and the node-map source, which `lockDownNodes` overwrites.
  - Its methods are `selectRandomNodes`, `getEligibleNodes` and `computeAssignments`.
  - The per-split loop of `computeAssignments` is the method `PlaceSplits`. Each turn of it is `PlaceNextSplit`.
  - The loop is specified by the function `Placements`. It places the splits in order, each on its own draw of candidates, against the accounting of everything placed before it.

How the model represents the source:

- Time is whole milliseconds.
  - `SECONDS.between` truncates toward zero.
  - `Duration.compareTo` compares milliseconds.
  - The clock reading `now` and the query's elapsed execution time are parameters.
- A call that hands work to `SimpleNodeSelector` returns a `Delegated…` outcome carrying exactly the arguments it would pass on.
- A `PrestoException` becomes a `…Failed` outcome carrying the error kind.
- The split-queue-space future of a placement becomes the boolean `blocked`.
- The random draws are returned as ghost results, so contracts can name them. This covers the placement pool of `ComputeAssignments` and each split's candidates (`picks`).

## Model

Source paths are relative to the repository root. The one source file is `presto-main/src/main/java/com/facebook/presto/execution/scheduler/nodeSelection/SimpleTtlNodeSelector.java`.

| member | source | states |
|---|---|---|
| Ttl.IsTtlEnough | presto-main/src/main/java/com/facebook/presto/execution/scheduler/nodeSelection/SimpleTtlNodeSelector.java:259-264 | An estimate passes only if nothing remains to run or its expiry is at least the remaining time after now. It always passes when the expiry is that far away plus a further 999 ms. |
| Ttl.SecondsBetweenMonotone | presto-main/src/main/java/com/facebook/presto/execution/scheduler/nodeSelection/SimpleTtlNodeSelector.java:262 | The truncated whole-second distance to an instant never decreases when that instant moves later. |
| Ttl.TtlEnoughMonotoneInExpiry | presto-main/src/main/java/com/facebook/presto/execution/scheduler/nodeSelection/SimpleTtlNodeSelector.java:259-264 | For a fixed remaining time and clock reading, an estimate that expires later passes `isTtlEnough` whenever an earlier-expiring one does. |
| Ttl.TtlEnoughInWholeSeconds | presto-main/src/main/java/com/facebook/presto/execution/scheduler/nodeSelection/SimpleTtlNodeSelector.java:259-264 | `isTtlEnough` holds iff one of two things is true. Either nothing remains to run, or the expiry is at least the remaining time, rounded up to whole seconds, after now. A part-second before expiry never counts, and an expired estimate only fits zero remaining time. |
| Ttl.EstimatedExecutionTimeRemaining | presto-main/src/main/java/com/facebook/presto/execution/scheduler/nodeSelection/SimpleTtlNodeSelector.java:266-272 | The remaining time is never negative and is at least total minus elapsed. It equals either 0 or total minus elapsed, so it is max(total − elapsed, 0). |
| Ttl.EarliestExpiry | presto-main/src/main/java/com/facebook/presto/execution/scheduler/nodeSelection/SimpleTtlNodeSelector.java:149-156 | The min-by-expiry reduction is empty iff the node has no estimates. Otherwise it is one of the node's estimates, and it expires no later than any of them. |
| Ttl.EarliestExpiryDecidesTtl | presto-main/src/main/java/com/facebook/presto/execution/scheduler/nodeSelection/SimpleTtlNodeSelector.java:149-156 | The reduced estimate passes the TTL test iff every estimate of the node passes it. |
| Eligibility.ReduceTtls | presto-main/src/main/java/com/facebook/presto/execution/scheduler/nodeSelection/SimpleTtlNodeSelector.java:277-284 | The per-node reduction keeps exactly the reporting nodes. A node maps to empty iff its estimate set is empty. Otherwise it maps to one of its estimates with the smallest expiry instant. |
| Eligibility.ReducedTtlIsWorstCase | presto-main/src/main/java/com/facebook/presto/execution/scheduler/nodeSelection/SimpleTtlNodeSelector.java:316-320 | After reduction, a node has a present TTL that is enough iff three things hold: it reported, its estimate set is non-empty, and every estimate is enough. A node with an empty set is never kept. |
| Eligibility.FilterNodesByTtl | presto-main/src/main/java/com/facebook/presto/execution/scheduler/nodeSelection/SimpleTtlNodeSelector.java:309-322 | The filter returns a subsequence of its input, in the same order, with no repeats when the input has none. Every kept node passes all five tests: it has a TTL entry, it passes the coordinator rule, it is not excluded, its entry is present, and its TTL is enough. No input node that passes them is dropped. |
| Eligibility.FilterNodesByTtlAppend | presto-main/src/main/java/com/facebook/presto/execution/scheduler/nodeSelection/SimpleTtlNodeSelector.java:315-321 | The filter reads its input left to right. One more node at the end adds that node, once, when it passes the five tests, and nothing otherwise. So order and multiplicity are kept exactly. |
| Eligibility.FilterNodesByTtlIdempotent | presto-main/src/main/java/com/facebook/presto/execution/scheduler/nodeSelection/SimpleTtlNodeSelector.java:315-321 | Filtering the filter's output again changes nothing. |
| Eligibility.FilterNodesByTtlKeepsAllEligible | presto-main/src/main/java/com/facebook/presto/execution/scheduler/nodeSelection/SimpleTtlNodeSelector.java:315-321 | A list whose every node passes the five tests comes back unchanged. |
| Eligibility.ExistingEligibleNodes | presto-main/src/main/java/com/facebook/presto/execution/scheduler/nodeSelection/SimpleTtlNodeSelector.java:288-295 | Existing tasks are mapped to their nodes through the active-by-id map, and a missing id is dropped rather than raising an error. The result has no more nodes than there are tasks. Every node in it is active and has enough TTL, and comes from some task. Every task whose node resolves and has enough TTL contributes that node. |
| Eligibility.ExistingEligibleNodesAppend | presto-main/src/main/java/com/facebook/presto/execution/scheduler/nodeSelection/SimpleTtlNodeSelector.java:288-295 | Tasks are read in order, and each contributes one entry: one more task at the end adds its node when the node resolves and has enough TTL, and nothing otherwise. Two tasks on the same node give that node twice, as the source's list does. |
| Eligibility.PoolSourcesQualify | presto-main/src/main/java/com/facebook/presto/execution/scheduler/nodeSelection/SimpleTtlNodeSelector.java:288-299 | Both sources of a stage's pool qualify: every node of the existing tasks, and every active node the TTL filter keeps, is in the snapshot and has enough TTL. |
| Cluster.AssignmentStats.AddAssignedSplit | presto-main/src/main/java/com/facebook/presto/execution/scheduler/nodeSelection/SimpleTtlNodeSelector.java:239 | Recording a split grows the chosen node's assigned weight, and both of its load measures, by exactly the split's weight. Every other node is unchanged. |
| Cluster.StatsAfter | presto-main/src/main/java/com/facebook/presto/execution/scheduler/nodeSelection/SimpleTtlNodeSelector.java:189 | The accounting after no assignments is the accounting the call began with. |
| Cluster.StatsAfterAddsPlacedWeight | presto-main/src/main/java/com/facebook/presto/execution/scheduler/nodeSelection/SimpleTtlNodeSelector.java:237-239 | After a list of assignments, each node's assigned weight, and each of its load measures, is what it was at the start plus the weight of the splits the list sends to that node. |
| Cluster.StatsAfterAppend | presto-main/src/main/java/com/facebook/presto/execution/scheduler/nodeSelection/SimpleTtlNodeSelector.java:238-239 | Putting one more assignment in the result is recorded by exactly one `addAssignedSplit` of its node and weight. |
| Collaborators.SelectNodes | presto-main/src/main/java/com/facebook/presto/execution/scheduler/nodeSelection/SimpleTtlNodeSelector.java:163 | The random draw takes `min(limit, number of candidates)` entries from the candidates, none more often than it occurs there, and none when `limit` is not positive. |
| Collaborators.DrawFacts | presto-main/src/main/java/com/facebook/presto/execution/scheduler/nodeSelection/SimpleTtlNodeSelector.java:163 | A draw holds only candidates and no more than `limit` of them. It has no repeats when the candidates have none. It is non-empty whenever `limit` is positive and there is a candidate. |
| Collaborators.DrawAfterPrefix | presto-main/src/main/java/com/facebook/presto/execution/scheduler/nodeSelection/SimpleTtlNodeSelector.java:302-303 | Appending a draw to a list keeps the list as the prefix and the draw as the tail, and adds only candidates. |
| Collaborators.PickNodes | presto-main/src/main/java/com/facebook/presto/execution/scheduler/nodeSelection/SimpleTtlNodeSelector.java:204 | A split's candidates are a draw of at most `minCandidates` nodes from the eligible pool. |
| Collaborators.AllDrawsAppend | presto-main/src/main/java/com/facebook/presto/execution/scheduler/nodeSelection/SimpleTtlNodeSelector.java:204 | One more split's draw from the same pool keeps every draw so far a draw from that pool. |
| TtlNodeSelector.SimpleTtlNodeSelector.constructor | presto-main/src/main/java/com/facebook/presto/execution/scheduler/nodeSelection/SimpleTtlNodeSelector.java:88-117 | Construction requires a session estimate or permission to use the default. The estimate is the session's when present and the default otherwise. The configuration is stored, and the node map starts live. |
| TtlNodeSelector.SimpleTtlNodeSelector.CurrentNodeMap | presto-main/src/main/java/com/facebook/presto/execution/scheduler/nodeSelection/SimpleTtlNodeSelector.java:158 | The snapshot a call works on, read here and again at line 188, is the live membership until lockdown and the frozen snapshot after it. |
| TtlNodeSelector.SimpleTtlNodeSelector.LockDownNodes | presto-main/src/main/java/com/facebook/presto/execution/scheduler/nodeSelection/SimpleTtlNodeSelector.java:119-124 | The snapshot read at lockdown is frozen, and every later read returns it whatever live membership reports. Lockdown is passed on to the TTL-agnostic selector. |
| TtlNodeSelector.SimpleTtlNodeSelector.SelectRandomNodes | presto-main/src/main/java/com/facebook/presto/execution/scheduler/nodeSelection/SimpleTtlNodeSelector.java:145-176 | The result is a selection iff `limit` is positive and the TTL filter keeps some node. A selection is a draw from the filter's output: at most `limit` distinct nodes, each active, not excluded, passing the coordinator rule and with enough TTL. Otherwise the request is delegated unchanged when fallback is on, or fails with NO_NODES_AVAILABLE when it is off. |
| TtlNodeSelector.SimpleTtlNodeSelector.PlacementPoolTail | presto-main/src/main/java/com/facebook/presto/execution/scheduler/nodeSelection/SimpleTtlNodeSelector.java:297-304 | The nodes a pool adds after the existing ones bring it to at most `limit`. They are distinct and active, pass the coordinator rule, and are not among the existing ones. |
| TtlNodeSelector.SimpleTtlNodeSelector.PoolOfDraw | presto-main/src/main/java/com/facebook/presto/execution/scheduler/nodeSelection/SimpleTtlNodeSelector.java:301-304 | With room under `limit`, the existing nodes followed by a draw of the missing count from the other qualifying nodes form the stage's pool. |
| TtlNodeSelector.SimpleTtlNodeSelector.PoolOfExisting | presto-main/src/main/java/com/facebook/presto/execution/scheduler/nodeSelection/SimpleTtlNodeSelector.java:297-306 | With no room under `limit`, or no other qualifying node, the existing nodes alone form the stage's pool. |
| TtlNodeSelector.SimpleTtlNodeSelector.GetEligibleNodes | presto-main/src/main/java/com/facebook/presto/execution/scheduler/nodeSelection/SimpleTtlNodeSelector.java:274-307 | The pool starts with exactly the existing tasks' eligible nodes, in task order. If they already number at least `limit`, nothing is added. Otherwise the rest is a draw of the missing count from the TTL filter over the active nodes, with the existing ones excluded. Nodes are added whenever some such node exists. Every node in the pool is in the snapshot and has enough TTL. |
| TtlNodeSelector.SimpleTtlNodeSelector.ChooseNodeForSplit | presto-main/src/main/java/com/facebook/presto/execution/scheduler/nodeSelection/SimpleTtlNodeSelector.java:216-227 | The chooser is asked first with total weight against `maxSplitsWeightPerNode`. Its answer stands when it finds a node. Only when it finds none is the answer for queued stage weight against `maxPendingSplitsWeightPerTask` taken. |
| TtlNodeSelector.SimpleTtlNodeSelector.SecondPassOnlyAfterFirstFails | presto-main/src/main/java/com/facebook/presto/execution/scheduler/nodeSelection/SimpleTtlNodeSelector.java:224-227 | Two choosers that agree on the first pass, and find a node in it, make the same choice whatever they would answer in the second. |
| TtlNodeSelector.SimpleTtlNodeSelector.PlaceOne | presto-main/src/main/java/com/facebook/presto/execution/scheduler/nodeSelection/SimpleTtlNodeSelector.java:229-243 | A split adds an entry iff the two-pass choice finds a node, and then one entry only. The entry puts the same connector split on the chosen node, with the chosen node's cacheable flag as its context. |
| TtlNodeSelector.SimpleTtlNodeSelector.ChosenNodeIsACandidate | presto-main/src/main/java/com/facebook/presto/execution/scheduler/nodeSelection/SimpleTtlNodeSelector.java:217-237 | With a chooser that answers only with candidates, a split is placed only on one of its own candidates. |
| TtlNodeSelector.SimpleTtlNodeSelector.Placements | presto-main/src/main/java/com/facebook/presto/execution/scheduler/nodeSelection/SimpleTtlNodeSelector.java:197-244 | The loop's result for a batch and its draws has at most one entry per split. |
| TtlNodeSelector.SimpleTtlNodeSelector.PlacementsStep | presto-main/src/main/java/com/facebook/presto/execution/scheduler/nodeSelection/SimpleTtlNodeSelector.java:197-244 | The placements of the first `i` splits, plus what split `i` adds against their accounting, are the placements of the first `i + 1`. |
| TtlNodeSelector.SimpleTtlNodeSelector.PlacementsKeepOrder | presto-main/src/main/java/com/facebook/presto/execution/scheduler/nodeSelection/SimpleTtlNodeSelector.java:229-238 | The placed splits are the batch's splits in batch order, with unplaced ones skipped. |
| TtlNodeSelector.SimpleTtlNodeSelector.PlacementsStayInPool | presto-main/src/main/java/com/facebook/presto/execution/scheduler/nodeSelection/SimpleTtlNodeSelector.java:204-238 | When every draw comes from the pool and the chooser answers only with candidates, every placed split goes to a node of the pool. |
| TtlNodeSelector.SimpleTtlNodeSelector.AssignChosenNode | presto-main/src/main/java/com/facebook/presto/execution/scheduler/nodeSelection/SimpleTtlNodeSelector.java:216-243 | Placing one split appends what `PlaceOne` adds for the running accounting, and leaves the accounting equal to that of the new result. `placed` is true iff an entry was added, and otherwise the result is unchanged. |
| TtlNodeSelector.SimpleTtlNodeSelector.DrawCandidates | presto-main/src/main/java/com/facebook/presto/execution/scheduler/nodeSelection/SimpleTtlNodeSelector.java:204-205 | A split's candidates are one more draw from the pool. They are empty iff `minCandidates` is not positive or the pool is empty. |
| TtlNodeSelector.SimpleTtlNodeSelector.PlacedSoFarStep | presto-main/src/main/java/com/facebook/presto/execution/scheduler/nodeSelection/SimpleTtlNodeSelector.java:197-244 | Placing split `i` on a non-empty draw keeps the loop's invariant for `i + 1`. The result and accounting are those of `Placements`, and the waiting flag is set iff some split so far went unplaced. |
| TtlNodeSelector.SimpleTtlNodeSelector.PlaceNextSplit | presto-main/src/main/java/com/facebook/presto/execution/scheduler/nodeSelection/SimpleTtlNodeSelector.java:204-243 | A turn draws candidates, and the draw is empty iff `minCandidates` is not positive or the pool is empty. When it is not empty, the loop's invariant moves on by one split. |
| TtlNodeSelector.SimpleTtlNodeSelector.PlaceSplits | presto-main/src/main/java/com/facebook/presto/execution/scheduler/nodeSelection/SimpleTtlNodeSelector.java:194-249 | The batch is placed iff it is empty or a draw can be non-empty. Otherwise the whole original batch is delegated when fallback is on, and the call fails with NO_NODES_AVAILABLE when it is off. A placement is `Placements` of the batch on its draws from the pool. It is blocked iff some split went unplaced, and its accounting is that of the result. |
| TtlNodeSelector.SimpleTtlNodeSelector.ComputeAssignments | presto-main/src/main/java/com/facebook/presto/execution/scheduler/nodeSelection/SimpleTtlNodeSelector.java:179-250 | A batch with a split that is not NO_PREFERENCE is delegated whole and unchanged. Otherwise the pool is the stage's pool for `maxTasksPerStage`, and the batch is placed iff it is empty or `minCandidates` is positive and the pool is non-empty. Without placement the call delegates when fallback is on and fails with NO_NODES_AVAILABLE when it is off. A placement is `Placements` of the batch on draws from the pool, keeps batch order, and is blocked iff some split went unplaced. It uses only pool nodes that are in the snapshot and have enough TTL. Each node's accounting grows by exactly the weight placed on it. |

## Left out

- Logging and exception message text. An error is a result variant carrying only its kind.
- The `AtomicReference`/`Supplier` holder of the node map, which exists for concurrent use. Lockdown is modelled as a field that freezes the snapshot; concurrent callers are not modelled.
- `ListenableFuture`, `toWhenHasSplitQueueSpaceFuture` and `calculateLowWatermark`. The placement's future is the boolean `blocked`, true when the source would return the split-queue-space future.
- `Instant.now()` is read by the source once per `isTtlEnough` call. The model reads the clock once per operation, as the parameter `nowMs`.
- Floating-point `Duration` and `double` arithmetic, and sub-millisecond precision. All times are whole milliseconds.
- `NodeTtlFetcherManager.getAllTtls`. Its result is the parameter `ttls`.
- `QueryManager`: the query's elapsed execution time is the parameter `elapsedMs`.
- `NodeTaskMap`. The load that `NodeAssignmentStats` starts from is the parameter `initialStats`.
- The internals of `SimpleNodeSelector`, `ResettableRandomizedIterator`, `RandomNodeSelection` and `NodeScheduler.selectNodes`. They are specified by contract only.
- Randomness, and whether a draw is uniform.
- TtlNodeSelector.SimpleTtlNodeSelector.ComputeAssignments: the least-busy chooser is constrained only to answer with one of the candidates it is offered. The per-node weight ceilings are enforced inside `chooseLeastBusyNode`, whose code is not part of this model.
- The active-node list of a snapshot is required to have no repeats (the `NodeMap` type). This is the only source of the distinctness of the draws.
- The bucketed `computeAssignments` overload, `getActiveNodes`, `getAllNodes` and `selectCurrentNode` (lines 127-142 and 253-256). They only delegate to `SimpleNodeSelector`.
- Delegated calls to `SimpleNodeSelector` are recorded with their arguments, not carried out.
- The rebuilt `Split` keeps its connector split and attaches the chosen node's cacheable flag as its context. Connector id, transaction handle and lifespan are not modelled.
- The `preferredNodeCount` passed to `chooseLeastBusyNode` is always empty in the source. It is not modelled.
- The `Set<Split>` batch is modelled as the sequence of its iteration order.
- The result multimap is modelled as the list of (node, split) pairs in insertion order.
- The in-loop NODE_SELECTION_NOT_SUPPORTED throw (lines 198-202) is not an outcome. The batch-wide check at lines 181-185 makes it unreachable, and the model proves that branch dead.
- The final `verify` that the pool holds no nulls (line 305). Nodes in the model cannot be null.
- TtlNodeSelector.SimpleTtlNodeSelector.ComputeAssignments: the accounting it ends with is a ghost result, since the source discards it.
- The draws a call makes, and the pool, are ghost results. The source does not return them.
