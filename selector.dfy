/**
 * The TTL-aware node selector: it keeps only nodes predicted to outlive the
 * query's remaining execution time, places splits on them, and hands the
 * whole request to the TTL-agnostic selector when a strategy is unsupported
 * or, if so configured, when no node qualifies.
 *
 * Results are tagged: a call either produces its own answer, records that
 * it delegated (with exactly the arguments it delegated), or fails with an
 * error kind.
 */
module TtlNodeSelector {
  import opened Common
  import opened Ttl
  import opened Cluster
  import opened Eligibility
  import opened Collaborators

  datatype ErrorKind = NoNodesAvailable | NodeSelectionNotSupported

  datatype SelectionOutcome =
    | Selected(nodes: seq<Node>)
    | DelegatedSelection(limit: int, excludedNodes: set<Node>)
    | SelectionFailed(error: ErrorKind)

  /**
   * A placement: the (node, split) pairs and whether some split was left
   * waiting for a node (the future is pending) or not (it is already done).
   */
  datatype PlacementOutcome =
    | Placed(assignments: seq<Assignment>, blocked: bool)
    | DelegatedPlacement(splits: seq<Split>, existingTasks: seq<RemoteTask>)
    | PlacementFailed(error: ErrorKind)

  /** Where the node snapshot comes from: live membership, or a snapshot frozen by lockdown. */
  datatype NodeMapSource = LiveMembership | LockedDown(snapshot: NodeMap)

  class SimpleTtlNodeSelector {
    const minCandidates: int
    const includeCoordinator: bool
    const maxSplitsWeightPerNode: int
    const maxPendingSplitsWeightPerTask: int
    const maxTasksPerStage: int
    /** The query's estimated total execution time, in milliseconds. */
    const estimatedExecutionTimeMs: int
    const fallbackToSimpleNodeSelection: bool

    var nodeMapSource: NodeMapSource
    /** Whether lockdown has been passed on to the TTL-agnostic selector. */
    var simpleSelectorLockedDown: bool

    /**
     * The estimate is the session's own when present, else the configured
     * default; the caller must supply one or allow the default.
     */
    constructor (sessionEstimateMs: Option<int>, useDefaultExecutionTimeEstimateAsFallback: bool,
                 defaultExecutionTimeEstimateMs: int, fallbackToSimpleNodeSelection: bool,
                 minCandidates: int, includeCoordinator: bool, maxSplitsWeightPerNode: int,
                 maxPendingSplitsWeightPerTask: int, maxTasksPerStage: int)
      requires sessionEstimateMs.Some? || useDefaultExecutionTimeEstimateAsFallback
      ensures estimatedExecutionTimeMs ==
        (if sessionEstimateMs.Some? then sessionEstimateMs.value else defaultExecutionTimeEstimateMs)
      ensures this.fallbackToSimpleNodeSelection == fallbackToSimpleNodeSelection
      ensures this.minCandidates == minCandidates && this.includeCoordinator == includeCoordinator
      ensures this.maxSplitsWeightPerNode == maxSplitsWeightPerNode
      ensures this.maxPendingSplitsWeightPerTask == maxPendingSplitsWeightPerTask
      ensures this.maxTasksPerStage == maxTasksPerStage
      ensures nodeMapSource == LiveMembership && !simpleSelectorLockedDown
    {
      this.minCandidates := minCandidates;
      this.includeCoordinator := includeCoordinator;
      this.maxSplitsWeightPerNode := maxSplitsWeightPerNode;
      this.maxPendingSplitsWeightPerTask := maxPendingSplitsWeightPerTask;
      this.maxTasksPerStage := maxTasksPerStage;
      this.estimatedExecutionTimeMs :=
        if sessionEstimateMs.Some? then sessionEstimateMs.value else defaultExecutionTimeEstimateMs;
      this.fallbackToSimpleNodeSelection := fallbackToSimpleNodeSelection;
      nodeMapSource := LiveMembership;
      simpleSelectorLockedDown := false;
    }

    /**
     * The snapshot a call works on: what live membership reports until
     * lockdown, the frozen snapshot after it.
     */
    function CurrentNodeMap(live: NodeMap): (nodeMap: NodeMap)
      reads this
      ensures nodeMapSource.LiveMembership? ==> nodeMap == live
      ensures nodeMapSource.LockedDown? ==> nodeMap == nodeMapSource.snapshot
    {
      match nodeMapSource
      case LiveMembership => live
      case LockedDown(snapshot) => snapshot
    }

    /**
     * Freeze the snapshot read now: every later read sees it whatever live
     * membership reports, and a second lockdown keeps it. Lockdown is passed
     * on to the TTL-agnostic selector.
     */
    method LockDownNodes(live: NodeMap)
      modifies this
      ensures nodeMapSource == LockedDown(old(CurrentNodeMap(live)))
      ensures forall later :: CurrentNodeMap(later) == old(CurrentNodeMap(live))
      ensures simpleSelectorLockedDown
    {
      nodeMapSource := LockedDown(CurrentNodeMap(live));
      simpleSelectorLockedDown := true;
    }

    /**
     * A random draw of up to `limit` of the nodes that are active, not
     * excluded, not the coordinator unless allowed, and predicted to outlive
     * the query. A draw yields nodes exactly when `limit` is positive and
     * some node qualifies; otherwise the request is delegated (fallback on)
     * or fails.
     */
    method SelectRandomNodes(limit: int, excludedNodes: set<Node>, ttls: map<Node, seq<TtlInfo>>,
                             nowMs: int, elapsedMs: int, live: NodeMap) returns (r: SelectionOutcome)
      ensures var qualifying := FilterNodesByTtl(CurrentNodeMap(live).activeNodes, excludedNodes, ReduceTtls(ttls),
                                                 EstimatedExecutionTimeRemaining(estimatedExecutionTimeMs, elapsedMs),
                                                 nowMs, includeCoordinator);
        && (r.Selected? <==> limit > 0 && qualifying != [])
        && (r.Selected? ==> IsDraw(r.nodes, limit, qualifying))
      ensures r.Selected? ==> 0 < |r.nodes| <= limit && Distinct(r.nodes)
      ensures r.Selected? ==> forall n :: n in r.nodes ==>
        && n in CurrentNodeMap(live).activeNodes
        && n !in excludedNodes
        && (includeCoordinator || !n.coordinator)
        && HasEnoughTtl(n, ReduceTtls(ttls), EstimatedExecutionTimeRemaining(estimatedExecutionTimeMs, elapsedMs), nowMs)
      ensures r.DelegatedSelection? ==> fallbackToSimpleNodeSelection && r == DelegatedSelection(limit, excludedNodes)
      ensures r.SelectionFailed? ==> !fallbackToSimpleNodeSelection && r.error == NoNodesAvailable
    {
      var ttlInfo := ReduceTtls(ttls);
      var nodeMap := CurrentNodeMap(live);
      var activeNodes := nodeMap.activeNodes;
      var remaining := EstimatedExecutionTimeRemaining(estimatedExecutionTimeMs, elapsedMs);
      var eligibleNodes := FilterNodesByTtl(activeNodes, excludedNodes, ttlInfo, remaining, nowMs, includeCoordinator);
      SubsequenceMembers(eligibleNodes, activeNodes);
      var selectedNodes := SelectNodes(limit, eligibleNodes);
      DrawFacts(selectedNodes, limit, eligibleNodes);
      if |selectedNodes| == 0 {
        if fallbackToSimpleNodeSelection {
          return DelegatedSelection(limit, excludedNodes);
        }
        return SelectionFailed(NoNodesAvailable);
      }
      return Selected(selectedNodes);
    }

    /**
     * What the placement pool for a stage is: first exactly the nodes of the
     * existing tasks that are still active and have enough TTL, in task
     * order; then, only when those number fewer than `limit`, a random draw
     * of up to the missing count from the other TTL-eligible active nodes.
     */
    ghost predicate IsPlacementPool(eligible: seq<Node>, limit: int, nodeMap: NodeMap, existingTasks: seq<RemoteTask>,
                                    ttls: map<Node, seq<TtlInfo>>, nowMs: int, elapsedMs: int)
    {
      var ttlInfo := ReduceTtls(ttls);
      var remaining := EstimatedExecutionTimeRemaining(estimatedExecutionTimeMs, elapsedMs);
      var existing := ExistingEligibleNodes(existingTasks, nodeMap.activeNodesByNodeId, ttlInfo, remaining, nowMs);
      var others := FilterNodesByTtl(nodeMap.activeNodes, Elements(existing), ttlInfo, remaining, nowMs, includeCoordinator);
      && |existing| <= |eligible|
      && eligible[..|existing|] == existing
      && (|existing| >= limit ==> eligible == existing)
      && (|existing| < limit ==> IsDraw(eligible[|existing|..], limit - |existing|, others))
      && AllQualify(eligible, nodeMap, ttlInfo, remaining, nowMs)
    }

    /**
     * The nodes a placement pool adds after the existing ones: no more than
     * `limit` in all, none twice, each an active node that is not among the
     * existing ones and is the coordinator only when that is allowed.
     */
    lemma PlacementPoolTail(eligible: seq<Node>, limit: int, nodeMap: NodeMap, existingTasks: seq<RemoteTask>,
                            ttls: map<Node, seq<TtlInfo>>, nowMs: int, elapsedMs: int, existing: seq<Node>)
      requires existing == ExistingEligibleNodes(existingTasks, nodeMap.activeNodesByNodeId, ReduceTtls(ttls),
                                                 EstimatedExecutionTimeRemaining(estimatedExecutionTimeMs, elapsedMs), nowMs)
      requires IsPlacementPool(eligible, limit, nodeMap, existingTasks, ttls, nowMs, elapsedMs)
      ensures |eligible| > |existing| ==> |eligible| <= limit
      ensures Distinct(eligible[|existing|..])
      ensures forall n :: n in eligible[|existing|..] ==>
        && n in nodeMap.activeNodes
        && n !in existing
        && (includeCoordinator || !n.coordinator)
    {
      var others := FilterNodesByTtl(nodeMap.activeNodes, Elements(existing), ReduceTtls(ttls),
                                     EstimatedExecutionTimeRemaining(estimatedExecutionTimeMs, elapsedMs), nowMs,
                                     includeCoordinator);
      if |existing| < limit {
        SubsequenceMembers(others, nodeMap.activeNodes);
        DrawFacts(eligible[|existing|..], limit - |existing|, others);
      } else {
        assert eligible[|existing|..] == [];
      }
    }

    /**
     * When the existing nodes leave room under `limit` and some other node
     * qualifies, the existing nodes followed by a draw from the qualifying
     * others form a placement pool.
     */
    lemma PoolOfDraw(limit: int, nodeMap: NodeMap, existingTasks: seq<RemoteTask>, ttls: map<Node, seq<TtlInfo>>,
                     nowMs: int, elapsedMs: int, existing: seq<Node>, others: seq<Node>, moreNodes: seq<Node>)
      requires existing == ExistingEligibleNodes(existingTasks, nodeMap.activeNodesByNodeId, ReduceTtls(ttls),
                                                 EstimatedExecutionTimeRemaining(estimatedExecutionTimeMs, elapsedMs), nowMs)
      requires others == FilterNodesByTtl(nodeMap.activeNodes, Elements(existing), ReduceTtls(ttls),
                                          EstimatedExecutionTimeRemaining(estimatedExecutionTimeMs, elapsedMs), nowMs,
                                          includeCoordinator)
      requires |existing| < limit
      requires IsDraw(moreNodes, limit - |existing|, others)
      ensures IsPlacementPool(existing + moreNodes, limit, nodeMap, existingTasks, ttls, nowMs, elapsedMs)
    {
      var ttlInfo := ReduceTtls(ttls);
      var remaining := EstimatedExecutionTimeRemaining(estimatedExecutionTimeMs, elapsedMs);
      PoolSourcesQualify(existingTasks, nodeMap, ttlInfo, remaining, nowMs, includeCoordinator, existing, others);
      DrawAfterPrefix(existing, moreNodes, limit - |existing|, others);
    }

    /**
     * When the existing nodes reach `limit` or no other node qualifies, the
     * existing nodes alone form a placement pool.
     */
    lemma PoolOfExisting(limit: int, nodeMap: NodeMap, existingTasks: seq<RemoteTask>, ttls: map<Node, seq<TtlInfo>>,
                         nowMs: int, elapsedMs: int, existing: seq<Node>, others: seq<Node>)
      requires existing == ExistingEligibleNodes(existingTasks, nodeMap.activeNodesByNodeId, ReduceTtls(ttls),
                                                 EstimatedExecutionTimeRemaining(estimatedExecutionTimeMs, elapsedMs), nowMs)
      requires others == FilterNodesByTtl(nodeMap.activeNodes, Elements(existing), ReduceTtls(ttls),
                                          EstimatedExecutionTimeRemaining(estimatedExecutionTimeMs, elapsedMs), nowMs,
                                          includeCoordinator)
      requires |existing| >= limit || others == []
      ensures IsPlacementPool(existing, limit, nodeMap, existingTasks, ttls, nowMs, elapsedMs)
    {
      assert existing[|existing|..] == [];
    }

    /** The placement pool of a stage, built as IsPlacementPool describes. */
    method GetEligibleNodes(limit: int, nodeMap: NodeMap, existingTasks: seq<RemoteTask>,
                            ttls: map<Node, seq<TtlInfo>>, nowMs: int, elapsedMs: int) returns (eligible: seq<Node>)
      ensures IsPlacementPool(eligible, limit, nodeMap, existingTasks, ttls, nowMs, elapsedMs)
    {
      var ttlInfo := ReduceTtls(ttls);
      var remaining := EstimatedExecutionTimeRemaining(estimatedExecutionTimeMs, elapsedMs);
      eligible := ExistingEligibleNodes(existingTasks, nodeMap.activeNodesByNodeId, ttlInfo, remaining, nowMs);
      var alreadySelectedNodeCount := |eligible|;
      var existingNodeSet := Elements(eligible);
      var newEligibleNodes := FilterNodesByTtl(nodeMap.activeNodes, existingNodeSet, ttlInfo, remaining, nowMs, includeCoordinator);
      if alreadySelectedNodeCount < limit && |newEligibleNodes| > 0 {
        var moreNodes := SelectNodes(limit - alreadySelectedNodeCount, newEligibleNodes);
        PoolOfDraw(limit, nodeMap, existingTasks, ttls, nowMs, elapsedMs, eligible, newEligibleNodes, moreNodes);
        eligible := eligible + moreNodes;
      } else {
        PoolOfExisting(limit, nodeMap, existingTasks, ttls, nowMs, elapsedMs, eligible, newEligibleNodes);
      }
    }

    /**
     * One split's two-pass choice among its candidates: first by total load
     * against the per-node ceiling, and only when that yields no node, by
     * the stage's queued load against the per-task ceiling.
     */
    function ChooseNodeForSplit(choose: LeastBusyChooser, split: Split, candidateNodes: seq<Node>,
                                stats: AssignmentStats): (chosen: Option<InternalNodeInfo>)
      ensures var firstPass := choose(split.Weight(), candidateNodes, TotalSplitsWeight, maxSplitsWeightPerNode, stats);
        && (firstPass.Some? ==> chosen == firstPass)
        && (firstPass.None? ==>
              chosen == choose(split.Weight(), candidateNodes, QueuedSplitsWeightForStage,
                               maxPendingSplitsWeightPerTask, stats))
    {
      var firstPass := choose(split.Weight(), candidateNodes, TotalSplitsWeight, maxSplitsWeightPerNode, stats);
      if firstPass.Some? then firstPass
      else choose(split.Weight(), candidateNodes, QueuedSplitsWeightForStage, maxPendingSplitsWeightPerTask, stats)
    }

    /**
     * The queued-load pass never overrides a node found by the total-load
     * pass: two choosers that agree on that first pass, and find a node in
     * it, make the same choice whatever they would answer under the
     * per-task ceiling.
     */
    lemma SecondPassOnlyAfterFirstFails(choose: LeastBusyChooser, other: LeastBusyChooser, split: Split,
                                        candidateNodes: seq<Node>, stats: AssignmentStats)
      requires choose(split.Weight(), candidateNodes, TotalSplitsWeight, maxSplitsWeightPerNode, stats) ==
               other(split.Weight(), candidateNodes, TotalSplitsWeight, maxSplitsWeightPerNode, stats)
      requires choose(split.Weight(), candidateNodes, TotalSplitsWeight, maxSplitsWeightPerNode, stats).Some?
      ensures ChooseNodeForSplit(choose, split, candidateNodes, stats) == ChooseNodeForSplit(other, split, candidateNodes, stats)
    {
    }

    /**
     * What placing one split adds to the result, given its candidates and
     * the accounting so far: nothing when no candidate takes it, otherwise
     * the split, carrying the chosen node's cacheable flag, on that node.
     */
    function PlaceOne(choose: LeastBusyChooser, split: Split, candidateNodes: seq<Node>,
                      stats: AssignmentStats): (placed: seq<Assignment>)
      ensures |placed| <= 1
      ensures var chosen := ChooseNodeForSplit(choose, split, candidateNodes, stats);
        && (placed == [] <==> chosen.None?)
        && (placed != [] ==>
              && placed[0].node == chosen.value.internalNode
              && placed[0].split.context.cacheable == chosen.value.cacheable)
      ensures placed != [] ==> placed[0].split.connectorSplit == split.connectorSplit
    {
      match ChooseNodeForSplit(choose, split, candidateNodes, stats)
      case None => []
      case Some(info) => [Assignment(info.internalNode, Split(split.connectorSplit, SplitContext(info.cacheable)))]
    }

    /**
     * A chooser that answers only with candidates places a split only on
     * one of the candidates drawn for it.
     */
    lemma ChosenNodeIsACandidate(choose: LeastBusyChooser, split: Split, candidateNodes: seq<Node>,
                                 stats: AssignmentStats)
      requires ChoosesAmongCandidates(choose)
      ensures var placed := PlaceOne(choose, split, candidateNodes, stats);
        placed != [] ==> placed[0].node in candidateNodes
    {
    }

    /**
     * The assignments made for `splits`, whose candidate draws are `picks`,
     * in batch order: each split is placed against the accounting that
     * already holds every assignment made before it.
     */
    function Placements(choose: LeastBusyChooser, splits: seq<Split>, picks: seq<seq<Node>>,
                        initialStats: AssignmentStats): (assignments: seq<Assignment>)
      requires |picks| == |splits|
      ensures |assignments| <= |splits|
      decreases |splits|
    {
      if splits == [] then []
      else
        var n := |splits| - 1;
        var before := Placements(choose, splits[..n], picks[..n], initialStats);
        before + PlaceOne(choose, splits[n], picks[n], StatsAfter(initialStats, before))
    }

    /**
     * Placing the batch one split further: when `assignments` are the
     * placements of the first `i` splits and `assignmentStats` their
     * accounting, adding what split `i` adds on `candidateNodes` gives the
     * placements of the first `i + 1`.
     */
    lemma PlacementsStep(choose: LeastBusyChooser, splits: seq<Split>, i: int, picks: seq<seq<Node>>,
                         candidateNodes: seq<Node>, initialStats: AssignmentStats, assignments: seq<Assignment>,
                         assignmentStats: AssignmentStats, newAssignments: seq<Assignment>)
      requires 0 <= i < |splits| && |picks| == i
      requires assignments == Placements(choose, splits[..i], picks, initialStats)
      requires assignmentStats == StatsAfter(initialStats, assignments)
      requires newAssignments == assignments + PlaceOne(choose, splits[i], candidateNodes, assignmentStats)
      ensures newAssignments == Placements(choose, splits[..i + 1], picks + [candidateNodes], initialStats)
    {
      assert splits[..i + 1][..i] == splits[..i] && (picks + [candidateNodes])[..i] == picks;
    }

    /** The placed splits are splits of the batch, in batch order. */
    lemma {:induction false} PlacementsKeepOrder(choose: LeastBusyChooser, splits: seq<Split>, picks: seq<seq<Node>>,
                                                 initialStats: AssignmentStats)
      requires |picks| == |splits|
      ensures IsSubsequence(PlacedWork(Placements(choose, splits, picks, initialStats)), Works(splits))
      decreases |splits|
    {
      if splits != [] {
        var n := |splits| - 1;
        var before := Placements(choose, splits[..n], picks[..n], initialStats);
        var one := PlaceOne(choose, splits[n], picks[n], StatsAfter(initialStats, before));
        PlacementsKeepOrder(choose, splits[..n], picks[..n], initialStats);
        assert Works(splits) == Works(splits[..n]) + [splits[n].connectorSplit];
        SubsequenceExtend(PlacedWork(before), Works(splits[..n]), splits[n].connectorSplit);
        if one == [] {
          assert before + one == before;
        } else {
          assert PlacedWork(before + one) == PlacedWork(before) + [splits[n].connectorSplit];
        }
      }
    }

    /** Every split goes to one of its own candidates, so to a node of the list all the draws come from. */
    lemma {:induction false} PlacementsStayInPool(choose: LeastBusyChooser, splits: seq<Split>, picks: seq<seq<Node>>,
                                                  initialStats: AssignmentStats, limit: int, pool: seq<Node>)
      requires |picks| == |splits|
      requires ChoosesAmongCandidates(choose)
      requires AllDraws(picks, limit, pool)
      ensures forall a :: a in Placements(choose, splits, picks, initialStats) ==> a.node in pool
      decreases |splits|
    {
      if splits != [] {
        var n := |splits| - 1;
        var before := Placements(choose, splits[..n], picks[..n], initialStats);
        var one := PlaceOne(choose, splits[n], picks[n], StatsAfter(initialStats, before));
        PlacementsStayInPool(choose, splits[..n], picks[..n], initialStats, limit, pool);
        ChosenNodeIsACandidate(choose, splits[n], picks[n], StatsAfter(initialStats, before));
        DrawFacts(picks[n], limit, pool);
        assert forall a :: a in before + one ==> a in before || a in one;
      }
    }

    /**
     * Place one split that has candidates: choose its node in two passes
     * against the running accounting and, when a node is chosen, add the
     * split (carrying that node's cacheable flag) to the result and record
     * its weight on the node. `placed` tells whether a node was chosen.
     */
    method AssignChosenNode(choose: LeastBusyChooser, split: Split, candidateNodes: seq<Node>,
                      assignments: seq<Assignment>, assignmentStats: AssignmentStats, ghost initialStats: AssignmentStats)
      returns (newAssignments: seq<Assignment>, newStats: AssignmentStats, placed: bool)
      requires assignmentStats == StatsAfter(initialStats, assignments)
      ensures newAssignments == assignments + PlaceOne(choose, split, candidateNodes, assignmentStats)
      ensures newStats == StatsAfter(initialStats, newAssignments)
      ensures placed <==> |newAssignments| == |assignments| + 1
      ensures !placed <==> newAssignments == assignments
    {
      var chosenNodeInfo := ChooseNodeForSplit(choose, split, candidateNodes, assignmentStats);
      if chosenNodeInfo.Some? {
        var chosenNode := chosenNodeInfo.value.internalNode;
        var placedSplit := Split(split.connectorSplit, SplitContext(chosenNodeInfo.value.cacheable));
        var entry := Assignment(chosenNode, placedSplit);
        StatsAfterAppend(initialStats, assignments, entry);
        newAssignments := assignments + [entry];
        newStats := assignmentStats.AddAssignedSplit(chosenNode, split.Weight());
        placed := true;
      } else {
        newAssignments, newStats, placed := assignments, assignmentStats, false;
      }
    }

    /**
     * RandomNodeSelection.pickNodes for the next split of the loop: a fresh
     * draw from the pool, one more of the draws so far, which comes back
     * empty exactly when there is nothing to draw.
     */
    method DrawCandidates(eligibleNodes: seq<Node>, split: Split, ghost picks: seq<seq<Node>>)
      returns (candidateNodes: seq<Node>)
      requires AllDraws(picks, minCandidates, eligibleNodes)
      ensures AllDraws(picks + [candidateNodes], minCandidates, eligibleNodes)
      ensures candidateNodes == [] <==> minCandidates <= 0 || eligibleNodes == []
    {
      candidateNodes := PickNodes(eligibleNodes, minCandidates, split);
      DrawFacts(candidateNodes, minCandidates, eligibleNodes);
      AllDrawsAppend(picks, candidateNodes, minCandidates, eligibleNodes);
    }

    /**
     * Where the loop of PlaceSplits stands after its first `i` splits: each
     * of them had a non-empty draw from the pool, and the assignments, their
     * accounting and the waiting flag are those Placements gives for these
     * draws.
     */
    ghost predicate PlacedSoFar(choose: LeastBusyChooser, splits: seq<Split>, eligibleNodes: seq<Node>,
                                initialStats: AssignmentStats, i: int, picks: seq<seq<Node>>,
                                assignments: seq<Assignment>, assignmentStats: AssignmentStats, waiting: bool)
    {
      && 0 <= i <= |splits|
      && |picks| == i
      && AllDraws(picks, minCandidates, eligibleNodes)
      && (i > 0 ==> minCandidates > 0 && eligibleNodes != [])
      && assignments == Placements(choose, splits[..i], picks, initialStats)
      && assignmentStats == StatsAfter(initialStats, assignments)
      && (waiting <==> |assignments| < i)
    }

    /** Placing split `i` on one more non-empty draw moves PlacedSoFar on by one split. */
    lemma PlacedSoFarStep(choose: LeastBusyChooser, splits: seq<Split>, eligibleNodes: seq<Node>,
                          initialStats: AssignmentStats, i: int, picks: seq<seq<Node>>, assignments: seq<Assignment>,
                          assignmentStats: AssignmentStats, waiting: bool, candidateNodes: seq<Node>,
                          newAssignments: seq<Assignment>, newStats: AssignmentStats, placed: bool)
      requires i < |splits|
      requires PlacedSoFar(choose, splits, eligibleNodes, initialStats, i, picks, assignments, assignmentStats, waiting)
      requires AllDraws(picks + [candidateNodes], minCandidates, eligibleNodes)
      requires candidateNodes == [] <==> minCandidates <= 0 || eligibleNodes == []
      requires candidateNodes != []
      requires newAssignments == assignments + PlaceOne(choose, splits[i], candidateNodes, assignmentStats)
      requires newStats == StatsAfter(initialStats, newAssignments)
      requires placed <==> |newAssignments| == |assignments| + 1
      ensures PlacedSoFar(choose, splits, eligibleNodes, initialStats, i + 1, picks + [candidateNodes],
                          newAssignments, newStats, waiting || !placed)
    {
      PlacementsStep(choose, splits, i, picks, candidateNodes, initialStats, assignments, assignmentStats, newAssignments);
    }

    /**
     * One turn of the loop of PlaceSplits for split `i`: draw its candidates
     * and, when there are any, place it. `drawn` is false exactly when the
     * draw is empty, which abandons the batch; otherwise the loop has moved
     * on by one split.
     */
    method PlaceNextSplit(choose: LeastBusyChooser, splits: seq<Split>, eligibleNodes: seq<Node>, i: int,
                          assignments: seq<Assignment>, assignmentStats: AssignmentStats, waiting: bool,
                          ghost initialStats: AssignmentStats, ghost picks: seq<seq<Node>>)
      returns (drawn: bool, newAssignments: seq<Assignment>, newStats: AssignmentStats, newWaiting: bool,
               ghost newPicks: seq<seq<Node>>)
      requires i < |splits|
      requires PlacedSoFar(choose, splits, eligibleNodes, initialStats, i, picks, assignments, assignmentStats, waiting)
      ensures drawn <==> minCandidates > 0 && eligibleNodes != []
      ensures drawn ==>
        PlacedSoFar(choose, splits, eligibleNodes, initialStats, i + 1, newPicks, newAssignments, newStats, newWaiting)
    {
      var split := splits[i];
      var candidateNodes := DrawCandidates(eligibleNodes, split, picks);
      if |candidateNodes| == 0 {
        return false, assignments, assignmentStats, waiting, picks;
      }
      var placed;
      newAssignments, newStats, placed := AssignChosenNode(choose, split, candidateNodes, assignments, assignmentStats, initialStats);
      PlacedSoFarStep(choose, splits, eligibleNodes, initialStats, i, picks, assignments, assignmentStats, waiting,
                      candidateNodes, newAssignments, newStats, placed);
      newPicks := picks + [candidateNodes];
      newWaiting := waiting || !placed;
      drawn := true;
    }

    /**
     * The per-split loop over a batch that asks for no placement preference.
     * Each split, in order, gets a fresh candidate draw from `eligibleNodes`
     * and is placed as Placements describes, against the running accounting.
     * A split with no candidate abandons the batch (delegating all of it when
     * fallback is on, failing otherwise), which happens exactly when the
     * draws must come back empty; a split no candidate takes is left waiting
     * and the loop goes on. `picks` are the draws, `finalStats` the
     * accounting the loop ends with.
     */
    method PlaceSplits(choose: LeastBusyChooser, splits: seq<Split>, existingTasks: seq<RemoteTask>,
                       eligibleNodes: seq<Node>, initialStats: AssignmentStats)
      returns (r: PlacementOutcome, ghost picks: seq<seq<Node>>, ghost finalStats: AssignmentStats)
      requires AllNoPreference(splits)
      ensures r.Placed? <==> splits == [] || (minCandidates > 0 && eligibleNodes != [])
      ensures r.DelegatedPlacement? ==> r == DelegatedPlacement(splits, existingTasks) && fallbackToSimpleNodeSelection
      ensures r.PlacementFailed? ==> r.error == NoNodesAvailable && !fallbackToSimpleNodeSelection
      ensures r.Placed? ==> |picks| == |splits| && AllDraws(picks, minCandidates, eligibleNodes)
      ensures r.Placed? ==> r.assignments == Placements(choose, splits, picks, initialStats)
      ensures r.Placed? ==> (r.blocked <==> |r.assignments| < |splits|)
      ensures r.Placed? ==> finalStats == StatsAfter(initialStats, r.assignments)
    {
      var assignmentStats := initialStats;
      finalStats := initialStats;
      picks := [];
      var splitWaitingForAnyNode := false;
      var assignments: seq<Assignment> := [];
      var i := 0;
      while i < |splits|
        invariant PlacedSoFar(choose, splits, eligibleNodes, initialStats, i, picks, assignments, assignmentStats,
                              splitWaitingForAnyNode)
      {
        if splits[i].Strategy() != NoPreference {
          // The batch-wide check of the caller rules this out: the Java
          // selector's NODE_SELECTION_NOT_SUPPORTED throw here cannot be reached.
          assert false;
        }
        var drawn;
        drawn, assignments, assignmentStats, splitWaitingForAnyNode, picks :=
          PlaceNextSplit(choose, splits, eligibleNodes, i, assignments, assignmentStats, splitWaitingForAnyNode,
                         initialStats, picks);
        if !drawn {
          finalStats := assignmentStats;
          if fallbackToSimpleNodeSelection {
            return DelegatedPlacement(splits, existingTasks), picks, finalStats;
          }
          return PlacementFailed(NoNodesAvailable), picks, finalStats;
        }
        i := i + 1;
      }
      assert splits[..i] == splits;
      finalStats := assignmentStats;
      r := Placed(assignments, splitWaitingForAnyNode);
    }

    /**
     * Place a batch of splits. A batch with a split that asks for a placement
     * preference is delegated whole. Otherwise the pool is the stage's
     * placement pool for at most `maxTasksPerStage` nodes, and the splits are
     * placed on it as PlaceSplits describes; every node that receives work
     * is in the pool, so in the snapshot and predicted to outlive the query.
     * `pool` and `picks` are the pool and the draws made from it;
     * `finalStats` is the accounting the call ends with, which the Java
     * selector discards.
     */
    method ComputeAssignments(choose: LeastBusyChooser, splits: seq<Split>, existingTasks: seq<RemoteTask>,
                              ttls: map<Node, seq<TtlInfo>>, nowMs: int, elapsedMs: int, live: NodeMap,
                              initialStats: AssignmentStats)
      returns (r: PlacementOutcome, ghost pool: seq<Node>, ghost picks: seq<seq<Node>>, ghost finalStats: AssignmentStats)
      requires ChoosesAmongCandidates(choose)
      ensures !AllNoPreference(splits) ==> r == DelegatedPlacement(splits, existingTasks)
      ensures AllNoPreference(splits) ==>
        IsPlacementPool(pool, maxTasksPerStage, CurrentNodeMap(live), existingTasks, ttls, nowMs, elapsedMs)
      ensures AllNoPreference(splits) ==> (r.Placed? <==> splits == [] || (minCandidates > 0 && pool != []))
      ensures r.DelegatedPlacement? ==> r == DelegatedPlacement(splits, existingTasks)
      ensures r.DelegatedPlacement? && AllNoPreference(splits) ==> fallbackToSimpleNodeSelection
      ensures r.PlacementFailed? ==> r.error == NoNodesAvailable && !fallbackToSimpleNodeSelection
      ensures r.Placed? ==> AllNoPreference(splits)
      ensures r.Placed? ==> |picks| == |splits| && AllDraws(picks, minCandidates, pool)
      ensures r.Placed? ==> r.assignments == Placements(choose, splits, picks, initialStats)
      ensures r.Placed? ==> IsSubsequence(PlacedWork(r.assignments), Works(splits))
      ensures r.Placed? ==> (r.blocked <==> |r.assignments| < |splits|)
      ensures r.Placed? ==> forall a :: a in r.assignments ==>
        && a.node in pool
        && InSnapshot(CurrentNodeMap(live), a.node)
        && HasEnoughTtl(a.node, ReduceTtls(ttls), EstimatedExecutionTimeRemaining(estimatedExecutionTimeMs, elapsedMs), nowMs)
      ensures r.Placed? ==> forall n :: finalStats.Assigned(n) == initialStats.Assigned(n) + WeightPlacedOn(r.assignments, n)
    {
      finalStats, pool, picks := initialStats, [], [];
      if !AllNoPreference(splits) {
        return DelegatedPlacement(splits, existingTasks), pool, picks, finalStats;
      }
      var nodeMap := CurrentNodeMap(live);
      var eligibleNodes := GetEligibleNodes(maxTasksPerStage, nodeMap, existingTasks, ttls, nowMs, elapsedMs);
      pool := eligibleNodes;
      r, picks, finalStats := PlaceSplits(choose, splits, existingTasks, eligibleNodes, initialStats);
      if r.Placed? {
        PlacementsKeepOrder(choose, splits, picks, initialStats);
        PlacementsStayInPool(choose, splits, picks, initialStats, minCandidates, pool);
        StatsAfterAddsPlacedWeight(initialStats, r.assignments);
      }
    }
  }
}
