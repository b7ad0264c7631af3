/**
 * Which nodes may receive work, judged by their predicted lifetime: the
 * per-node reduction of TTL estimates, the stable TTL filter over a node
 * list, and the nodes of the stage's existing tasks that are still eligible.
 */
module Eligibility {
  import opened Common
  import opened Ttl
  import opened Cluster

  /** Each node's earliest-expiring estimate, None when the node reported none. */
  type TtlByNode = map<Node, Option<TtlInfo>>

  /**
   * Reduce every node's estimates to the earliest-expiring one. The node set
   * is kept; a node maps to None exactly when it has no estimate, and
   * otherwise to one of its estimates that no other estimate of it precedes.
   */
  function ReduceTtls(ttls: map<Node, seq<TtlInfo>>): (r: TtlByNode)
    ensures r.Keys == ttls.Keys
    ensures forall n :: n in r ==> (r[n].None? <==> ttls[n] == [])
    ensures forall n :: n in r && r[n].Some? ==>
      r[n].value in ttls[n] &&
      forall e :: e in ttls[n] ==> r[n].value.expiryInstantMs <= e.expiryInstantMs
  {
    map n | n in ttls :: EarliestExpiry(ttls[n])
  }

  /** `n` has a present TTL entry that covers the remaining execution time. */
  predicate HasEnoughTtl(n: Node, ttlInfo: TtlByNode, remainingMs: int, nowMs: int)
  {
    n in ttlInfo && ttlInfo[n].Some? && IsTtlEnough(ttlInfo[n].value, remainingMs, nowMs)
  }

  /** The five tests of the TTL filter, all of which a kept node passes. */
  predicate IsEligible(n: Node, excludedNodes: set<Node>, ttlInfo: TtlByNode, remainingMs: int, nowMs: int, includeCoordinator: bool)
  {
    && n in ttlInfo
    && (includeCoordinator || !n.coordinator)
    && n !in excludedNodes
    && ttlInfo[n].Some?
    && IsTtlEnough(ttlInfo[n].value, remainingMs, nowMs)
  }

  /**
   * Stable TTL filter: the result keeps the input order, holds only eligible
   * nodes, and loses none of the eligible ones.
   */
  function FilterNodesByTtl(nodes: seq<Node>, excludedNodes: set<Node>, ttlInfo: TtlByNode,
                            remainingMs: int, nowMs: int, includeCoordinator: bool): (r: seq<Node>)
    ensures IsSubsequence(r, nodes)
    ensures forall n :: n in r ==> IsEligible(n, excludedNodes, ttlInfo, remainingMs, nowMs, includeCoordinator)
    ensures forall n :: n in nodes && IsEligible(n, excludedNodes, ttlInfo, remainingMs, nowMs, includeCoordinator) ==> n in r
    ensures Distinct(nodes) ==> Distinct(r)
    decreases |nodes|
  {
    if nodes == [] then []
    else
      var rest := FilterNodesByTtl(nodes[1..], excludedNodes, ttlInfo, remainingMs, nowMs, includeCoordinator);
      assert nodes == [nodes[0]] + nodes[1..];
      SubsequenceMembers(rest, nodes[1..]);
      assert Distinct(nodes) ==> nodes[0] !in nodes[1..] && Distinct(nodes[1..]) by {
        if Distinct(nodes) {
          forall k | 0 <= k < |nodes[1..]| ensures nodes[1..][k] != nodes[0] {
            assert nodes[1..][k] == nodes[k + 1];
          }
          forall i, j | 0 <= i < j < |nodes[1..]| ensures nodes[1..][i] != nodes[1..][j] {
            assert nodes[1..][i] == nodes[i + 1] && nodes[1..][j] == nodes[j + 1];
          }
        }
      }
      if IsEligible(nodes[0], excludedNodes, ttlInfo, remainingMs, nowMs, includeCoordinator)
      then [nodes[0]] + rest
      else rest
  }

  /** Filtering an already filtered list changes nothing. */
  lemma {:induction false} FilterNodesByTtlIdempotent(nodes: seq<Node>, excludedNodes: set<Node>, ttlInfo: TtlByNode,
                                                      remainingMs: int, nowMs: int, includeCoordinator: bool)
    ensures var once := FilterNodesByTtl(nodes, excludedNodes, ttlInfo, remainingMs, nowMs, includeCoordinator);
      FilterNodesByTtl(once, excludedNodes, ttlInfo, remainingMs, nowMs, includeCoordinator) == once
    decreases |nodes|
  {
    if nodes != [] {
      FilterNodesByTtlIdempotent(nodes[1..], excludedNodes, ttlInfo, remainingMs, nowMs, includeCoordinator);
      var rest := FilterNodesByTtl(nodes[1..], excludedNodes, ttlInfo, remainingMs, nowMs, includeCoordinator);
      if IsEligible(nodes[0], excludedNodes, ttlInfo, remainingMs, nowMs, includeCoordinator) {
        assert ([nodes[0]] + rest)[1..] == rest;
      }
    }
  }

  /**
   * The filter reads its input left to right and keeps each eligible
   * occurrence: one more node at the end adds itself when it passes and
   * nothing otherwise.
   */
  lemma {:induction false} FilterNodesByTtlAppend(nodes: seq<Node>, x: Node, excludedNodes: set<Node>, ttlInfo: TtlByNode,
                                                  remainingMs: int, nowMs: int, includeCoordinator: bool)
    ensures FilterNodesByTtl(nodes + [x], excludedNodes, ttlInfo, remainingMs, nowMs, includeCoordinator) ==
      FilterNodesByTtl(nodes, excludedNodes, ttlInfo, remainingMs, nowMs, includeCoordinator) +
      (if IsEligible(x, excludedNodes, ttlInfo, remainingMs, nowMs, includeCoordinator) then [x] else [])
    decreases |nodes|
  {
    if nodes == [] {
      assert ([] + [x])[1..] == [];
    } else {
      assert (nodes + [x])[0] == nodes[0] && (nodes + [x])[1..] == nodes[1..] + [x];
      FilterNodesByTtlAppend(nodes[1..], x, excludedNodes, ttlInfo, remainingMs, nowMs, includeCoordinator);
    }
  }

  /** When every node passes, the filter returns its input unchanged. */
  lemma {:induction false} FilterNodesByTtlKeepsAllEligible(nodes: seq<Node>, excludedNodes: set<Node>, ttlInfo: TtlByNode,
                                                            remainingMs: int, nowMs: int, includeCoordinator: bool)
    requires forall i :: 0 <= i < |nodes| ==> IsEligible(nodes[i], excludedNodes, ttlInfo, remainingMs, nowMs, includeCoordinator)
    ensures FilterNodesByTtl(nodes, excludedNodes, ttlInfo, remainingMs, nowMs, includeCoordinator) == nodes
    decreases |nodes|
  {
    if nodes != [] {
      FilterNodesByTtlKeepsAllEligible(nodes[1..], excludedNodes, ttlInfo, remainingMs, nowMs, includeCoordinator);
      assert nodes == [nodes[0]] + nodes[1..];
    }
  }

  /**
   * After the reduction, a node passes the TTL test iff it reported at least
   * one estimate and every estimate it reported covers the remaining time; in
   * particular a node with no estimate, or none at all, is never kept.
   */
  lemma ReducedTtlIsWorstCase(ttls: map<Node, seq<TtlInfo>>, n: Node, remainingMs: int, nowMs: int)
    ensures HasEnoughTtl(n, ReduceTtls(ttls), remainingMs, nowMs) <==>
      (n in ttls && ttls[n] != [] && forall e :: e in ttls[n] ==> IsTtlEnough(e, remainingMs, nowMs))
  {
    var ttlInfo := ReduceTtls(ttls);
    if n in ttls && ttls[n] != [] {
      assert ttlInfo[n] == EarliestExpiry(ttls[n]);
      EarliestExpiryDecidesTtl(ttls[n], remainingMs, nowMs);
    }
  }

  /**
   * The nodes of the existing tasks, resolved through the active-by-id map,
   * that still have enough TTL, in task order. A task whose node id is not
   * (or no longer) active is dropped.
   */
  function ExistingEligibleNodes(existingTasks: seq<RemoteTask>, activeNodesByNodeId: map<NodeId, Node>,
                                 ttlInfo: TtlByNode, remainingMs: int, nowMs: int): (r: seq<Node>)
    ensures |r| <= |existingTasks|
    ensures forall n :: n in r ==> n in activeNodesByNodeId.Values && HasEnoughTtl(n, ttlInfo, remainingMs, nowMs)
    ensures forall n :: n in r ==> exists i :: 0 <= i < |existingTasks| && ResolvesTo(existingTasks[i], activeNodesByNodeId, n)
    ensures forall i :: 0 <= i < |existingTasks| ==>
      var id := existingTasks[i].nodeId;
      id in activeNodesByNodeId && HasEnoughTtl(activeNodesByNodeId[id], ttlInfo, remainingMs, nowMs) ==>
        activeNodesByNodeId[id] in r
    decreases |existingTasks|
  {
    if existingTasks == [] then []
    else
      var rest := ExistingEligibleNodes(existingTasks[1..], activeNodesByNodeId, ttlInfo, remainingMs, nowMs);
      assert forall i :: 1 <= i < |existingTasks| ==> existingTasks[i] == existingTasks[1..][i - 1];
      assert forall n :: n in rest ==> exists i :: 0 <= i < |existingTasks| && ResolvesTo(existingTasks[i], activeNodesByNodeId, n) by {
        forall n | n in rest
          ensures exists i :: 0 <= i < |existingTasks| && ResolvesTo(existingTasks[i], activeNodesByNodeId, n)
        {
          var j :| 0 <= j < |existingTasks[1..]| && ResolvesTo(existingTasks[1..][j], activeNodesByNodeId, n);
          assert ResolvesTo(existingTasks[j + 1], activeNodesByNodeId, n);
        }
      }
      var id := existingTasks[0].nodeId;
      if id in activeNodesByNodeId && HasEnoughTtl(activeNodesByNodeId[id], ttlInfo, remainingMs, nowMs)
      then
        assert activeNodesByNodeId[id] in activeNodesByNodeId.Values;
        assert ResolvesTo(existingTasks[0], activeNodesByNodeId, activeNodesByNodeId[id]);
        [activeNodesByNodeId[id]] + rest
      else rest
  }

  /**
   * The existing tasks are read left to right and each one that resolves to
   * a node with enough TTL contributes that node once: one more task at the
   * end adds its node when it qualifies and nothing otherwise.
   */
  lemma {:induction false} ExistingEligibleNodesAppend(existingTasks: seq<RemoteTask>, task: RemoteTask,
                                                       activeNodesByNodeId: map<NodeId, Node>,
                                                       ttlInfo: TtlByNode, remainingMs: int, nowMs: int)
    ensures ExistingEligibleNodes(existingTasks + [task], activeNodesByNodeId, ttlInfo, remainingMs, nowMs) ==
      ExistingEligibleNodes(existingTasks, activeNodesByNodeId, ttlInfo, remainingMs, nowMs) +
      (if task.nodeId in activeNodesByNodeId &&
          HasEnoughTtl(activeNodesByNodeId[task.nodeId], ttlInfo, remainingMs, nowMs)
       then [activeNodesByNodeId[task.nodeId]] else [])
    decreases |existingTasks|
  {
    if existingTasks == [] {
      assert ([] + [task])[1..] == [];
    } else {
      assert (existingTasks + [task])[0] == existingTasks[0];
      assert (existingTasks + [task])[1..] == existingTasks[1..] + [task];
      ExistingEligibleNodesAppend(existingTasks[1..], task, activeNodesByNodeId, ttlInfo, remainingMs, nowMs);
    }
  }

  /** The task's node id is active and names `n`. */
  predicate ResolvesTo(task: RemoteTask, activeNodesByNodeId: map<NodeId, Node>, n: Node)
  {
    task.nodeId in activeNodesByNodeId && activeNodesByNodeId[task.nodeId] == n
  }

  /** Every node of `nodes` is in the snapshot and has enough TTL left. */
  ghost predicate AllQualify(nodes: seq<Node>, nodeMap: NodeMap, ttlInfo: TtlByNode, remainingMs: int, nowMs: int)
  {
    forall n :: n in nodes ==> InSnapshot(nodeMap, n) && HasEnoughTtl(n, ttlInfo, remainingMs, nowMs)
  }

  /**
   * Both sources of a stage's node pool qualify: the nodes of its existing
   * tasks, and the active nodes the TTL filter keeps.
   */
  lemma PoolSourcesQualify(existingTasks: seq<RemoteTask>, nodeMap: NodeMap, ttlInfo: TtlByNode, remainingMs: int,
                           nowMs: int, includeCoordinator: bool, existing: seq<Node>, others: seq<Node>)
    requires existing == ExistingEligibleNodes(existingTasks, nodeMap.activeNodesByNodeId, ttlInfo, remainingMs, nowMs)
    requires others == FilterNodesByTtl(nodeMap.activeNodes, Elements(existing), ttlInfo, remainingMs, nowMs,
                                        includeCoordinator)
    ensures AllQualify(existing, nodeMap, ttlInfo, remainingMs, nowMs)
    ensures AllQualify(others, nodeMap, ttlInfo, remainingMs, nowMs)
  {
    SubsequenceMembers(others, nodeMap.activeNodes);
  }
}
