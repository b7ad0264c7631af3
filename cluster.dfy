/**
 * The scheduler's view of the cluster and of the work to place: nodes, the
 * active-node snapshot, remote tasks, splits, and the per-call assignment
 * statistics that the placement loop accumulates.
 */
module Cluster {
  import opened Common

  type NodeId = string

  /** A worker or the coordinator. */
  datatype Node = Node(nodeIdentifier: NodeId, coordinator: bool)

  /** Point-in-time membership: the active nodes as a list and indexed by node id. */
  datatype Membership = Membership(activeNodes: seq<Node>, activeNodesByNodeId: map<NodeId, Node>)

  /** A membership snapshot; it is keyed by node identity, so its active list names each node once. */
  type NodeMap = m: Membership | Distinct(m.activeNodes) witness Membership([], map[])

  /** `n` appears in the snapshot, in either of its two views. */
  predicate InSnapshot(nodeMap: NodeMap, n: Node)
  {
    n in nodeMap.activeNodes || n in nodeMap.activeNodesByNodeId.Values
  }

  /** A task of this stage already running on the node with id `nodeId`. */
  datatype RemoteTask = RemoteTask(nodeId: NodeId)

  datatype NodeSelectionStrategy = HardAffinity | SoftAffinity | NoPreference

  /** The connector's part of a split: its opaque payload, its strategy tag and its weight. */
  datatype ConnectorSplit = ConnectorSplit(payload: nat, strategy: NodeSelectionStrategy, weight: nat)

  datatype SplitContext = SplitContext(cacheable: bool)

  datatype Split = Split(connectorSplit: ConnectorSplit, context: SplitContext)
  {
    function Strategy(): NodeSelectionStrategy { connectorSplit.strategy }
    function Weight(): nat { connectorSplit.weight }
  }

  /** Every split of the batch asks for no placement preference. */
  predicate AllNoPreference(splits: seq<Split>)
  {
    forall i :: 0 <= i < |splits| ==> splits[i].Strategy() == NoPreference
  }

  /** One entry of the result multimap: `split` goes to `node`. */
  datatype Assignment = Assignment(node: Node, split: Split)

  /** The connector splits of a batch, in order. */
  function Works(splits: seq<Split>): seq<ConnectorSplit>
  {
    seq(|splits|, k requires 0 <= k < |splits| => splits[k].connectorSplit)
  }

  /** The connector splits an assignment list places, in order. */
  function PlacedWork(assignments: seq<Assignment>): seq<ConnectorSplit>
  {
    seq(|assignments|, k requires 0 <= k < |assignments| => assignments[k].split.connectorSplit)
  }

  /** Total weight of the splits that `assignments` sends to `n`. */
  function WeightPlacedOn(assignments: seq<Assignment>, n: Node): nat
    decreases |assignments|
  {
    if assignments == [] then 0
    else
      var last := assignments[|assignments| - 1];
      WeightPlacedOn(assignments[..|assignments| - 1], n) + (if last.node == n then last.split.Weight() else 0)
  }

  /** The two load measures the placement loop compares against its two ceilings. */
  datatype WeightMeasure = TotalSplitsWeight | QueuedSplitsWeightForStage

  function Lookup(m: map<Node, nat>, n: Node): nat
  {
    if n in m then m[n] else 0
  }

  /**
   * Per-call load accounting: what each node already carried when the call
   * began (total and queued for this stage), plus what this call has
   * assigned to it so far.
   */
  datatype AssignmentStats = AssignmentStats(
    totalSplitsWeightBefore: map<Node, nat>,
    queuedSplitsWeightBefore: map<Node, nat>,
    assignedWeight: map<Node, nat>)
  {
    function Assigned(n: Node): nat
    {
      Lookup(assignedWeight, n)
    }

    function Load(measure: WeightMeasure, n: Node): nat
    {
      (match measure
       case TotalSplitsWeight => Lookup(totalSplitsWeightBefore, n)
       case QueuedSplitsWeightForStage => Lookup(queuedSplitsWeightBefore, n))
      + Assigned(n)
    }

    /**
     * Record a split of weight `w` on `n`: that node's assigned weight, and
     * so both its loads, grow by exactly `w`; every other node is untouched.
     */
    function AddAssignedSplit(n: Node, w: nat): (s: AssignmentStats)
      ensures s.Assigned(n) == Assigned(n) + w
      ensures forall m :: m != n ==> s.Assigned(m) == Assigned(m)
      ensures forall measure, m :: s.Load(measure, m) == Load(measure, m) + (if m == n then w else 0)
    {
      this.(assignedWeight := assignedWeight[n := Assigned(n) + w])
    }
  }

  /** The accounting after recording `assignments`, in order, on top of `stats`. */
  function StatsAfter(stats: AssignmentStats, assignments: seq<Assignment>): (r: AssignmentStats)
    ensures |assignments| == 0 ==> r == stats
    decreases |assignments|
  {
    if assignments == [] then stats
    else
      var last := assignments[|assignments| - 1];
      StatsAfter(stats, assignments[..|assignments| - 1]).AddAssignedSplit(last.node, last.split.Weight())
  }

  /**
   * The accounting after `assignments` holds, for every node and under
   * either load measure, what it held before plus the weight of the splits
   * assigned to that node.
   */
  lemma {:induction false} StatsAfterAddsPlacedWeight(stats: AssignmentStats, assignments: seq<Assignment>)
    ensures forall n :: StatsAfter(stats, assignments).Assigned(n) == stats.Assigned(n) + WeightPlacedOn(assignments, n)
    ensures forall measure, n ::
      StatsAfter(stats, assignments).Load(measure, n) == stats.Load(measure, n) + WeightPlacedOn(assignments, n)
    decreases |assignments|
  {
    if assignments != [] {
      StatsAfterAddsPlacedWeight(stats, assignments[..|assignments| - 1]);
    }
  }

  /** Recording one more assignment is one more AddAssignedSplit. */
  lemma StatsAfterAppend(stats: AssignmentStats, assignments: seq<Assignment>, entry: Assignment)
    ensures StatsAfter(stats, assignments + [entry]) ==
      StatsAfter(stats, assignments).AddAssignedSplit(entry.node, entry.split.Weight())
  {
    assert (assignments + [entry])[..|assignments|] == assignments;
  }
}
