/** The master side of publishing a cluster state: the state is committed
    only when enough master-eligible nodes acknowledge it, and the set of
    nodes under fault detection follows the committed state. */
module ZenDiscoveryPublish {
  import opened ClusterStates
  import opened FaultDetection

  /** The result of a publish: committed, or failed to commit with the
      number of counting acknowledgements received (the master's own
      included) against the number required. */
  datatype PublishOutcome = Committed | FailedToCommit(acks: nat, required: int)

  /** The master-eligible members of `state` other than `local`: the nodes
      whose acknowledgement counts towards the commit. */
  function EligiblePeers(state: ClusterState, local: Node): set<string>
  {
    set id | id in state.nodes && id != local.id && IsMasterNode(state.nodes[id])
  }

  /** The eligible peers that acknowledged, given the ids of the nodes that
      acknowledged the publish. */
  function CountedAcks(state: ClusterState, local: Node, acked: set<string>): (c: set<string>)
    ensures |c| <= |EligiblePeers(state, local)| && |c| <= |acked|
  {
    var c := set id | id in EligiblePeers(state, local) && id in acked;
    SubsetCardinality(c, EligiblePeers(state, local));
    SubsetCardinality(c, acked);
    c
  }

  /** The master counts itself; the state commits once the master plus the
      acknowledging eligible peers reach the minimum number of master nodes. */
  predicate Commits(state: ClusterState, local: Node, acked: set<string>, minimumMasterNodes: int)
  {
    1 + |CountedAcks(state, local, acked)| >= minimumMasterNodes
  }

  lemma SubsetCardinality(a: set<string>, b: set<string>)
    requires a <= b
    ensures |a| <= |b|
  {
    assert b == a + (b - a);
  }

  /** A minimum of one master node is met by the master alone, whoever acknowledges. */
  lemma MinimumOfOneAlwaysCommits(state: ClusterState, local: Node, acked: set<string>, minimumMasterNodes: int)
    requires minimumMasterNodes <= 1
    ensures Commits(state, local, acked, minimumMasterNodes)
  {
  }

  /** A minimum above the number of master-eligible nodes can never be met,
      whoever acknowledges. */
  lemma UnreachableMinimumNeverCommits(state: ClusterState, local: Node, acked: set<string>, minimumMasterNodes: int)
    requires minimumMasterNodes > 1 + |EligiblePeers(state, local)|
    ensures !Commits(state, local, acked, minimumMasterNodes)
  {
  }

  /** When every eligible peer acknowledges, any reachable minimum commits. */
  lemma AllAcknowledgedCommits(state: ClusterState, local: Node, acked: set<string>, minimumMasterNodes: int)
    requires EligiblePeers(state, local) <= acked
    requires minimumMasterNodes <= 1 + |EligiblePeers(state, local)|
    ensures Commits(state, local, acked, minimumMasterNodes)
  {
    assert CountedAcks(state, local, acked) == EligiblePeers(state, local);
  }

  /** More acknowledgements never turn a commit into a failure. */
  lemma CommitIsMonotoneInAcks(state: ClusterState, local: Node, acked: set<string>, more: set<string>, minimumMasterNodes: int)
    requires acked <= more
    requires Commits(state, local, acked, minimumMasterNodes)
    ensures Commits(state, local, more, minimumMasterNodes)
  {
    SubsetCardinality(CountedAcks(state, local, acked), CountedAcks(state, local, more));
  }

  /** The discovery module of the master node: the last committed cluster
      state and the nodes currently under fault detection. */
  class ZenDiscovery {
    const localNode: Node
    const minimumMasterNodes: int
    var clusterState: ClusterState
    var faultDetectionNodes: set<Node>

    /** Fault detection only ever watches members of the committed state,
        and never the local node. A sanity invariant that every method
        preserves; the exact value of the set after a publish is stated by
        `Publish` itself. */
    ghost predicate Valid()
      reads this
    {
      faultDetectionNodes <= clusterState.nodes.Values &&
      forall n :: n in faultDetectionNodes ==> n.id != localNode.id
    }

    /** Fault detection starts with no nodes. */
    constructor (local: Node, initial: ClusterState, minMasterNodes: int)
      ensures Valid()
      ensures localNode == local && minimumMasterNodes == minMasterNodes
      ensures clusterState == initial && faultDetectionNodes == {}
    {
      localNode := local;
      minimumMasterNodes := minMasterNodes;
      clusterState := initial;
      faultDetectionNodes := {};
    }

    /** Publishes `newState`; `acked` holds the ids of the nodes that
        acknowledged it. On commit the state and the fault-detection set are
        both replaced; on failure neither changes. */
    method Publish(newState: ClusterState, acked: set<string>) returns (outcome: PublishOutcome)
      requires Valid()
      modifies this
      ensures Valid()
      ensures outcome.Committed? <==> Commits(newState, localNode, acked, minimumMasterNodes)
      ensures outcome.FailedToCommit? ==>
        outcome.acks == 1 + |CountedAcks(newState, localNode, acked)| && outcome.required == minimumMasterNodes
      ensures outcome.Committed? ==> clusterState == newState && faultDetectionNodes == FdNodes(newState, localNode)
      ensures outcome.FailedToCommit? ==>
        clusterState == old(clusterState) && faultDetectionNodes == old(faultDetectionNodes)
    {
      var acks := 1 + |CountedAcks(newState, localNode, acked)|;
      if acks < minimumMasterNodes {
        return FailedToCommit(acks, minimumMasterNodes);
      }
      var fd := FdNodesForState(newState, localNode);
      clusterState, faultDetectionNodes := newState, fd;
      outcome := Committed;
    }
  }

  /** The publish scenario: a master alone in its cluster state publishes a
      state that adds one more node, with a minimum of 1 or 3 master nodes.
      Returns whether the publish failed, the fault-detection set the
      scenario expects and the one the discovery module holds afterwards. */
  method NodesUpdatedAfterClusterStatePublished(minMasterNodes: int, version: int, newNodeRoles: set<Role>, acked: set<string>)
    returns (failed: bool, expectedFdNodes: set<Node>, actualFdNodes: set<Node>)
    requires minMasterNodes == 1 || minMasterNodes == 3
    ensures failed <==> minMasterNodes == 3
    ensures expectedFdNodes == actualFdNodes
    ensures !failed ==> actualFdNodes == {Node("new_node", newNodeRoles)}
    ensures failed ==> actualFdNodes == {}
  {
    var master := Node("master", {Master, Data, Ingest});
    var state := ClusterState(version, Some(master.id), map[master.id := master]);
    var zenDiscovery := new ZenDiscovery(master, state, minMasterNodes);

    var newNode := Node("new_node", newNodeRoles);
    var newState := ClusterState(state.version + 1, Some(master.id), state.nodes[newNode.id := newNode]);

    expectedFdNodes := zenDiscovery.faultDetectionNodes;
    assert EligiblePeers(newState, master) <= {newNode.id};
    SubsetCardinality(EligiblePeers(newState, master), {newNode.id});
    if minMasterNodes == 1 {
      MinimumOfOneAlwaysCommits(newState, master, acked, minMasterNodes);
    } else {
      UnreachableMinimumNeverCommits(newState, master, acked, minMasterNodes);
    }
    var outcome := zenDiscovery.Publish(newState, acked);
    failed := outcome.FailedToCommit?;
    if !failed {
      expectedFdNodes := FdNodesForState(newState, master);
      assert newState.nodes.Keys == {master.id, newNode.id};
      assert newState.nodes[newNode.id] == newNode && newState.nodes[master.id] == master;
      assert forall n :: n in newState.nodes.Values ==> n == master || n == newNode;
    }
    actualFdNodes := zenDiscovery.faultDetectionNodes;
  }
}
