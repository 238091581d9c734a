/** The nodes a master pings to detect faults: every member of the cluster
    state except itself. */
module FaultDetection {
  import opened ClusterStates

  /** The members of `state` other than `local`, compared by id. */
  function FdNodes(state: ClusterState, local: Node): set<Node>
  {
    set n | n in state.nodes.Values && n.id != local.id
  }

  /** Builds the fault-detection set by walking the state's nodes and adding
      each one whose id is not the local node's. */
  method FdNodesForState(state: ClusterState, local: Node) returns (fd: set<Node>)
    ensures fd == FdNodes(state, local)
  {
    fd := {};
    var remaining := state.nodes.Values;
    while remaining != {}
      invariant remaining <= state.nodes.Values
      invariant forall n :: n in fd <==> n in state.nodes.Values && n !in remaining && n.id != local.id
      decreases remaining
    {
      var n :| n in remaining;
      if n.id != local.id {
        fd := fd + {n};
      }
      remaining := remaining - {n};
    }
  }

  /** The local node is never pinged, and every other member is. */
  lemma FdNodesExcludeExactlyLocal(state: ClusterState, local: Node, n: Node)
    requires n in state.nodes.Values
    ensures n in FdNodes(state, local) <==> n.id != local.id
  {
  }

  /** In a well-formed state, the ids pinged are exactly the member ids
      other than the local id. */
  lemma FdNodeIds(state: ClusterState, local: Node)
    requires WellFormed(state)
    ensures (set n | n in FdNodes(state, local) :: n.id) == state.nodes.Keys - {local.id}
  {
  }
}
