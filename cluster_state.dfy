/** The slice of a cluster state that zen discovery looks at: its version,
    the id of the elected master (if any) and the member nodes, each with
    its id and its set of roles. */
module ClusterStates {

  datatype Option<T> = None | Some(value: T)

  /** The roles a discovery node can carry. */
  datatype Role = Master | Data | Ingest

  /** A discovery node, reduced to its id and its roles. */
  datatype Node = Node(id: string, roles: set<Role>)

  /** A node is master-eligible when it carries the master role. */
  predicate IsMasterNode(n: Node) {
    Master in n.roles
  }

  /** Version, elected master id (None when no master is known) and the
      member nodes, keyed by node id. */
  datatype ClusterState = ClusterState(version: int, masterId: Option<string>, nodes: map<string, Node>)

  /** Every node is filed under its own id, and a named master is a member. */
  ghost predicate WellFormed(s: ClusterState) {
    (forall id :: id in s.nodes ==> s.nodes[id].id == id) &&
    (s.masterId.Some? ==> s.masterId.value in s.nodes)
  }
}
