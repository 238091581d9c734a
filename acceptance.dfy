/** The rule a node applies to a cluster state published to it: accept it,
    ignore it as stale, or reject it as coming from the wrong master. */
module Acceptance {
  import opened ClusterStates

  /** Accept and Ignore are the `false` and `true` returns of
      `ZenDiscovery.shouldIgnoreOrRejectNewClusterState`; Reject stands for
      the IllegalStateException it throws. */
  datatype Decision = Accept | Ignore | Reject(reason: string)

  const DifferentMasterMessage: string := "cluster state from a different master than the current one, rejecting"

  /** Decides what to do with `incoming` while holding `current`. */
  function ShouldIgnoreOrReject(current: ClusterState, incoming: ClusterState): (d: Decision)
    // with no master to follow, anything is taken
    ensures current.masterId.None? ==> d == Accept
    // rejection exactly when a master is followed and the incoming state names another
    ensures d.Reject? <==> current.masterId.Some? && incoming.masterId != current.masterId
    ensures d.Reject? ==> d.reason == DifferentMasterMessage
    // ignored exactly when it comes from the followed master and is not newer
    ensures d == Ignore <==>
      current.masterId.Some? && incoming.masterId == current.masterId && incoming.version <= current.version
  {
    match current.masterId
    case None => Accept
    case Some(m) =>
      if incoming.masterId != Some(m) then Reject(DifferentMasterMessage)
      else if incoming.version > current.version then Accept
      else Ignore
  }

  /** A state from the followed master whose version is lower or equal is ignored. */
  lemma IgnoresStaleStateFromSameMaster(current: ClusterState, incoming: ClusterState)
    requires current.masterId.Some? && incoming.masterId == current.masterId
    requires incoming.version <= current.version
    ensures ShouldIgnoreOrReject(current, incoming) == Ignore
  {
  }

  /** A strictly newer state from the followed master is not ignored. */
  lemma AcceptsNewerStateFromSameMaster(current: ClusterState, incoming: ClusterState)
    requires current.masterId.Some? && incoming.masterId == current.masterId
    requires incoming.version > current.version
    ensures ShouldIgnoreOrReject(current, incoming) == Accept
  {
  }

  /** Two different masters: rejected with the "different master" message,
      and the versions of either state make no difference. */
  lemma RejectsStateFromDifferentMaster(current: ClusterState, incoming: ClusterState, v: int, w: int)
    requires current.masterId.Some? && incoming.masterId.Some?
    requires incoming.masterId != current.masterId
    ensures ShouldIgnoreOrReject(current, incoming) == Reject(DifferentMasterMessage)
    ensures ShouldIgnoreOrReject(current.(version := v), incoming.(version := w)) == Reject(DifferentMasterMessage)
  {
  }

  /** Without a current master every incoming state is accepted, whatever the versions. */
  lemma AcceptsAnyStateWithoutCurrentMaster(current: ClusterState, incoming: ClusterState)
    requires current.masterId.None?
    ensures ShouldIgnoreOrReject(current, incoming) == Accept
  {
  }

  /** A state accepted while following a master comes from that master and
      moves the version forward; once it is held, a redelivery of it and the
      state it replaced are both ignored. */
  lemma AcceptedStateNeverRegresses(current: ClusterState, incoming: ClusterState)
    requires current.masterId.Some?
    requires ShouldIgnoreOrReject(current, incoming) == Accept
    ensures incoming.masterId == current.masterId && incoming.version > current.version
    ensures ShouldIgnoreOrReject(incoming, incoming) == Ignore
    ensures ShouldIgnoreOrReject(incoming, current) == Ignore
  {
  }
}
