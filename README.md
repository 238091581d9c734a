# Zen discovery: state acceptance, ping filtering and fault-detection publish

This project models three behaviours of Elasticsearch's zen discovery module. It follows the contracts in `ZenDiscoveryUnitTests.java`. The code of the `ZenDiscovery` class is not part of this model, so the behaviour of the `ZenDiscovery` class modelled below is inferred from those tests.

- **Accepting a published cluster state** (`Acceptance`). A node holds a cluster state, described by its version, the id of its elected master (possibly none) and its nodes. It decides whether to accept an incoming state, ignore it as stale, or reject it because it comes from a different master. The source signals rejection with an `IllegalStateException`. Here it is the `Reject(reason)` case of a `Decision` datatype.
- **Filtering ping responses** (`PingFilter`). When master election ignores non-master nodes, only the responses whose node carries the master role are kept. Otherwise every response is kept. Order is preserved in both cases.
- **Fault detection after a publish** (`FaultDetection`, `ZenDiscoveryPublish`). The master pings every member of the committed state except itself. A `ZenDiscovery` object holds the committed state and the fault-detection node set. `Publish` replaces both when the state commits and leaves both unchanged when it fails. A state commits when the master plus the acknowledging master-eligible nodes reach `minimum_master_nodes`. The network round trip is replaced by a parameter: the set of node ids that acknowledged.

`ClusterStates` holds the shared types. A node is reduced to its id and its role set (`Master`, `Data`, `Ingest`). A cluster state's nodes are a map keyed by node id.

In the source the rejection message contains the phrase "cluster state from a different master than the current one, rejecting". The model's rejection reason is that phrase alone.

## Model

| member | source | states |
|---|---|---|
| `Acceptance.ShouldIgnoreOrReject` | core/src/test/java/org/elasticsearch/discovery/zen/ZenDiscoveryUnitTests.java:68-121 | With no current master the state is accepted. The state is rejected exactly when a master is followed and the incoming state names another master, and the reason is then the "different master" message. It is ignored exactly when it comes from the followed master with a version that is not higher. |
| `Acceptance.IgnoresStaleStateFromSameMaster` | core/src/test/java/org/elasticsearch/discovery/zen/ZenDiscoveryUnitTests.java:81-86 | Same master and a lower or equal incoming version: ignored. |
| `Acceptance.AcceptsNewerStateFromSameMaster` | core/src/test/java/org/elasticsearch/discovery/zen/ZenDiscoveryUnitTests.java:87-89 | Same master and a strictly higher incoming version: accepted (not ignored). |
| `Acceptance.RejectsStateFromDifferentMaster` | core/src/test/java/org/elasticsearch/discovery/zen/ZenDiscoveryUnitTests.java:91-108 | Two different non-null masters: rejected with the "different master" message, and the rejection stays the same whatever versions the two states carry. |
| `Acceptance.AcceptsAnyStateWithoutCurrentMaster` | core/src/test/java/org/elasticsearch/discovery/zen/ZenDiscoveryUnitTests.java:110-121 | With no current master every incoming state is accepted, whatever the versions. |
| `Acceptance.AcceptedStateNeverRegresses` | core/src/test/java/org/elasticsearch/discovery/zen/ZenDiscoveryUnitTests.java:81-108 | A state accepted while following a master has that master and a higher version. Once it is held, a redelivery of it is ignored, and so is the state it replaced. |
| `PingFilter.MasterResponses` | core/src/test/java/org/elasticsearch/discovery/zen/ZenDiscoveryUnitTests.java:128-144 | The kept responses are no more than the input. Each one is an input response with a master-eligible node, and every input response with a master-eligible node is kept. |
| `PingFilter.FilterPingResponses` | core/src/test/java/org/elasticsearch/discovery/zen/ZenDiscoveryUnitTests.java:139-147 | With the flag set, a response is in the output if and only if it is in the input and its node is master-eligible. With the flag clear, the output is the input unchanged. |
| `PingFilter.ResponseNodes` | core/src/test/java/org/elasticsearch/discovery/zen/ZenDiscoveryUnitTests.java:142 | Maps each response to its node, one for one and in order. |
| `PingFilter.MasterResponsesConcat` | core/src/test/java/org/elasticsearch/discovery/zen/ZenDiscoveryUnitTests.java:128-144 | Filtering a concatenation is the concatenation of the filtered parts, so the kept responses stay in their original relative order. |
| `PingFilter.FilteredNodesStep` | core/src/test/java/org/elasticsearch/discovery/zen/ZenDiscoveryUnitTests.java:128-144 | Appending one response to the input appends its node to the filtered nodes exactly when that node is master-eligible. This is how the expected list of master nodes is built up. |
| `PingFilter.UnfilteredNodesAreAllResponders` | core/src/test/java/org/elasticsearch/discovery/zen/ZenDiscoveryUnitTests.java:143-147 | With the flag clear, the filtered nodes are all the responders in order, and the output has the input's length. |
| `PingFilter.MasterResponsesKeepsEligible` | core/src/test/java/org/elasticsearch/discovery/zen/ZenDiscoveryUnitTests.java:134-144 | A list of master-eligible responses passes the filter unchanged, and filtering is idempotent. |
| `FaultDetection.FdNodesForState` | core/src/test/java/org/elasticsearch/discovery/zen/ZenDiscoveryUnitTests.java:215-224 | The loop over the state's nodes builds exactly the set of members whose id differs from the local node's id. |
| `FaultDetection.FdNodesExcludeExactlyLocal` | core/src/test/java/org/elasticsearch/discovery/zen/ZenDiscoveryUnitTests.java:218-221 | A member is in the fault-detection set if and only if its id is not the local id. The local node is never pinged, and every other member is. |
| `FaultDetection.FdNodeIds` | core/src/test/java/org/elasticsearch/discovery/zen/ZenDiscoveryUnitTests.java:215-224 | In a state whose nodes are filed under their own ids, the pinged ids are exactly the member ids minus the local id. |
| `ZenDiscoveryPublish.CountedAcks` | core/src/test/java/org/elasticsearch/discovery/zen/ZenDiscoveryUnitTests.java:152-155 | The number of counted acknowledgements never exceeds the number of master-eligible members other than the master, nor the number of nodes that acknowledged: the quorum cannot count a peer that does not exist or did not answer. |
| `ZenDiscoveryPublish.MinimumOfOneAlwaysCommits` | core/src/test/java/org/elasticsearch/discovery/zen/ZenDiscoveryUnitTests.java:152-153 | With a minimum of at most one master node, the publish commits whoever acknowledges. |
| `ZenDiscoveryPublish.UnreachableMinimumNeverCommits` | core/src/test/java/org/elasticsearch/discovery/zen/ZenDiscoveryUnitTests.java:187-189 | A minimum above the number of master-eligible nodes (master included) never commits, whoever acknowledges. |
| `ZenDiscoveryPublish.AllAcknowledgedCommits` | core/src/test/java/org/elasticsearch/discovery/zen/ZenDiscoveryUnitTests.java:178-186 | When every master-eligible peer acknowledges and the minimum is reachable, the publish commits. |
| `ZenDiscoveryPublish.CommitIsMonotoneInAcks` | core/src/test/java/org/elasticsearch/discovery/zen/ZenDiscoveryUnitTests.java:178-190 | More acknowledgements never turn a commit into a failure. |
| `ZenDiscoveryPublish.ZenDiscovery.constructor` | core/src/test/java/org/elasticsearch/discovery/zen/ZenDiscoveryUnitTests.java:163-169 | A new discovery module holds the initial state and watches no nodes, which satisfies the object invariant. |
| `ZenDiscoveryPublish.ZenDiscovery.Publish` | core/src/test/java/org/elasticsearch/discovery/zen/ZenDiscoveryUnitTests.java:178-192 | Commits exactly when the quorum rule holds. On commit, the held state becomes the new state and the fault-detection set becomes that state's members minus the local node. On failure, both are unchanged, and the outcome reports the acknowledgements counted against the required minimum. The invariant "fault detection watches only non-local members of the held state" is preserved. |
| `ZenDiscoveryPublish.NodesUpdatedAfterClusterStatePublished` | core/src/test/java/org/elasticsearch/discovery/zen/ZenDiscoveryUnitTests.java:150-192 | The publish scenario for a two-node cluster, for any initial version, any role set of the new node and any set of acknowledgers. The publish fails exactly when the minimum is 3. The expected fault-detection set equals the held one. After success that set is just the new node. |

## Left out

- Thread pools, transport services, mock nodes, the acknowledgement listener with its timeout, the cluster service and closing them: the publish round trip is reduced to the set of node ids that acknowledged.
- Settings and cluster settings, the ping service and the master-election service: the minimum number of master nodes is a constructor argument, and the election flag of the filter is a parameter.
- Node names, transport addresses, attributes and versions; ping-response fields other than the responding node (observed master, cluster name, joined flag): none of them affects the decisions modelled.
- Logging.
- Acceptance.ShouldIgnoreOrReject: the rejection reason is only the fixed "different master" phrase that the source's message contains; the details the exception text may add after it, such as the received and current master nodes, are dropped.
- The test's randomness: the lemmas quantify over all inputs instead, and the publish scenario takes the new node's roles, the initial version and the acknowledgers as parameters.
- `ZenDiscovery`'s own implementation is not part of this model. The commit rule, which counts the master as one acknowledgement and counts only master-eligible, non-local members of the new state, is inferred from the publish test, not read from code. The fault-detection set of a freshly started module is taken to be empty. The test reads it but does not assert its value.
- An incoming state with no master while the current state has one: the test never exercises this case and no lemma singles it out; the Reject clause of `Acceptance.ShouldIgnoreOrReject`'s contract covers it, keeping the "different master" branch.
- Integer widths: versions are `long` and the minimum is `int` in the source. The model uses unbounded integers, because none of the behaviours depends on overflow.
