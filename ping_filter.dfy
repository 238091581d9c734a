/** Narrowing ping responses to the ones that matter for master election. */
module PingFilter {
  import opened ClusterStates

  /** A ping response, reduced to the node that answered. */
  datatype PingResponse = PingResponse(node: Node)

  /** The responses whose node is master-eligible, in their original order. */
  function MasterResponses(rs: seq<PingResponse>): (r: seq<PingResponse>)
    ensures |r| <= |rs|
    ensures forall x :: x in r ==> x in rs && IsMasterNode(x.node)
    ensures forall x :: x in rs && IsMasterNode(x.node) ==> x in r
  {
    if rs == [] then []
    else (if IsMasterNode(rs[0].node) then [rs[0]] else []) + MasterResponses(rs[1..])
  }

  /** The responses master election looks at: only the master-eligible ones
      when `ignoreNonMasters` is set, otherwise all of them. */
  function FilterPingResponses(rs: seq<PingResponse>, ignoreNonMasters: bool): (r: seq<PingResponse>)
    ensures ignoreNonMasters ==> forall x :: x in r <==> x in rs && IsMasterNode(x.node)
    ensures !ignoreNonMasters ==> r == rs
  {
    if ignoreNonMasters then MasterResponses(rs) else rs
  }

  /** The nodes of a list of responses, in order. */
  function ResponseNodes(rs: seq<PingResponse>): (ns: seq<Node>)
    ensures |ns| == |rs| && forall i :: 0 <= i < |rs| ==> ns[i] == rs[i].node
  {
    if rs == [] then [] else [rs[0].node] + ResponseNodes(rs[1..])
  }

  /** Filtering commutes with concatenation: the relative order of the kept
      responses is the order they arrived in. */
  lemma {:induction false} MasterResponsesConcat(a: seq<PingResponse>, b: seq<PingResponse>)
    ensures MasterResponses(a + b) == MasterResponses(a) + MasterResponses(b)
  {
    if a == [] {
      assert a + b == b;
    } else {
      assert (a + b)[1..] == a[1..] + b;
      MasterResponsesConcat(a[1..], b);
    }
  }

  /** One more response appended to the input appends its node to the
      filtered nodes exactly when it is master-eligible: the filtered nodes
      are the list obtained by walking the responses in order and keeping
      the master-eligible ones. */
  lemma FilteredNodesStep(rs: seq<PingResponse>, x: PingResponse)
    ensures ResponseNodes(FilterPingResponses(rs + [x], true)) ==
      ResponseNodes(FilterPingResponses(rs, true)) + (if IsMasterNode(x.node) then [x.node] else [])
  {
    MasterResponsesConcat(rs, [x]);
    assert MasterResponses([x]) == (if IsMasterNode(x.node) then [x] else []) + MasterResponses([]);
    ResponseNodesConcat(MasterResponses(rs), MasterResponses([x]));
  }

  lemma ResponseNodesConcat(a: seq<PingResponse>, b: seq<PingResponse>)
    ensures ResponseNodes(a + b) == ResponseNodes(a) + ResponseNodes(b)
  {
  }

  /** With the flag off, the filtered nodes are all the responders in order. */
  lemma UnfilteredNodesAreAllResponders(rs: seq<PingResponse>)
    ensures ResponseNodes(FilterPingResponses(rs, false)) == ResponseNodes(rs)
    ensures |FilterPingResponses(rs, false)| == |rs|
  {
  }

  /** A list of master-eligible responders passes the filter unchanged, so
      filtering twice is filtering once. */
  lemma {:induction false} MasterResponsesKeepsEligible(rs: seq<PingResponse>)
    ensures (forall i :: 0 <= i < |rs| ==> IsMasterNode(rs[i].node)) ==> MasterResponses(rs) == rs
    ensures MasterResponses(MasterResponses(rs)) == MasterResponses(rs)
  {
    if rs != [] {
      MasterResponsesKeepsEligible(rs[1..]);
      var head := if IsMasterNode(rs[0].node) then [rs[0]] else [];
      MasterResponsesConcat(head, MasterResponses(rs[1..]));
      assert MasterResponses(head) == head by {
        if head != [] {
          assert head[1..] == [];
        }
      }
    }
  }
}
