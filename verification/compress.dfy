/**
  `NetworkFrames.compressNetworkFrames` for one pair of consecutive frames:
  the delta graph that records every node and edge that was added,
  deleted or changed state, together with the untouched elements needed
  to anchor those changes.

  The Python walks dictionaries in their insertion order. Here the node
  pass is order independent; the edge passes walk edges in ascending
  order, and the attribute name reported for a state change is the
  greatest differing name (the last one a dictionary walk meets).
*/
module Compression {
  import opened Order
  import opened Wrappers
  import opened Graphs
  import opened Deltas

  /** `processState.allStates`: per-node statistics that the node pass
      never compares. */
  const StatisticNames: set<Name> :=
    {"degree", "InDegree", "OutDegree", "ClusterCoefficient", "ClosenessCentrality", "BetweennessCentrality"}

  /** A node present in both frames has a non-statistic attribute that the
      past frame lacks: reading it from the past frame raises KeyError. */
  predicate MissingPastKey(past: Frame, current: Frame)
  {
    exists n, k :: n in current.nodes && n in past.nodes && k in current.nodes[n] &&
                   k !in StatisticNames && k !in past.nodes[n]
  }

  /** Non-statistic node attributes whose value differs between frames. */
  function NodeDiff(pa: Attrs, ca: Attrs): (d: set<Name>)
    requires forall k :: k in ca && k !in StatisticNames ==> k in pa
    // exposes membership to callers; what an empty diff means is NodeDiffEmpty
    ensures forall k :: k in d <==> k in ca && k !in StatisticNames && ca[k] != pa[k]
  {
    set k | k in ca && k !in StatisticNames && ca[k] != pa[k]
  }

  /** Edge attributes present in both frames whose value differs. */
  function EdgeDiff(pa: Attrs, ca: Attrs): (d: set<Name>)
    // exposes membership to callers; what an empty diff means is EdgeDiffEmpty
    ensures forall k :: k in d <==> k in pa && k in ca && ca[k] != pa[k]
  {
    set k | k in pa && k in ca && ca[k] != pa[k]
  }

  /** The change record of the last differing attribute. */
  function StateChange(pa: Attrs, ca: Attrs, diff: set<Name>): (c: Change)
    requires diff != {} && diff <= pa.Keys && diff <= ca.Keys
    ensures c.name in diff && c.from == pa[c.name] && c.to == ca[c.name]
  {
    var k := MaxName(diff);
    Change(k, pa[k], ca[k])
  }

  /** The node pass: every added, deleted or state-changed node. */
  function NodePass(past: Frame, current: Frame): map<NodeId, Marked>
    requires !MissingPastKey(past, current)
  {
    map n | n in current.nodes.Keys + past.nodes.Keys &&
            (n !in past.nodes || n !in current.nodes || NodeDiff(past.nodes[n], current.nodes[n]) != {}) ::
      if n !in past.nodes then Marked(Added, current.nodes[n], None)
      else if n !in current.nodes then Marked(Deleted, past.nodes[n], None)
      else
        var diff := NodeDiff(past.nodes[n], current.nodes[n]);
        Marked(StateChanged, current.nodes[n], Some(StateChange(past.nodes[n], current.nodes[n], diff)))
  }

  /** A node keeps its state exactly when the current frame agrees with the
      past one on every non-statistic attribute. */
  lemma NodeDiffEmpty(pa: Attrs, ca: Attrs)
    requires forall k :: k in ca && k !in StatisticNames ==> k in pa
    ensures NodeDiff(pa, ca) == {} <==> forall k :: k in ca && k !in StatisticNames ==> ca[k] == pa[k]
    ensures NodeDiff(pa, ca) <= ca.Keys - StatisticNames
  {
    if NodeDiff(pa, ca) == {} {
      forall k | k in ca && k !in StatisticNames ensures ca[k] == pa[k] {
        assert k !in NodeDiff(pa, ca);
      }
    }
  }

  /** An edge keeps its state exactly when both frames agree on every
      attribute they both have; attributes only one frame has are ignored. */
  lemma EdgeDiffEmpty(pa: Attrs, ca: Attrs)
    ensures EdgeDiff(pa, ca) == {} <==> forall k :: k in pa && k in ca ==> ca[k] == pa[k]
    ensures EdgeDiff(pa, ca) <= pa.Keys * ca.Keys
  {
    if EdgeDiff(pa, ca) == {} {
      forall k | k in pa && k in ca ensures ca[k] == pa[k] {
        assert k !in EdgeDiff(pa, ca);
      }
    }
  }

  /** What the edge passes record for `e`: added, deleted, changed state,
      or nothing. */
  function EdgeMark(past: Frame, current: Frame, e: Edge): Option<Marked>
  {
    if e in current.edges && e !in past.edges then Some(Marked(Added, current.edges[e], None))
    else if e in current.edges then
      var diff := EdgeDiff(past.edges[e], current.edges[e]);
      if diff == {} then None
      else Some(Marked(StateChanged, past.edges[e], Some(StateChange(past.edges[e], current.edges[e], diff))))
    else if e in past.edges then Some(Marked(Deleted, past.edges[e], None))
    else None
  }

  /** networkx `add_edge` on the delta adds a missing endpoint; the code
      then tags it 'None'. An endpoint already present is left alone. */
  function WithEndpoint(d: Delta, v: NodeId, m: Marked): (r: Delta)
    ensures r.directed == d.directed && r.edges == d.edges
    ensures r.nodes.Keys == d.nodes.Keys + {v}
    ensures forall n :: n in d.nodes ==> r.nodes[n] == d.nodes[n]
    ensures v !in d.nodes ==> r.nodes[v] == m
  {
    if v in d.nodes then d else d.(nodes := d.nodes[v := m])
  }

  /** Every edge the edge passes record, with its mark. */
  function EdgeMarks(past: Frame, current: Frame): (em: map<Edge, Marked>)
    // exposes the map's keys and values to callers; which edges are marked is EdgeMarked
    ensures forall e :: e in em <==> EdgeMark(past, current, e).Some?
    ensures forall e :: e in em ==> em[e] == EdgeMark(past, current, e).value
  {
    map e | e in current.edges.Keys + past.edges.Keys && EdgeMark(past, current, e).Some? ::
      EdgeMark(past, current, e).value
  }

  /** An edge is marked exactly when one frame alone has it or both have it
      with a differing attribute. An added edge carries its current
      attributes, a deleted one its past attributes, and a changed one its
      past attributes with the record of one differing attribute. */
  lemma EdgeMarked(past: Frame, current: Frame, e: Edge)
    ensures var em := EdgeMarks(past, current);
      e in em <==> (e in current.edges <==> e !in past.edges) ||
                   (e in past.edges && e in current.edges && EdgeDiff(past.edges[e], current.edges[e]) != {})
    ensures var em := EdgeMarks(past, current);
      e in em ==> em[e].tag != Unchanged
    ensures var em := EdgeMarks(past, current);
      e in em && em[e].tag == Added ==>
        e in current.edges && e !in past.edges && em[e] == Marked(Added, current.edges[e], None)
    ensures var em := EdgeMarks(past, current);
      e in em && em[e].tag == Deleted ==>
        e in past.edges && e !in current.edges && em[e] == Marked(Deleted, past.edges[e], None)
    ensures var em := EdgeMarks(past, current);
      e in em && em[e].tag == StateChanged ==>
        e in past.edges && e in current.edges && em[e].attrs == past.edges[e] && em[e].change.Some? &&
        em[e].change.value.name in EdgeDiff(past.edges[e], current.edges[e]) &&
        em[e].change.value.from == past.edges[e][em[e].change.value.name] &&
        em[e].change.value.to == current.edges[e][em[e].change.value.name]
  {
  }

  /** One step of the walk over the current frame's edges. */
  function AddedEdgeStep(past: Frame, current: Frame, em: map<Edge, Marked>, d: Delta, e: Edge): (r: Delta)
    requires e in current.edges && e.0 in current.nodes && e.1 in current.nodes
    ensures r.directed == d.directed
  {
    if e !in em then d
    else
      var old0 := if e in past.edges then map[] else current.nodes[e.0];
      var old1 := if e in past.edges then map[] else current.nodes[e.1];
      var d1 := WithEndpoint(WithEndpoint(d, e.0, Marked(Unchanged, old0, None)), e.1, Marked(Unchanged, old1, None));
      d1.(edges := d1.edges[e := em[e]])
  }

  function AddedEdgesPass(past: Frame, current: Frame, em: map<Edge, Marked>, d: Delta, es: seq<Edge>): (r: Delta)
    requires WellFormed(current)
    requires forall e :: e in es ==> e in current.edges
    ensures r.directed == d.directed
    decreases |es|
  {
    if es == [] then d
    else AddedEdgesPass(past, current, em, AddedEdgeStep(past, current, em, d, es[0]), es[1..])
  }

  /** One step of the walk over the past frame's edges. */
  function DeletedEdgeStep(past: Frame, current: Frame, d: Delta, e: Edge): (r: Delta)
    requires e in past.edges && e.0 in past.nodes && e.1 in past.nodes
    ensures r.directed == d.directed
  {
    if e in current.edges then d
    else
      var d1 := WithEndpoint(WithEndpoint(d, e.0, Marked(Unchanged, past.nodes[e.0], None)),
                             e.1, Marked(Unchanged, past.nodes[e.1], None));
      d1.(edges := d1.edges[e := Marked(Deleted, past.edges[e], None)])
  }

  function DeletedEdgesPass(past: Frame, current: Frame, d: Delta, es: seq<Edge>): (r: Delta)
    requires WellFormed(past)
    requires forall e :: e in es ==> e in past.edges
    ensures r.directed == d.directed
    decreases |es|
  {
    if es == [] then d
    else DeletedEdgesPass(past, current, DeletedEdgeStep(past, current, d, es[0]), es[1..])
  }

  /** The last pass: an edge present in both frames and not yet recorded
      is kept, tagged 'None', when both its endpoints are in the delta. */
  function UnchangedEdges(past: Frame, current: Frame, d: Delta): (r: Delta)
    ensures r.directed == d.directed && r.nodes == d.nodes
    ensures forall e :: e in d.edges ==> e in r.edges && r.edges[e] == d.edges[e]
  {
    d.(edges := d.edges +
      map e | e in past.edges && e in current.edges && e !in d.edges && e.0 in d.nodes && e.1 in d.nodes ::
        Marked(Unchanged, past.edges[e], None))
  }

  /** The delta between two consecutive frames. */
  function Compress(past: Frame, current: Frame): (r: Result<Delta>)
    requires WellFormed(past) && WellFormed(current) && past.directed == current.directed
    ensures r.Err? <==> MissingPastKey(past, current)
    ensures r.Err? ==> r.error == KeyError
    ensures r.Ok? ==> r.value.directed == past.directed
  {
    if MissingPastKey(past, current) then Err(KeyError)
    else
      var d0 := Graph(past.directed, NodePass(past, current), map[]);
      var d1 := AddedEdgesPass(past, current, EdgeMarks(past, current), d0, SortedEdges(current.edges.Keys));
      var d2 := DeletedEdgesPass(past, current, d1, SortedEdges(past.edges.Keys));
      Ok(UnchangedEdges(past, current, d2))
  }

  // ------------------------------------------------------------ properties

  /** The node pass tags exactly the nodes that appeared, disappeared or
      changed a non-statistic attribute, and records what it saw. */
  lemma NodePassSpec(past: Frame, current: Frame, n: NodeId)
    requires !MissingPastKey(past, current)
    ensures var np := NodePass(past, current);
      (n in np <==> (n in current.nodes && n !in past.nodes) || (n in past.nodes && n !in current.nodes) ||
                    (n in past.nodes && n in current.nodes && NodeDiff(past.nodes[n], current.nodes[n]) != {})) &&
      (n in np ==>
        (np[n].tag == Added <==> n !in past.nodes) &&
        (np[n].tag == Deleted <==> n !in current.nodes) &&
        (np[n].tag == StateChanged <==> n in past.nodes && n in current.nodes) &&
        (np[n].tag == Added ==> np[n].attrs == current.nodes[n] && np[n].change == None) &&
        (np[n].tag == Deleted ==> np[n].attrs == past.nodes[n] && np[n].change == None) &&
        (np[n].tag == StateChanged ==>
           np[n].attrs == current.nodes[n] && np[n].change.Some? &&
           np[n].change.value.name in NodeDiff(past.nodes[n], current.nodes[n]) &&
           np[n].change.value.from == past.nodes[n][np[n].change.value.name] &&
           np[n].change.value.to == current.nodes[n][np[n].change.value.name]))
  {
  }

  /** The node pass tags every node that only one frame has. */
  ghost predicate Covers(past: Frame, current: Frame, np: map<NodeId, Marked>)
  {
    (forall n :: n in current.nodes && n !in past.nodes ==> n in np) &&
    (forall n :: n in past.nodes && n !in current.nodes ==> n in np)
  }

  lemma NodePassCovers(past: Frame, current: Frame)
    requires !MissingPastKey(past, current)
    ensures Covers(past, current, NodePass(past, current))
  {
  }

  /** The nodes of a partial delta: the node pass, plus untouched anchors. */
  ghost predicate NodesInv(past: Frame, current: Frame, np: map<NodeId, Marked>, d: Delta)
  {
    (forall n :: n in np ==> n in d.nodes && d.nodes[n] == np[n]) &&
    (forall n :: n in d.nodes && n !in np ==>
       n in past.nodes && n in current.nodes && d.nodes[n].tag == Unchanged && d.nodes[n].change == None)
  }

  /** The edges of a partial delta, once the edge passes have walked the
      current frame's edges `da` and the past frame's edges `dd`. */
  ghost predicate EdgesInv(current: Frame, em: map<Edge, Marked>, d: Delta, da: seq<Edge>, dd: seq<Edge>)
  {
    (forall e :: e in d.edges ==> e in em && d.edges[e] == em[e]) &&
    (forall e :: e in d.edges ==> (e in da && e in current.edges) || (e in dd && e !in current.edges)) &&
    (forall e :: e in da && e in em ==> e in d.edges) &&
    (forall e :: e in dd && e in em && e !in current.edges ==> e in d.edges)
  }

  /** The marks recorded for edges only the past frame has. */
  ghost predicate MarksDeleted(past: Frame, current: Frame, em: map<Edge, Marked>)
  {
    forall e :: e in past.edges && e !in current.edges ==> e in em && em[e] == Marked(Deleted, past.edges[e], None)
  }

  /** Every edge of the delta has both endpoints in it. */
  ghost predicate Anchored(d: Delta)
  {
    forall e :: e in d.edges ==> e.0 in d.nodes && e.1 in d.nodes
  }

  lemma EndpointKeeps(past: Frame, current: Frame, np: map<NodeId, Marked>, d: Delta, v: NodeId, m: Marked)
    requires Covers(past, current, np) && NodesInv(past, current, np, d)
    requires v in past.nodes && v in current.nodes && m.tag == Unchanged && m.change == None
    ensures NodesInv(past, current, np, WithEndpoint(d, v, m))
  {
  }

  lemma AddedStepNodes(past: Frame, current: Frame, np: map<NodeId, Marked>, em: map<Edge, Marked>,
                       d: Delta, e: Edge)
    requires WellFormed(current) && Covers(past, current, np) && NodesInv(past, current, np, d)
    requires e in current.edges
    ensures NodesInv(past, current, np, AddedEdgeStep(past, current, em, d, e))
  {
    if e in em {
      var old0 := if e in past.edges then map[] else current.nodes[e.0];
      var old1 := if e in past.edges then map[] else current.nodes[e.1];
      var d0 := WithEndpoint(d, e.0, Marked(Unchanged, old0, None));
      var d1 := WithEndpoint(d0, e.1, Marked(Unchanged, old1, None));
      if e.0 !in d.nodes {
        EndpointKeeps(past, current, np, d, e.0, Marked(Unchanged, old0, None));
      }
      if e.1 !in d0.nodes {
        EndpointKeeps(past, current, np, d0, e.1, Marked(Unchanged, old1, None));
      }
      assert AddedEdgeStep(past, current, em, d, e).nodes == d1.nodes;
    }
  }

  lemma AddedStepEdges(past: Frame, current: Frame, em: map<Edge, Marked>, d: Delta, da: seq<Edge>, e: Edge)
    requires WellFormed(current) && EdgesInv(current, em, d, da, []) && Anchored(d)
    requires e in current.edges
    ensures var r := AddedEdgeStep(past, current, em, d, e);
      EdgesInv(current, em, r, da + [e], []) && Anchored(r)
  {
  }

  lemma AddedStepKeeps(past: Frame, current: Frame, np: map<NodeId, Marked>, em: map<Edge, Marked>,
                       d: Delta, da: seq<Edge>, e: Edge)
    requires WellFormed(current) && Covers(past, current, np)
    requires NodesInv(past, current, np, d) && EdgesInv(current, em, d, da, []) && Anchored(d)
    requires e in current.edges
    ensures var r := AddedEdgeStep(past, current, em, d, e);
      NodesInv(past, current, np, r) && EdgesInv(current, em, r, da + [e], []) && Anchored(r)
  {
    AddedStepNodes(past, current, np, em, d, e);
    AddedStepEdges(past, current, em, d, da, e);
  }

  lemma {:induction false} AddedPassKeeps(past: Frame, current: Frame, np: map<NodeId, Marked>,
                                          em: map<Edge, Marked>, d: Delta, da: seq<Edge>, es: seq<Edge>)
    requires WellFormed(current) && Covers(past, current, np)
    requires forall e :: e in es ==> e in current.edges
    requires NodesInv(past, current, np, d) && EdgesInv(current, em, d, da, []) && Anchored(d)
    ensures var r := AddedEdgesPass(past, current, em, d, es);
      NodesInv(past, current, np, r) && EdgesInv(current, em, r, da + es, []) && Anchored(r)
    decreases |es|
  {
    if es != [] {
      AddedStepKeeps(past, current, np, em, d, da, es[0]);
      AddedPassKeeps(past, current, np, em, AddedEdgeStep(past, current, em, d, es[0]), da + [es[0]], es[1..]);
      AppendHead(da, es);
    }
  }

  lemma DeletedStepNodes(past: Frame, current: Frame, np: map<NodeId, Marked>, d: Delta, e: Edge)
    requires WellFormed(past) && Covers(past, current, np) && NodesInv(past, current, np, d)
    requires e in past.edges
    ensures NodesInv(past, current, np, DeletedEdgeStep(past, current, d, e))
  {
    if e !in current.edges {
      var d0 := WithEndpoint(d, e.0, Marked(Unchanged, past.nodes[e.0], None));
      var d1 := WithEndpoint(d0, e.1, Marked(Unchanged, past.nodes[e.1], None));
      if e.0 !in d.nodes {
        EndpointKeeps(past, current, np, d, e.0, Marked(Unchanged, past.nodes[e.0], None));
      }
      if e.1 !in d0.nodes {
        EndpointKeeps(past, current, np, d0, e.1, Marked(Unchanged, past.nodes[e.1], None));
      }
      assert DeletedEdgeStep(past, current, d, e).nodes == d1.nodes;
    }
  }

  lemma DeletedStepEdges(past: Frame, current: Frame, em: map<Edge, Marked>, d: Delta,
                         da: seq<Edge>, dd: seq<Edge>, e: Edge)
    requires WellFormed(past) && MarksDeleted(past, current, em)
    requires EdgesInv(current, em, d, da, dd) && Anchored(d)
    requires e in past.edges
    ensures var r := DeletedEdgeStep(past, current, d, e);
      EdgesInv(current, em, r, da, dd + [e]) && Anchored(r)
  {
  }

  lemma DeletedStepKeeps(past: Frame, current: Frame, np: map<NodeId, Marked>, em: map<Edge, Marked>,
                         d: Delta, da: seq<Edge>, dd: seq<Edge>, e: Edge)
    requires WellFormed(past) && Covers(past, current, np) && MarksDeleted(past, current, em)
    requires NodesInv(past, current, np, d) && EdgesInv(current, em, d, da, dd) && Anchored(d)
    requires e in past.edges
    ensures var r := DeletedEdgeStep(past, current, d, e);
      NodesInv(past, current, np, r) && EdgesInv(current, em, r, da, dd + [e]) && Anchored(r)
  {
    DeletedStepNodes(past, current, np, d, e);
    DeletedStepEdges(past, current, em, d, da, dd, e);
  }

  lemma {:induction false} DeletedPassKeeps(past: Frame, current: Frame, np: map<NodeId, Marked>,
                                            em: map<Edge, Marked>, d: Delta, da: seq<Edge>, dd: seq<Edge>,
                                            es: seq<Edge>)
    requires WellFormed(past) && Covers(past, current, np) && MarksDeleted(past, current, em)
    requires forall e :: e in es ==> e in past.edges
    requires NodesInv(past, current, np, d) && EdgesInv(current, em, d, da, dd) && Anchored(d)
    ensures var r := DeletedEdgesPass(past, current, d, es);
      NodesInv(past, current, np, r) && EdgesInv(current, em, r, da, dd + es) && Anchored(r)
    decreases |es|
  {
    if es != [] {
      DeletedStepKeeps(past, current, np, em, d, da, dd, es[0]);
      DeletedPassKeeps(past, current, np, em, DeletedEdgeStep(past, current, d, es[0]), da, dd + [es[0]], es[1..]);
      AppendHead(dd, es);
    }
  }

  /** Once both walks are over, the delta holds exactly the marked edges. */
  lemma WalkedAll(past: Frame, current: Frame, em: map<Edge, Marked>, d: Delta, da: seq<Edge>, dd: seq<Edge>)
    requires EdgesInv(current, em, d, da, dd)
    requires forall e :: e in current.edges ==> e in da
    requires forall e :: e in past.edges ==> e in dd
    requires forall e :: e in em ==> e in current.edges || e in past.edges
    ensures d.edges.Keys == em.Keys
    ensures forall e :: e in d.edges ==> d.edges[e] == em[e]
  {
  }

  /** The delta after both edge walks records exactly the marked edges. */
  lemma EdgeWalks(past: Frame, current: Frame, np: map<NodeId, Marked>, em: map<Edge, Marked>)
    requires WellFormed(past) && WellFormed(current)
    requires Covers(past, current, np) && MarksDeleted(past, current, em)
    requires forall e :: e in em ==> e in current.edges || e in past.edges
    ensures var d1 := AddedEdgesPass(past, current, em, Graph(past.directed, np, map[]), SortedEdges(current.edges.Keys));
      var d2 := DeletedEdgesPass(past, current, d1, SortedEdges(past.edges.Keys));
      NodesInv(past, current, np, d2) && Anchored(d2) &&
      d2.edges.Keys == em.Keys && forall e :: e in d2.edges ==> d2.edges[e] == em[e]
  {
    var d0 := Graph(past.directed, np, map[]);
    var ca := SortedEdges(current.edges.Keys);
    var pa := SortedEdges(past.edges.Keys);
    AddedPassKeeps(past, current, np, em, d0, [], ca);
    var d1 := AddedEdgesPass(past, current, em, d0, ca);
    DeletedPassKeeps(past, current, np, em, d1, [] + ca, [], pa);
    var d2 := DeletedEdgesPass(past, current, d1, pa);
    WalkedAll(past, current, em, d2, [] + ca, [] + pa);
  }

  lemma EdgePasses(past: Frame, current: Frame)
    requires WellFormed(past) && WellFormed(current) && !MissingPastKey(past, current)
    ensures var np := NodePass(past, current);
      var em := EdgeMarks(past, current);
      var d1 := AddedEdgesPass(past, current, em, Graph(past.directed, np, map[]), SortedEdges(current.edges.Keys));
      var d2 := DeletedEdgesPass(past, current, d1, SortedEdges(past.edges.Keys));
      NodesInv(past, current, np, d2) && Anchored(d2) &&
      d2.edges.Keys == em.Keys && forall e :: e in d2.edges ==> d2.edges[e] == em[e]
  {
    NodePassCovers(past, current);
    EdgeWalks(past, current, NodePass(past, current), EdgeMarks(past, current));
  }

  /** The last pass keeps the node pass and the recorded edges, and adds
      a shared unrecorded edge, tagged 'None', exactly when both its
      endpoints are already present. */
  lemma UnchangedKeeps(past: Frame, current: Frame, np: map<NodeId, Marked>, em: map<Edge, Marked>, d: Delta)
    requires WellFormed(past) && WellFormed(current) && past.directed == current.directed
    requires d.directed == past.directed
    requires forall e :: e in em ==> e in current.edges || e in past.edges
    requires NodesInv(past, current, np, d) && Anchored(d)
    requires d.edges.Keys == em.Keys && forall e :: e in d.edges ==> d.edges[e] == em[e]
    ensures var r := UnchangedEdges(past, current, d);
      WellFormed(r) && NodesInv(past, current, np, r) &&
      (forall e :: e in em ==> e in r.edges && r.edges[e] == em[e]) &&
      (forall e :: e in r.edges && e !in em ==>
         e in past.edges && e in current.edges && r.edges[e] == Marked(Unchanged, past.edges[e], None)) &&
      (forall e :: e in past.edges && e in current.edges && e !in em && e.0 in r.nodes && e.1 in r.nodes ==>
         e in r.edges)
  {
    var r := UnchangedEdges(past, current, d);
    forall e | e in r.edges
      ensures e.0 in r.nodes && e.1 in r.nodes && (r.directed || e.0 <= e.1)
    {
      assert e in past.edges || e in current.edges;
    }
  }

  /** What the delta between two frames records, element by element: the
      node pass is kept as is, the extra nodes are untouched anchors, every
      changed edge is recorded with its mark, and every other edge of the
      delta is one both frames share, tagged 'None' with its past payload. */
  lemma CompressSpec(past: Frame, current: Frame)
    requires WellFormed(past) && WellFormed(current) && past.directed == current.directed
    requires !MissingPastKey(past, current)
    ensures var d := Compress(past, current).value;
      var np := NodePass(past, current);
      var em := EdgeMarks(past, current);
      WellFormed(d) && NodesInv(past, current, np, d) &&
      (forall e :: e in em ==> e in d.edges && d.edges[e] == em[e]) &&
      (forall e :: e in d.edges && e !in em ==>
         e in past.edges && e in current.edges && d.edges[e] == Marked(Unchanged, past.edges[e], None))
  {
    var np := NodePass(past, current);
    var em := EdgeMarks(past, current);
    var d1 := AddedEdgesPass(past, current, em, Graph(past.directed, np, map[]), SortedEdges(current.edges.Keys));
    var d2 := DeletedEdgesPass(past, current, d1, SortedEdges(past.edges.Keys));
    EdgePasses(past, current);
    UnchangedKeeps(past, current, np, em, d2);
  }

  /** An edge both frames share and neither edge walk recorded is in the
      delta exactly when both its endpoints are, tagged 'None' with its
      past attributes. */
  lemma CompressUnchangedEdge(past: Frame, current: Frame, e: Edge)
    requires WellFormed(past) && WellFormed(current) && past.directed == current.directed
    requires !MissingPastKey(past, current)
    requires e in past.edges && e in current.edges && e !in EdgeMarks(past, current)
    ensures var d := Compress(past, current).value;
      (e in d.edges <==> e.0 in d.nodes && e.1 in d.nodes) &&
      (e in d.edges ==> d.edges[e] == Marked(Unchanged, past.edges[e], None))
  {
    var np := NodePass(past, current);
    var em := EdgeMarks(past, current);
    var d1 := AddedEdgesPass(past, current, em, Graph(past.directed, np, map[]), SortedEdges(current.edges.Keys));
    var d2 := DeletedEdgesPass(past, current, d1, SortedEdges(past.edges.Keys));
    EdgePasses(past, current);
    UnchangedKeeps(past, current, np, em, d2);
  }

  /** An edge is tagged 'Added' exactly when only the current frame has
      it, 'Deleted' exactly when only the past frame has it, and
      'StateChanged' exactly when both have it with a differing attribute. */
  lemma CompressEdgeTags(past: Frame, current: Frame, e: Edge)
    requires WellFormed(past) && WellFormed(current) && past.directed == current.directed
    requires !MissingPastKey(past, current)
    ensures var d := Compress(past, current).value;
      (e in d.edges ==> e in past.edges || e in current.edges) &&
      (e in d.edges && d.edges[e].tag == Added <==> e in current.edges && e !in past.edges) &&
      (e in d.edges && d.edges[e].tag == Deleted <==> e in past.edges && e !in current.edges) &&
      (e in d.edges && d.edges[e].tag == StateChanged <==>
         e in past.edges && e in current.edges && EdgeDiff(past.edges[e], current.edges[e]) != {})
  {
    var d := Compress(past, current).value;
    var em := EdgeMarks(past, current);
    CompressSpec(past, current);
    EdgeTagFacts(past, current, d.edges, em, e);
  }

  /** The edge tags of `CompressEdgeTags`, from the facts `CompressSpec`
      gives about the delta's edge map `es` and the marks `em`, at one edge. */
  lemma EdgeTagFacts(past: Frame, current: Frame, es: map<Edge, Marked>, em: map<Edge, Marked>, e: Edge)
    requires e in em <==> EdgeMark(past, current, e).Some?
    requires e in em ==> em[e] == EdgeMark(past, current, e).value
    requires e in em ==> e in es && es[e] == em[e]
    requires e in es && e !in em ==> e in past.edges && e in current.edges && es[e].tag == Unchanged
    ensures e in es ==> e in past.edges || e in current.edges
    ensures e in es && es[e].tag == Added <==> e in current.edges && e !in past.edges
    ensures e in es && es[e].tag == Deleted <==> e in past.edges && e !in current.edges
    ensures e in es && es[e].tag == StateChanged <==>
      e in past.edges && e in current.edges && EdgeDiff(past.edges[e], current.edges[e]) != {}
  {
  }

  /** A node is tagged 'Added' exactly when only the current frame has it,
      'Deleted' exactly when only the past frame has it, and 'StateChanged'
      exactly when both have it with a differing non-statistic attribute. */
  lemma CompressNodeTags(past: Frame, current: Frame, n: NodeId)
    requires WellFormed(past) && WellFormed(current) && past.directed == current.directed
    requires !MissingPastKey(past, current)
    ensures var d := Compress(past, current).value;
      (n in d.nodes ==> n in past.nodes || n in current.nodes) &&
      (n in d.nodes && d.nodes[n].tag == Added <==> n in current.nodes && n !in past.nodes) &&
      (n in d.nodes && d.nodes[n].tag == Deleted <==> n in past.nodes && n !in current.nodes) &&
      (n in d.nodes && d.nodes[n].tag == StateChanged <==>
         n in past.nodes && n in current.nodes && NodeDiff(past.nodes[n], current.nodes[n]) != {})
  {
    CompressSpec(past, current);
    NodePassSpec(past, current, n);
  }
}
