/**
  `Extraction.getExtractionSubgraphFromDelta` and `binaryStateOpposite`:
  recovering, from a delta graph, the part of the earlier snapshot that
  the change touched. Nodes are visited in ascending id order and edges in
  ascending order; the delta itself is an immutable value, so the copy the
  Python takes before popping tags needs no counterpart.
*/
module Extraction {
  import opened Order
  import opened Wrappers
  import opened Graphs
  import opened Deltas
  import opened Compression
  import opened Decompression
  import opened RoundTrip

  /** Tags of elements that existed before the change: 'Deleted' and 'None'. */
  predicate Prior(t: Tag)
  {
    t == Deleted || t == Unchanged
  }

  /** A 'StateChanged' entry that lacks its name/from/to record: popping
      those keys raises KeyError. */
  predicate Unrecorded(m: Marked)
  {
    m.tag == StateChanged && m.change.None?
  }

  /** The attributes a delta node had before the change: the payload once
      the tag is popped, and for a state change the three record keys
      popped and the changed attribute put back to its old value. */
  function Before(m: Marked): Attrs
  {
    if m.tag == StateChanged && m.change.Some? then m.attrs[m.change.value.name := m.change.value.from]
    else Payload(m)
  }

  /** The node loop over the delta ids `ids`, smallest first: every node
      not tagged 'Added' is copied with its prior attributes. */
  function ExtractNodes(d: Delta, ids: set<NodeId>): (r: Result<map<NodeId, Attrs>>)
    requires ids <= d.nodes.Keys
    ensures r.Err? <==> exists n :: n in ids && Unrecorded(d.nodes[n])
    ensures r.Err? ==> r.error == KeyError
    ensures r.Ok? ==> forall n :: n in r.value <==> n in ids && d.nodes[n].tag != Added
    ensures r.Ok? ==> forall n :: n in r.value ==> r.value[n] == Before(d.nodes[n])
    decreases |ids|
  {
    if ids == {} then Ok(map[])
    else
      var n := MinNat(ids);
      var m := d.nodes[n];
      if Unrecorded(m) then Err(KeyError)
      else
        var rest :- ExtractNodes(d, ids - {n});
        if m.tag == Added then Ok(rest) else Ok(rest[n := Before(m)])
  }

  /** Some kept edge of `es` ends at `n`. */
  ghost predicate KeptEnd(d: Delta, es: set<Edge>, n: NodeId)
    requires es <= d.edges.Keys
  {
    exists e :: e in es && Prior(d.edges[e].tag) && (e.0 == n || e.1 == n)
  }

  /** One turn of the edge loop: `add_edge(start, end)` with no attributes
      when the edge is tagged 'Deleted' or 'None'; an endpoint the subgraph
      lacks is added with an empty dictionary. */
  function KeepEdge(g: Frame, d: Delta, e: Edge): (r: Frame)
    requires WellFormed(d) && g.directed == d.directed && e in d.edges
    ensures r.directed == g.directed
    ensures forall x :: x in r.edges <==> x in g.edges || (x == e && Prior(d.edges[e].tag))
    ensures forall x :: x in g.edges ==> r.edges[x] == g.edges[x]
    ensures e in r.edges && e !in g.edges ==> r.edges[e] == map[]
    ensures forall n :: n in r.nodes <==> n in g.nodes || (Prior(d.edges[e].tag) && (e.0 == n || e.1 == n))
    ensures forall n :: n in g.nodes ==> r.nodes[n] == g.nodes[n]
    ensures forall n :: n in r.nodes && n !in g.nodes ==> r.nodes[n] == map[]
  {
    assert Norm(g.directed, e.0, e.1) == e;
    if Prior(d.edges[e].tag) then AddEdge(g, e.0, e.1, map[]) else g
  }

  /** The edge loop over the delta edges `es`, smallest first. */
  function KeepEdges(g: Frame, d: Delta, es: set<Edge>): (r: Frame)
    requires WellFormed(d) && g.directed == d.directed && es <= d.edges.Keys
    ensures r.directed == g.directed
    ensures forall e :: e in r.edges <==> e in g.edges || (e in es && Prior(d.edges[e].tag))
    ensures forall e :: e in g.edges ==> r.edges[e] == g.edges[e]
    ensures forall e :: e in r.edges && e !in g.edges ==> r.edges[e] == map[]
    ensures forall n :: n in r.nodes <==> n in g.nodes || KeptEnd(d, es, n)
    ensures forall n :: n in g.nodes ==> r.nodes[n] == g.nodes[n]
    ensures forall n :: n in r.nodes && n !in g.nodes ==> r.nodes[n] == map[]
    decreases |es|
  {
    if es == {} then g
    else
      var e := MinEdge(es);
      var r := KeepEdges(KeepEdge(g, d, e), d, es - {e});
      KeptEndStep(d, es, e);
      r
  }

  lemma KeptEndStep(d: Delta, es: set<Edge>, e: Edge)
    requires es <= d.edges.Keys && e in es
    ensures forall n :: KeptEnd(d, es, n) <==>
              KeptEnd(d, es - {e}, n) || (Prior(d.edges[e].tag) && (e.0 == n || e.1 == n))
  {
    forall n | KeptEnd(d, es, n)
      ensures KeptEnd(d, es - {e}, n) || (Prior(d.edges[e].tag) && (e.0 == n || e.1 == n))
    {
      var x :| x in es && Prior(d.edges[x].tag) && (x.0 == n || x.1 == n);
      if x != e {
        assert x in es - {e};
      }
    }
  }

  /** `getExtractionSubgraphFromDelta`: the node loop, then the edge loop.
      A state-changed node without its change record raises KeyError. */
  function ExtractionSubgraph(d: Delta): (r: Result<Frame>)
    requires WellFormed(d)
    ensures r.Err? <==> exists n :: n in d.nodes && Unrecorded(d.nodes[n])
    ensures r.Err? ==> r.error == KeyError
    ensures r.Ok? ==> r.value.directed == d.directed
  {
    var nodes :- ExtractNodes(d, d.nodes.Keys);
    Ok(KeepEdges(Graph(d.directed, nodes, map[]), d, d.edges.Keys))
  }

  /** The edges of the extraction subgraph: exactly the delta's edges tagged
      'Deleted' or 'None', each without attributes, and both endpoints of
      each are nodes of the subgraph. */
  lemma ExtractionEdges(d: Delta, r: Frame)
    requires WellFormed(d) && ExtractionSubgraph(d) == Ok(r)
    ensures forall e :: e in r.edges <==> e in d.edges && Prior(d.edges[e].tag)
    ensures forall e :: e in r.edges ==> r.edges[e] == map[]
    ensures WellFormed(r)
  {
    forall e | e in r.edges ensures e.0 in r.nodes && e.1 in r.nodes {
      assert KeptEnd(d, d.edges.Keys, e.0) && KeptEnd(d, d.edges.Keys, e.1);
    }
  }

  /** The two loops of a successful extraction: the node loop builds the
      graph `g`, and the edge loop extends it to `r`. */
  lemma SubgraphParts(d: Delta, r: Frame) returns (g: Frame)
    requires WellFormed(d) && ExtractionSubgraph(d) == Ok(r)
    ensures g.directed == d.directed && g.edges == map[]
    ensures ExtractNodes(d, d.nodes.Keys) == Ok(g.nodes)
    ensures r == KeepEdges(g, d, d.edges.Keys)
  {
    g := Graph(d.directed, ExtractNodes(d, d.nodes.Keys).value, map[]);
  }

  /** Some edge of `g` ends at `n`. */
  ghost predicate Incident(g: Frame, n: NodeId)
  {
    exists e :: e in g.edges && (e.0 == n || e.1 == n)
  }

  /** The nodes of the extraction subgraph: every delta node not tagged
      'Added', with the attributes it had before the change; an 'Added'
      node only with no attributes. */
  lemma ExtractionNodes(d: Delta, r: Frame)
    requires WellFormed(d) && ExtractionSubgraph(d) == Ok(r)
    ensures forall n :: n in d.nodes && d.nodes[n].tag != Added ==> n in r.nodes && r.nodes[n] == Before(d.nodes[n])
    ensures forall n :: n in r.nodes ==> n in d.nodes
    ensures forall n :: n in r.nodes && d.nodes[n].tag == Added ==> r.nodes[n] == map[]
  {
    var g := SubgraphParts(d, r);
    NodesOfParts(d, g, r);
  }

  lemma NodesOfParts(d: Delta, g: Frame, r: Frame)
    requires WellFormed(d)
    requires forall n :: n in g.nodes <==> n in d.nodes && d.nodes[n].tag != Added
    requires forall n :: n in g.nodes ==> g.nodes[n] == Before(d.nodes[n])
    requires forall n :: n in r.nodes <==> n in g.nodes || KeptEnd(d, d.edges.Keys, n)
    requires forall n :: n in g.nodes ==> r.nodes[n] == g.nodes[n]
    requires forall n :: n in r.nodes && n !in g.nodes ==> r.nodes[n] == map[]
    ensures forall n :: n in d.nodes && d.nodes[n].tag != Added ==> n in r.nodes && r.nodes[n] == Before(d.nodes[n])
    ensures forall n :: n in r.nodes ==> n in d.nodes
    ensures forall n :: n in r.nodes && d.nodes[n].tag == Added ==> r.nodes[n] == map[]
  {
    forall n | n in d.nodes && d.nodes[n].tag != Added ensures n in r.nodes && r.nodes[n] == Before(d.nodes[n]) {
      assert n in g.nodes;
    }
    forall n | n in r.nodes ensures n in d.nodes && (d.nodes[n].tag == Added ==> r.nodes[n] == map[]) {
      if n !in g.nodes {
        var e :| e in d.edges && Prior(d.edges[e].tag) && (e.0 == n || e.1 == n);
        assert e.0 in d.nodes && e.1 in d.nodes;
      }
    }
  }

  /** An 'Added' node enters the extraction subgraph only as the endpoint
      of a kept edge. */
  lemma AddedEndpoints(d: Delta, r: Frame)
    requires WellFormed(d) && ExtractionSubgraph(d) == Ok(r)
    ensures forall n :: n in r.nodes && n in d.nodes && d.nodes[n].tag == Added ==> Incident(r, n)
  {
    forall n | n in r.nodes && n in d.nodes && d.nodes[n].tag == Added ensures Incident(r, n) {
      assert KeptEnd(d, d.edges.Keys, n);
      var e :| e in d.edges && Prior(d.edges[e].tag) && (e.0 == n || e.1 == n);
      assert e in r.edges;
    }
  }

  /** `binaryStateOpposite`: 1 becomes 0, anything else becomes 1. */
  function BinaryStateOpposite(x: Value): (r: int)
    ensures r == 0 || r == 1
    ensures r == 0 <==> x == IntV(1)
  {
    if x == IntV(1) then 0 else 1
  }

  /** On the two binary states the opposite is an involution. */
  lemma OppositeInvolution(b: int)
    requires b == 0 || b == 1
    ensures BinaryStateOpposite(IntV(BinaryStateOpposite(IntV(b)))) == b
  {
  }

  // --------------------------------------------- on the compressor's deltas

  /** What the compressor records for one node, as the extraction reads it. */
  lemma CompressedNode(past: Frame, current: Frame, np: map<NodeId, Marked>, d: Delta, n: NodeId)
    requires !MissingPastKey(past, current) && np == NodePass(past, current)
    requires n in np ==> n in d.nodes && d.nodes[n] == np[n]
    requires n in d.nodes && n !in np ==>
               n in past.nodes && n in current.nodes && d.nodes[n].tag == Unchanged && d.nodes[n].change == None
    requires n in d.nodes
    ensures !Unrecorded(d.nodes[n])
    ensures d.nodes[n].tag != Added ==> n in past.nodes
    ensures d.nodes[n].tag == Deleted ==> Before(d.nodes[n]) == past.nodes[n]
    ensures d.nodes[n].tag == StateChanged ==>
              n in current.nodes && d.nodes[n].change.Some? &&
              Before(d.nodes[n]) == current.nodes[n][d.nodes[n].change.value.name := past.nodes[n][d.nodes[n].change.value.name]]
  {
    NodePassSpec(past, current, n);
  }

  /** The compressor records an edge as 'Deleted' or 'None' only when the
      earlier frame has it. */
  lemma CompressedEdge(past: Frame, current: Frame, em: map<Edge, Marked>, d: Delta, e: Edge)
    requires em == EdgeMarks(past, current)
    requires e in em ==> e in d.edges && d.edges[e] == em[e]
    requires e in d.edges && e !in em ==> e in past.edges && d.edges[e].tag == Unchanged
    requires e in d.edges && Prior(d.edges[e].tag)
    ensures e in past.edges
  {
  }

  /** Element by element, what the compressor's delta records that the
      extraction depends on. */
  lemma CompressedFacts(past: Frame, current: Frame, d: Delta)
    requires WellFormed(past) && WellFormed(current) && past.directed == current.directed
    requires Compress(past, current) == Ok(d)
    ensures WellFormed(d) && d.directed == past.directed
    ensures forall n :: n in d.nodes ==> !Unrecorded(d.nodes[n]) && (d.nodes[n].tag != Added ==> n in past.nodes)
    ensures forall n :: n in d.nodes && d.nodes[n].tag == Deleted ==> Before(d.nodes[n]) == past.nodes[n]
    ensures forall e :: e in d.edges && Prior(d.edges[e].tag) ==> e in past.edges
  {
    CompressSpec(past, current);
    var np := NodePass(past, current);
    var em := EdgeMarks(past, current);
    forall n | n in d.nodes
      ensures !Unrecorded(d.nodes[n]) && (d.nodes[n].tag != Added ==> n in past.nodes)
      ensures d.nodes[n].tag == Deleted ==> Before(d.nodes[n]) == past.nodes[n]
    {
      CompressedNode(past, current, np, d, n);
    }
    forall e | e in d.edges && Prior(d.edges[e].tag) ensures e in past.edges {
      CompressedEdge(past, current, em, d, e);
    }
  }

  /** An extraction subgraph lies inside any frame that has its delta's
      prior nodes and prior edges, and it gives deleted nodes the
      attributes that frame gives them. */
  lemma ExtractionInside(past: Frame, d: Delta, r: Frame)
    requires WellFormed(past) && WellFormed(d) && ExtractionSubgraph(d) == Ok(r)
    requires forall n :: n in d.nodes && d.nodes[n].tag != Added ==> n in past.nodes
    requires forall e :: e in d.edges && Prior(d.edges[e].tag) ==> e in past.edges
    requires forall n :: n in d.nodes && d.nodes[n].tag == Deleted ==> Before(d.nodes[n]) == past.nodes[n]
    ensures forall n :: n in r.nodes ==> n in past.nodes
    ensures forall e :: e in r.edges ==> e in past.edges
    ensures forall n :: n in d.nodes && d.nodes[n].tag == Deleted ==> r.nodes[n] == past.nodes[n]
  {
    ExtractionEdges(d, r);
    ExtractionNodes(d, r);
    AddedEndpoints(d, r);
    forall n | n in r.nodes && d.nodes[n].tag == Added ensures n in past.nodes {
      var e :| e in r.edges && (e.0 == n || e.1 == n);
    }
  }

  /** For a delta the compressor produced, the extraction subgraph is a
      subgraph of the earlier frame: every node and every edge it holds is
      in the earlier frame, and a deleted node keeps its old attributes. */
  lemma ExtractionOfCompressed(past: Frame, current: Frame, d: Delta) returns (r: Frame)
    requires WellFormed(past) && WellFormed(current) && past.directed == current.directed
    requires Compress(past, current) == Ok(d)
    ensures WellFormed(d) && ExtractionSubgraph(d) == Ok(r)
    ensures r.directed == past.directed
    ensures forall n :: n in r.nodes ==> n in past.nodes
    ensures forall e :: e in r.edges ==> e in past.edges
    ensures forall n :: n in d.nodes && d.nodes[n].tag == Deleted ==> r.nodes[n] == past.nodes[n]
  {
    CompressedFacts(past, current, d);
    r := Extracted(d);
    ExtractionInside(past, d, r);
  }

  /** With every change recorded, the extraction succeeds. */
  lemma Extracted(d: Delta) returns (r: Frame)
    requires WellFormed(d) && forall n :: n in d.nodes ==> !Unrecorded(d.nodes[n])
    ensures ExtractionSubgraph(d) == Ok(r)
  {
    r := ExtractionSubgraph(d).value;
  }
}
