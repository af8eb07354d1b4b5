/**
  The rewriting step of `Rewriting.performRewriting` and the alternative
  `_generateRewritingEventFromExtraction`. Once a rule (a compressed delta)
  has been picked for an extraction subgraph, its ids are made disjoint
  from the subgraph's, the rule's own extraction subgraph is matched into
  the one being rewritten, and the rule is relabelled by the first match
  found so that it applies where the extraction sits. The code then
  asserts that the relabelled rule adds as many edges as the rule did.
*/
module Rewriting {
  import opened Order
  import opened Wrappers
  import opened Graphs
  import opened Deltas
  import opened Labels
  import opened Extraction
  import opened Symmetry
  import opened Frames
  import opened Matching
  import opened MatchSoundness

  // ------------------------------------------------- counting 'Added' edges

  lemma TaggedAdd(big: map<Edge, Marked>, k: Edge, v: Marked)
    requires k !in big
    ensures |Tagged(big[k := v], {Added})| == |Tagged(big, {Added})| + (if v.tag == Added then 1 else 0)
  {
    if v.tag == Added {
      assert Tagged(big[k := v], {Added}) == Tagged(big, {Added}) + {k};
    } else {
      assert Tagged(big[k := v], {Added}) == Tagged(big, {Added});
    }
  }

  lemma TaggedRemove(m: map<Edge, Marked>, k: Edge)
    requires k in m
    ensures |Tagged(m, {Added})| == |Tagged(m - {k}, {Added})| + (if m[k].tag == Added then 1 else 0)
  {
    TaggedAdd(m - {k}, k, m[k]);
    assert (m - {k})[k := m[k]] == m;
  }

  /** Renaming the edges of `g` without merging two of them keeps the
      number tagged 'Added'. */
  lemma {:induction false} RenamedAddedEdges(g: Delta, m: map<Edge, Marked>, f: map<NodeId, NodeId>)
    requires WellFormed(g) && InjectiveOn(f, g.nodes.Keys)
    requires m.Keys <= g.edges.Keys
    ensures |Tagged(RenameEdges(g.directed, m, f), {Added})| == |Tagged(m, {Added})|
    decreases |m|
  {
    if |m| != 0 {
      var k := MinEdge(m.Keys);
      RenamedAddedEdges(g, m - {k}, f);
      if RenameEdge(g.directed, f, k) in RenameEdges(g.directed, m - {k}, f) {
        var e := EdgeOrigin(g.directed, m - {k}, f, RenameEdge(g.directed, f, k));
        RenameEdgeInjective(g, f, k, e);
      }
      TaggedAdd(RenameEdges(g.directed, m - {k}, f), RenameEdge(g.directed, f, k), m[k]);
      TaggedRemove(m, k);
    }
  }

  /** `getNumEdgesAdded` is the same before and after a non-merging
      `relabel_nodes`. */
  lemma RelabelAddedEdges(d: Delta, f: map<NodeId, NodeId>)
    requires WellFormed(d) && InjectiveOn(f, d.nodes.Keys)
    ensures |AddedEdges(Relabel(d, f))| == |AddedEdges(d)|
  {
    RenamedAddedEdges(d, d.edges, f);
  }

  // ------------------------------------------------------- performRewriting

  /** A match of the rule's extraction into `x` merges no two ids of the
      disjoint rule: matched ids land in `x`, the others keep ids `x`
      does not use. */
  lemma MatchInjective(x: Frame, d: Delta, p: Frame, state: Option<Name>, m: Mapping)
    requires Match(x, p, state, m)
    requires p.nodes.Keys <= d.nodes.Keys && d.nodes.Keys !! x.nodes.Keys
    ensures InjectiveOn(m, d.nodes.Keys)
  {
    assert Lands(x, m) && Injective(m);
  }

  /** Relabelling the disjoint rule by a match of its extraction subgraph
      into `x` keeps its 'Added' edges and merges nothing. */
  lemma MatchedEvent(x: Frame, d: Delta, p: Frame, state: Option<Name>, m: Mapping)
    requires WellFormed(d) && d.nodes.Keys !! x.nodes.Keys
    requires ExtractionSubgraph(d) == Ok(p) && Match(x, p, state, m)
    ensures |AddedEdges(Relabel(d, m))| == |AddedEdges(d)|
    ensures Renames(d, Relabel(d, m), m) && forall k :: k in m ==> m[k] in x.nodes
  {
    ExtractionNodes(d, p);
    MatchInjective(x, d, p, state, m);
    RelabelAddedEdges(d, m);
    RelabelRenames(d, m);
    assert Lands(x, m);
  }

  /** The rule relabelled by the first of the matches `ms`, if any. */
  function Place(d: Delta, ms: seq<Mapping>): Delta
  {
    if |ms| > 0 then Relabel(d, ms[0]) else d
  }

  /** Placing the disjoint rule by a match of its extraction subgraph into
      `x` renames it without merging, every renamed id landing on a node of
      `x`, and keeps the number of edges it adds. */
  lemma PlaceRenames(x: Frame, d: Delta, p: Frame, state: Option<Name>, ms: seq<Mapping>)
    requires WellFormed(d) && d.nodes.Keys !! x.nodes.Keys && ExtractionSubgraph(d) == Ok(p)
    requires forall m :: m in ms ==> Match(x, p, state, m)
    ensures |AddedEdges(Place(d, ms))| == |AddedEdges(d)|
    ensures exists f :: Renames(d, Place(d, ms), f) && forall k :: k in f ==> f[k] in x.nodes
  {
    if |ms| > 0 {
      assert ms[0] in ms;
      MatchedEvent(x, d, p, state, ms[0]);
    } else {
      RenamesItself(d);
      assert Renames(d, d, map[]);
    }
  }

  /** The event `performRewriting` builds for the extraction subgraph `x`
      and the chosen rule `delta`, with the state the matcher leaves: the
      rule made disjoint from `x`, relabelled by the first match of its
      extraction subgraph into `x` when there is one. */
  function Event(x: Frame, delta: Delta, state: Option<Name>, choose: Oracle): (r: Result<(Delta, Option<Name>)>)
    requires WellFormed(delta)
    ensures r.Err? ==> r.error in {KeyError, AttributeError, ValueError}
  {
    var d := MakeDisjoint(x.nodes.Keys, delta);
    var pattern :- ExtractionSubgraph(d);
    var found :- FindInstances(x, pattern, true, state, choose);
    Ok((Place(d, found.0), found.1))
  }

  /** The event is the disjoint rule renamed without merging, every
      renamed id landing on a node of `x`, and it adds as many edges. */
  lemma EventRenames(x: Frame, delta: Delta, state: Option<Name>, choose: Oracle)
    requires WellFormed(delta) && Event(x, delta, state, choose).Ok?
    ensures |AddedEdges(Event(x, delta, state, choose).value.0)| == |AddedEdges(MakeDisjoint(x.nodes.Keys, delta))|
    ensures exists f :: Renames(MakeDisjoint(x.nodes.Keys, delta), Event(x, delta, state, choose).value.0, f) &&
                        forall k :: k in f ==> f[k] in x.nodes
  {
    var d := MakeDisjoint(x.nodes.Keys, delta);
    var pattern := ExtractionSubgraph(d).value;
    var found := FindInstances(x, pattern, true, state, choose).value;
    FindSound(x, pattern, true, state, choose);
    PlaceRenames(x, d, pattern, found.1, found.0);
  }

  /** The relabel-and-assert step of `performRewriting`. The assertion
      would fail with `AssertionError`; the contract shows it cannot. */
  method RewriteEvent(x: Frame, delta: Delta, state: Option<Name>, choose: Oracle)
    returns (r: Result<(Delta, Option<Name>)>)
    requires WellFormed(delta)
    ensures r.Err? ==> r.error != AssertionError
    ensures r.Ok? ==> r == Event(x, delta, state, choose)
  {
    r := Event(x, delta, state, choose);
    if r.Ok? {
      EventRenames(x, delta, state, choose);
      var before := NumEdgesAdded(MakeDisjoint(x.nodes.Keys, delta));
      var after := NumEdgesAdded(r.value.0);
      if after != before {
        r := Err(AssertionError);
      }
    }
  }
}
