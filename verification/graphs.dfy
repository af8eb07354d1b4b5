/**
  The graph model shared by every component: a networkx-style graph with a
  directed flag, a dictionary of node attributes and a dictionary of edge
  attributes. An undirected edge is stored once, under its normalised pair
  (smaller id first). The payload type `A` is the attribute dictionary for
  plain frames and the tagged record `Marked` for delta graphs.
*/
module Graphs {
  import opened Order

  datatype Value = IntV(i: int) | StrV(s: string)
  type Name = string
  type Attrs = map<Name, Value>

  datatype Graph<A> = Graph(directed: bool, nodes: map<NodeId, A>, edges: map<Edge, A>)

  /** A plain snapshot whose nodes and edges carry attribute dictionaries. */
  type Frame = Graph<Attrs>

  /** The key under which the edge u-v is stored. */
  function Norm(directed: bool, u: NodeId, v: NodeId): (e: Edge)
    ensures directed ==> e.0 == u && e.1 == v
    ensures !directed ==> e.0 <= e.1 && ((e.0 == u && e.1 == v) || (e.0 == v && e.1 == u))
  {
    if directed || u <= v then (u, v) else (v, u)
  }

  /** Every edge joins two existing nodes; undirected edges are normalised. */
  ghost predicate WellFormed<A>(g: Graph<A>)
  {
    forall e :: e in g.edges ==> e.0 in g.nodes && e.1 in g.nodes && (g.directed || e.0 <= e.1)
  }

  /** networkx `has_edge(u, v)`. */
  predicate HasEdge<A>(g: Graph<A>, u: NodeId, v: NodeId)
  {
    Norm(g.directed, u, v) in g.edges
  }

  /** networkx `G.edge[u][v]`. */
  function EdgeData<A>(g: Graph<A>, u: NodeId, v: NodeId): A
    requires HasEdge(g, u, v)
  {
    g.edges[Norm(g.directed, u, v)]
  }

  function OutEdges<A>(g: Graph<A>, v: NodeId): set<Edge>
  {
    set e | e in g.edges && e.0 == v
  }

  function InEdges<A>(g: Graph<A>, v: NodeId): set<Edge>
  {
    set e | e in g.edges && e.1 == v
  }

  /** networkx `degree(v)`: in plus out for a digraph, the number of incident
      edge ends (a self-loop counts twice) for an undirected graph. */
  function Degree<A>(g: Graph<A>, v: NodeId): nat
  {
    |OutEdges(g, v)| + |InEdges(g, v)|
  }

  function OutDegree<A>(g: Graph<A>, v: NodeId): nat
  {
    |OutEdges(g, v)|
  }

  function InDegree<A>(g: Graph<A>, v: NodeId): nat
  {
    |InEdges(g, v)|
  }

  /** networkx `G.neighbors(u)` and `G.edge[u]`: successors in a digraph. */
  function Successors<A>(g: Graph<A>, u: NodeId): set<NodeId>
  {
    set v | v in g.nodes && HasEdge(g, u, v)
  }

  /** networkx `remove_node`: the node and every incident edge go. */
  function RemoveNode<A>(g: Graph<A>, x: NodeId): (r: Graph<A>)
    ensures r.directed == g.directed
    ensures r.nodes.Keys == g.nodes.Keys - {x}
    ensures forall v :: v in r.nodes ==> r.nodes[v] == g.nodes[v]
    ensures forall e :: e in r.edges <==> e in g.edges && e.0 != x && e.1 != x
    ensures forall e :: e in r.edges ==> r.edges[e] == g.edges[e]
  {
    Graph(g.directed, g.nodes - {x}, map e | e in g.edges && e.0 != x && e.1 != x :: g.edges[e])
  }

  lemma RemoveNodeWellFormed<A>(g: Graph<A>, x: NodeId)
    requires WellFormed(g)
    ensures WellFormed(RemoveNode(g, x))
  {
  }

  /** Removing a node keeps every remaining adjacency and edge payload and
      never raises a remaining node's degree. */
  lemma RemoveNodeKeepsStructure<A>(g: Graph<A>, x: NodeId, u: NodeId, v: NodeId)
    requires u != x && v != x
    ensures HasEdge(RemoveNode(g, x), u, v) <==> HasEdge(g, u, v)
    ensures HasEdge(g, u, v) ==> EdgeData(RemoveNode(g, x), u, v) == EdgeData(g, u, v)
    ensures Degree(RemoveNode(g, x), u) <= Degree(g, u)
    ensures InDegree(RemoveNode(g, x), u) <= InDegree(g, u)
    ensures OutDegree(RemoveNode(g, x), u) <= OutDegree(g, u)
  {
    var r := RemoveNode(g, x);
    assert OutEdges(r, u) <= OutEdges(g, u);
    assert InEdges(r, u) <= InEdges(g, u);
    SubsetCard(OutEdges(r, u), OutEdges(g, u));
    SubsetCard(InEdges(r, u), InEdges(g, u));
  }

  lemma SubsetCard<T>(a: set<T>, b: set<T>)
    requires a <= b
    ensures |a| <= |b|
  {
    assert b == a + (b - a);
  }

  // ---------------------------------------------------------------- relabel

  /** The id `x` receives under the relabelling `f` (unmapped ids stay). */
  function Ren(f: map<NodeId, NodeId>, x: NodeId): NodeId
  {
    if x in f then f[x] else x
  }

  /** `f` merges no two ids of `s`. */
  ghost predicate InjectiveOn(f: map<NodeId, NodeId>, s: set<NodeId>)
  {
    forall x, y :: x in s && y in s && Ren(f, x) == Ren(f, y) ==> x == y
  }

  function RenameEdge(directed: bool, f: map<NodeId, NodeId>, e: Edge): Edge
  {
    Norm(directed, Ren(f, e.0), Ren(f, e.1))
  }

  /** Normalising commutes with any renaming that keeps the four endpoints
      apart exactly as they were. */
  lemma NormInjective(directed: bool, a: NodeId, b: NodeId, c: NodeId, d: NodeId,
                      ra: NodeId, rb: NodeId, rc: NodeId, rd: NodeId)
    requires (ra == rc <==> a == c) && (ra == rd <==> a == d)
    requires (rb == rc <==> b == c) && (rb == rd <==> b == d)
    requires Norm(directed, ra, rb) == Norm(directed, rc, rd)
    ensures Norm(directed, a, b) == Norm(directed, c, d)
  {
  }

  /** Two stored edges with the same image are the same edge. */
  lemma RenameEdgeInjective<A>(g: Graph<A>, f: map<NodeId, NodeId>, e1: Edge, e2: Edge)
    requires WellFormed(g) && InjectiveOn(f, g.nodes.Keys)
    requires e1 in g.edges && e2 in g.edges
    requires RenameEdge(g.directed, f, e1) == RenameEdge(g.directed, f, e2)
    ensures e1 == e2
  {
    NormInjective(g.directed, e1.0, e1.1, e2.0, e2.1,
                  Ren(f, e1.0), Ren(f, e1.1), Ren(f, e2.0), Ren(f, e2.1));
    assert Norm(g.directed, e1.0, e1.1) == e1 && Norm(g.directed, e2.0, e2.1) == e2;
  }

  /** The node dictionary with every key renamed, built key by key. */
  function RenameNodes<A>(m: map<NodeId, A>, f: map<NodeId, NodeId>): map<NodeId, A>
    decreases |m|
  {
    if |m| == 0 then map[]
    else
      var k := MinNat(m.Keys);
      RenameNodes(m - {k}, f)[Ren(f, k) := m[k]]
  }

  /** The edge dictionary with every endpoint renamed, built edge by edge. */
  function RenameEdges<A>(directed: bool, m: map<Edge, A>, f: map<NodeId, NodeId>): map<Edge, A>
    decreases |m|
  {
    if |m| == 0 then map[]
    else
      var k := MinEdge(m.Keys);
      RenameEdges(directed, m - {k}, f)[RenameEdge(directed, f, k) := m[k]]
  }

  /** networkx `relabel_nodes(g, f, copy=True)`. */
  function Relabel<A>(g: Graph<A>, f: map<NodeId, NodeId>): Graph<A>
  {
    Graph(g.directed, RenameNodes(g.nodes, f), RenameEdges(g.directed, g.edges, f))
  }

  /** Every renamed node key is the image of an original key. */
  lemma {:induction false} NodeOrigin<A>(m: map<NodeId, A>, f: map<NodeId, NodeId>, y: NodeId)
    returns (x: NodeId)
    requires y in RenameNodes(m, f)
    ensures x in m && y == Ren(f, x)
    decreases |m|
  {
    var k := MinNat(m.Keys);
    if y == Ren(f, k) {
      x := k;
    } else {
      x := NodeOrigin(m - {k}, f, y);
    }
  }

  /** Every original node arrives under its new name with its payload. */
  lemma {:induction false} NodeCarried<A>(m: map<NodeId, A>, f: map<NodeId, NodeId>, x: NodeId)
    requires InjectiveOn(f, m.Keys) && x in m
    ensures Ren(f, x) in RenameNodes(m, f) && RenameNodes(m, f)[Ren(f, x)] == m[x]
    decreases |m|
  {
    var k := MinNat(m.Keys);
    if x != k {
      NodeCarried(m - {k}, f, x);
    }
  }

  lemma {:induction false} NodeCount<A>(m: map<NodeId, A>, f: map<NodeId, NodeId>)
    requires InjectiveOn(f, m.Keys)
    ensures |RenameNodes(m, f)| == |m|
    decreases |m|
  {
    if |m| != 0 {
      var k := MinNat(m.Keys);
      NodeCount(m - {k}, f);
      if Ren(f, k) in RenameNodes(m - {k}, f) {
        var x := NodeOrigin(m - {k}, f, Ren(f, k));
      }
    }
  }

  /** Every renamed edge key is the image of an original edge. */
  lemma {:induction false} EdgeOrigin<A>(directed: bool, m: map<Edge, A>, f: map<NodeId, NodeId>, e': Edge)
    returns (e: Edge)
    requires e' in RenameEdges(directed, m, f)
    ensures e in m && e' == RenameEdge(directed, f, e)
    decreases |m|
  {
    var k := MinEdge(m.Keys);
    if e' == RenameEdge(directed, f, k) {
      e := k;
    } else {
      e := EdgeOrigin(directed, m - {k}, f, e');
    }
  }

  /** Every original edge arrives under its new name with its payload. */
  lemma {:induction false} EdgeCarried<A>(g: Graph<A>, m: map<Edge, A>, f: map<NodeId, NodeId>, e: Edge)
    requires WellFormed(g) && InjectiveOn(f, g.nodes.Keys)
    requires m.Keys <= g.edges.Keys && e in m
    ensures RenameEdge(g.directed, f, e) in RenameEdges(g.directed, m, f)
    ensures RenameEdges(g.directed, m, f)[RenameEdge(g.directed, f, e)] == m[e]
    decreases |m|
  {
    var k := MinEdge(m.Keys);
    if e != k {
      EdgeCarried(g, m - {k}, f, e);
      if RenameEdge(g.directed, f, e) == RenameEdge(g.directed, f, k) {
        RenameEdgeInjective(g, f, k, e);
      }
    }
  }

  lemma {:induction false} EdgeCount<A>(g: Graph<A>, m: map<Edge, A>, f: map<NodeId, NodeId>)
    requires WellFormed(g) && InjectiveOn(f, g.nodes.Keys)
    requires m.Keys <= g.edges.Keys
    ensures |RenameEdges(g.directed, m, f)| == |m|
    decreases |m|
  {
    if |m| != 0 {
      var k := MinEdge(m.Keys);
      EdgeCount(g, m - {k}, f);
      if RenameEdge(g.directed, f, k) in RenameEdges(g.directed, m - {k}, f) {
        var e := EdgeOrigin(g.directed, m - {k}, f, RenameEdge(g.directed, f, k));
        RenameEdgeInjective(g, f, k, e);
      }
    }
  }

  /** Every node and edge of `g` arrives under its new name with its payload. */
  lemma RelabelCarries<A>(g: Graph<A>, f: map<NodeId, NodeId>)
    requires WellFormed(g) && InjectiveOn(f, g.nodes.Keys)
    ensures forall x :: x in g.nodes ==>
              Ren(f, x) in Relabel(g, f).nodes && Relabel(g, f).nodes[Ren(f, x)] == g.nodes[x]
    ensures forall e :: e in g.edges ==>
              RenameEdge(g.directed, f, e) in Relabel(g, f).edges &&
              Relabel(g, f).edges[RenameEdge(g.directed, f, e)] == g.edges[e]
  {
    forall x | x in g.nodes
      ensures Ren(f, x) in Relabel(g, f).nodes && Relabel(g, f).nodes[Ren(f, x)] == g.nodes[x]
    {
      NodeCarried(g.nodes, f, x);
    }
    forall e | e in g.edges
      ensures RenameEdge(g.directed, f, e) in Relabel(g, f).edges
      ensures Relabel(g, f).edges[RenameEdge(g.directed, f, e)] == g.edges[e]
    {
      EdgeCarried(g, g.edges, f, e);
    }
  }

  /** A non-merging relabelling keeps the graph well formed. */
  lemma RelabelWellFormed<A>(g: Graph<A>, f: map<NodeId, NodeId>)
    requires WellFormed(g) && InjectiveOn(f, g.nodes.Keys)
    ensures WellFormed(Relabel(g, f))
  {
    var r := Relabel(g, f);
    forall e' | e' in r.edges
      ensures e'.0 in r.nodes && e'.1 in r.nodes && (r.directed || e'.0 <= e'.1)
    {
      var e := EdgeOrigin(g.directed, g.edges, f, e');
      NodeCarried(g.nodes, f, e.0);
      NodeCarried(g.nodes, f, e.1);
    }
  }

  /** Adjacency is carried over exactly by a non-merging relabelling. */
  lemma RelabelHasEdge<A>(g: Graph<A>, f: map<NodeId, NodeId>, u: NodeId, v: NodeId)
    requires WellFormed(g) && InjectiveOn(f, g.nodes.Keys)
    requires u in g.nodes && v in g.nodes
    ensures HasEdge(Relabel(g, f), Ren(f, u), Ren(f, v)) <==> HasEdge(g, u, v)
  {
    var r := Relabel(g, f);
    if HasEdge(r, Ren(f, u), Ren(f, v)) {
      var e := EdgeOrigin(g.directed, g.edges, f, Norm(g.directed, Ren(f, u), Ren(f, v)));
      NormInjective(g.directed, e.0, e.1, u, v, Ren(f, e.0), Ren(f, e.1), Ren(f, u), Ren(f, v));
      assert Norm(g.directed, e.0, e.1) == e;
    }
    if HasEdge(g, u, v) {
      EdgeCarried(g, g.edges, f, Norm(g.directed, u, v));
      assert RenameEdge(g.directed, f, Norm(g.directed, u, v)) == Norm(g.directed, Ren(f, u), Ren(f, v));
    }
  }

  /** A non-merging relabelling keeps the node and edge counts. */
  lemma RelabelCounts<A>(g: Graph<A>, f: map<NodeId, NodeId>)
    requires WellFormed(g) && InjectiveOn(f, g.nodes.Keys)
    ensures |Relabel(g, f).nodes| == |g.nodes|
    ensures |Relabel(g, f).edges| == |g.edges|
  {
    NodeCount(g.nodes, f);
    EdgeCount(g, g.edges, f);
  }

  lemma {:induction false} NodesFixed<A>(m: map<NodeId, A>, f: map<NodeId, NodeId>)
    requires forall x :: x in m ==> Ren(f, x) == x
    ensures RenameNodes(m, f) == m
    decreases |m|
  {
    if |m| != 0 {
      var k := MinNat(m.Keys);
      NodesFixed(m - {k}, f);
      assert (m - {k})[k := m[k]] == m;
    }
  }

  lemma {:induction false} EdgesFixed<A>(directed: bool, m: map<Edge, A>, f: map<NodeId, NodeId>)
    requires forall e :: e in m ==> RenameEdge(directed, f, e) == e
    ensures RenameEdges(directed, m, f) == m
    decreases |m|
  {
    if |m| != 0 {
      var k := MinEdge(m.Keys);
      EdgesFixed(directed, m - {k}, f);
      assert (m - {k})[k := m[k]] == m;
    }
  }

  /** A relabelling that touches no node of `g` is the identity. */
  lemma RelabelUntouched<A>(g: Graph<A>, f: map<NodeId, NodeId>)
    requires WellFormed(g)
    requires forall x :: x in g.nodes ==> Ren(f, x) == x
    ensures InjectiveOn(f, g.nodes.Keys)
    ensures Relabel(g, f) == g
  {
    NodesFixed(g.nodes, f);
    forall e | e in g.edges ensures RenameEdge(g.directed, f, e) == e {
      assert Ren(f, e.0) == e.0 && Ren(f, e.1) == e.1;
    }
    EdgesFixed(g.directed, g.edges, f);
  }
}
