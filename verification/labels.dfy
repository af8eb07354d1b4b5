/**
  `makeNodeLabelsDisjoint(keepLabels, makeUnique)`, which `Utility.py` and
  `Rewriting.py` define with the same body: while some node id of
  `makeUnique` is also a node id of `keepLabels`, the first such node is
  renamed to one more than the largest id of `makeUnique`, and the scan
  starts over. The kept graph matters only through its node ids.
*/
module Labels {
  import opened Order
  import opened Graphs

  /** Every node of `g` arrives in `r` under its new id with its payload. */
  ghost predicate NodesCarried<A>(g: Graph<A>, r: Graph<A>, f: map<NodeId, NodeId>)
  {
    forall x :: x in g.nodes ==> Ren(f, x) in r.nodes && r.nodes[Ren(f, x)] == g.nodes[x]
  }

  /** Adjacency and edge payloads between renamed nodes are those of `g`. */
  ghost predicate EdgesCarried<A>(g: Graph<A>, r: Graph<A>, f: map<NodeId, NodeId>)
  {
    (forall u, v :: u in g.nodes && v in g.nodes ==>
       (HasEdge(r, Ren(f, u), Ren(f, v)) <==> HasEdge(g, u, v))) &&
    (forall u, v :: u in g.nodes && v in g.nodes && HasEdge(g, u, v) ==>
       EdgeData(r, Ren(f, u), Ren(f, v)) == EdgeData(g, u, v))
  }

  /** `r` is `g` with every node `x` renamed to `Ren(f, x)`: no two nodes
      merge, and nodes, adjacency and payloads carry over exactly. */
  ghost predicate Renames<A>(g: Graph<A>, r: Graph<A>, f: map<NodeId, NodeId>)
  {
    WellFormed(r) && r.directed == g.directed &&
    InjectiveOn(f, g.nodes.Keys) &&
    |r.nodes| == |g.nodes| && |r.edges| == |g.edges| &&
    NodesCarried(g, r, f) && EdgesCarried(g, r, f)
  }

  /** The ids of `g` that are also kept ids. */
  function Clashes<A>(keep: set<NodeId>, g: Graph<A>): set<NodeId>
  {
    g.nodes.Keys * keep
  }

  /** How far the largest id of `g` is below the largest kept id. */
  function Room<A>(keep: set<NodeId>, g: Graph<A>): nat
  {
    if keep == {} || g.nodes.Keys == {} then 0
    else if MaxNat(g.nodes.Keys) <= MaxNat(keep) then MaxNat(keep) - MaxNat(g.nodes.Keys)
    else 0
  }

  /** One rename of the loop: node `x` becomes the unused id `y`. */
  function Move<A>(g: Graph<A>, x: NodeId, y: NodeId): Graph<A>
  {
    Relabel(g, map[x := y])
  }

  lemma MoveInjective(keys: set<NodeId>, x: NodeId, y: NodeId)
    requires y !in keys
    ensures InjectiveOn(map[x := y], keys)
  {
  }

  /** A non-merging relabelling carries adjacency and edge payloads. */
  lemma RelabelEdges<A>(g: Graph<A>, f: map<NodeId, NodeId>)
    requires WellFormed(g) && InjectiveOn(f, g.nodes.Keys)
    ensures EdgesCarried(g, Relabel(g, f), f)
  {
    var r := Relabel(g, f);
    forall u, v | u in g.nodes && v in g.nodes
      ensures HasEdge(r, Ren(f, u), Ren(f, v)) <==> HasEdge(g, u, v)
      ensures HasEdge(g, u, v) ==> EdgeData(r, Ren(f, u), Ren(f, v)) == EdgeData(g, u, v)
    {
      RelabelHasEdge(g, f, u, v);
      if HasEdge(g, u, v) {
        EdgeCarried(g, g.edges, f, Norm(g.directed, u, v));
        assert RenameEdge(g.directed, f, Norm(g.directed, u, v)) == Norm(g.directed, Ren(f, u), Ren(f, v));
      }
    }
  }

  /** networkx `relabel_nodes` with a non-merging map renames the graph. */
  lemma RelabelRenames<A>(g: Graph<A>, f: map<NodeId, NodeId>)
    requires WellFormed(g) && InjectiveOn(f, g.nodes.Keys)
    ensures Renames(g, Relabel(g, f), f)
  {
    RelabelWellFormed(g, f);
    RelabelCounts(g, f);
    assert NodesCarried(g, Relabel(g, f), f) by {
      RelabelCarries(g, f);
    }
    RelabelEdges(g, f);
  }

  lemma MoveRenames<A>(g: Graph<A>, x: NodeId, y: NodeId)
    requires WellFormed(g) && y !in g.nodes
    ensures Renames(g, Move(g, x, y), map[x := y])
  {
    MoveInjective(g.nodes.Keys, x, y);
    RelabelRenames(g, map[x := y]);
  }

  lemma MoveKeys<A>(g: Graph<A>, x: NodeId, y: NodeId)
    requires WellFormed(g) && x in g.nodes && y !in g.nodes
    ensures forall z :: z in Move(g, x, y).nodes ==> z == y || (z in g.nodes && z != x)
    ensures y in Move(g, x, y).nodes && Move(g, x, y).nodes[y] == g.nodes[x]
    ensures forall z :: z in g.nodes && z != x ==> z in Move(g, x, y).nodes && Move(g, x, y).nodes[z] == g.nodes[z]
  {
    var f := map[x := y];
    var r := Move(g, x, y);
    MoveInjective(g.nodes.Keys, x, y);
    forall z | z in r.nodes
      ensures z == y || (z in g.nodes && z != x)
    {
      var w := NodeOrigin(g.nodes, f, z);
    }
    NodeCarried(g.nodes, f, x);
    forall z | z in g.nodes && z != x
      ensures z in r.nodes && r.nodes[z] == g.nodes[z]
    {
      NodeCarried(g.nodes, f, z);
    }
  }

  /** The id a clashing node receives: one more than the largest id. */
  function Fresh<A>(g: Graph<A>): (y: NodeId)
    requires g.nodes.Keys != {}
    ensures y !in g.nodes && forall z :: z in g.nodes ==> z < y
  {
    MaxNat(g.nodes.Keys) + 1
  }

  lemma Swap(a: set<NodeId>, b: set<NodeId>, x: NodeId, y: NodeId)
    requires forall z :: z in a <==> z == y || (z in b && z != x)
    ensures a == b - {x} + {y}
  {
  }

  lemma SwapClashes(a: set<NodeId>, b: set<NodeId>, keep: set<NodeId>, x: NodeId, y: NodeId)
    requires a == b - {x} + {y} && x in b * keep && y !in b
    ensures y in keep ==> |a * keep| == |b * keep|
    ensures y !in keep ==> |a * keep| == |b * keep| - 1
  {
    if y in keep {
      assert a * keep == (b * keep) - {x} + {y};
    } else {
      assert a * keep == (b * keep) - {x};
    }
  }

  /** One pass of the loop: the renamed graph has fewer clashes, or as
      many and less room below the largest kept id. */
  lemma Step<A>(keep: set<NodeId>, g: Graph<A>, x: NodeId)
    requires WellFormed(g) && x in Clashes(keep, g)
    ensures WellFormed(Move(g, x, Fresh(g))) && Move(g, x, Fresh(g)).directed == g.directed
    ensures |Move(g, x, Fresh(g)).nodes| == |g.nodes| && |Move(g, x, Fresh(g)).edges| == |g.edges|
    ensures forall z :: z in Move(g, x, Fresh(g)).nodes ==> z == Fresh(g) || (z in g.nodes && z != x)
    ensures forall z :: z in g.nodes && z != x ==>
              z in Move(g, x, Fresh(g)).nodes && Move(g, x, Fresh(g)).nodes[z] == g.nodes[z]
    ensures Fresh(g) in Move(g, x, Fresh(g)).nodes
    ensures forall z :: z in Move(g, x, Fresh(g)).nodes ==> z < Fresh(Move(g, x, Fresh(g)))
    ensures |Clashes(keep, Move(g, x, Fresh(g)))| < |Clashes(keep, g)| ||
            (|Clashes(keep, Move(g, x, Fresh(g)))| == |Clashes(keep, g)| &&
             Room(keep, Move(g, x, Fresh(g))) < Room(keep, g))
  {
    var y := Fresh(g);
    MoveRenames(g, x, y);
    MoveKeys(g, x, y);
    var h := Move(g, x, y);
    assert forall z :: z in h.nodes.Keys <==> z == y || (z in g.nodes.Keys && z != x);
    Swap(h.nodes.Keys, g.nodes.Keys, x, y);
    assert MaxNat(h.nodes.Keys) == y by {
      var m := MaxNat(h.nodes.Keys);
      assert y in h.nodes.Keys;
    }
    SwapClashes(h.nodes.Keys, g.nodes.Keys, keep, x, y);
    if y in keep {
      assert y <= MaxNat(keep);
    }
  }

  /** `makeNodeLabelsDisjoint(keepLabels, g)` for `keepLabels` with node
      ids `keep`: no id of the result is kept, no node or edge is lost, a
      node whose id was not kept stays as it was, and a graph without a
      clash is returned unchanged. */
  function MakeDisjoint<A>(keep: set<NodeId>, g: Graph<A>): (r: Graph<A>)
    requires WellFormed(g)
    ensures WellFormed(r) && r.directed == g.directed
    ensures r.nodes.Keys !! keep
    ensures |r.nodes| == |g.nodes| && |r.edges| == |g.edges|
    ensures forall x :: x in g.nodes && x !in keep ==> x in r.nodes && r.nodes[x] == g.nodes[x]
    ensures Clashes(keep, g) == {} ==> r == g
    decreases |Clashes(keep, g)|, Room(keep, g)
  {
    var clash := Clashes(keep, g);
    if clash == {} then
      assert forall z :: z in g.nodes.Keys ==> z !in keep by {
        forall z | z in g.nodes.Keys
          ensures z !in keep
        {
          assert z in keep ==> z in clash;
        }
      }
      g
    else
      var x := MinNat(clash);
      Step(keep, g, x);
      MakeDisjoint(keep, Move(g, x, Fresh(g)))
  }

  /** Renaming by `f` and then by `f2`, as one map on the ids `keys`. */
  function Compose(f: map<NodeId, NodeId>, f2: map<NodeId, NodeId>, keys: set<NodeId>): (c: map<NodeId, NodeId>)
    ensures forall x :: x in keys ==> Ren(c, x) == Ren(f2, Ren(f, x))
  {
    map x | x in keys :: Ren(f2, Ren(f, x))
  }

  lemma ComposeInjective<A>(g: Graph<A>, h: Graph<A>, f: map<NodeId, NodeId>, f2: map<NodeId, NodeId>)
    requires InjectiveOn(f, g.nodes.Keys) && InjectiveOn(f2, h.nodes.Keys)
    requires forall x :: x in g.nodes ==> Ren(f, x) in h.nodes
    ensures InjectiveOn(Compose(f, f2, g.nodes.Keys), g.nodes.Keys)
  {
  }

  lemma ComposeNodes<A>(g: Graph<A>, h: Graph<A>, r: Graph<A>, f: map<NodeId, NodeId>, f2: map<NodeId, NodeId>)
    requires NodesCarried(g, h, f) && NodesCarried(h, r, f2)
    ensures NodesCarried(g, r, Compose(f, f2, g.nodes.Keys))
  {
  }

  lemma ComposeEdges<A>(g: Graph<A>, h: Graph<A>, r: Graph<A>, f: map<NodeId, NodeId>, f2: map<NodeId, NodeId>)
    requires NodesCarried(g, h, f) && EdgesCarried(g, h, f) && EdgesCarried(h, r, f2)
    ensures EdgesCarried(g, r, Compose(f, f2, g.nodes.Keys))
  {
    var c := Compose(f, f2, g.nodes.Keys);
    forall u, v | u in g.nodes && v in g.nodes
      ensures HasEdge(r, Ren(c, u), Ren(c, v)) <==> HasEdge(g, u, v)
      ensures HasEdge(g, u, v) ==> EdgeData(r, Ren(c, u), Ren(c, v)) == EdgeData(g, u, v)
    {
      assert Ren(f, u) in h.nodes && Ren(f, v) in h.nodes;
    }
  }

  lemma ComposeRenames<A>(g: Graph<A>, h: Graph<A>, r: Graph<A>, f: map<NodeId, NodeId>, f2: map<NodeId, NodeId>)
    requires Renames(g, h, f) && Renames(h, r, f2)
    ensures Renames(g, r, Compose(f, f2, g.nodes.Keys))
  {
    ComposeInjective(g, h, f, f2);
    ComposeNodes(g, h, r, f, f2);
    ComposeEdges(g, h, r, f, f2);
  }

  lemma RenamesItself<A>(g: Graph<A>)
    requires WellFormed(g)
    ensures Renames(g, g, map[])
  {
    forall x | x in g.nodes
      ensures Ren(map[], x) == x
    {
    }
  }

  /** The renaming `MakeDisjoint` performs, as one map: every clashing id
      moves above the largest id `g` had, every other id stays put. */
  function DisjointMap<A>(keep: set<NodeId>, g: Graph<A>): (f: map<NodeId, NodeId>)
    requires WellFormed(g)
    ensures forall x :: x in g.nodes && x !in keep ==> Ren(f, x) == x
    ensures forall x :: x in g.nodes && x in keep ==> Ren(f, x) > MaxNat(g.nodes.Keys)
    decreases |Clashes(keep, g)|, Room(keep, g)
  {
    var clash := Clashes(keep, g);
    if clash == {} then
      assert forall z :: z in g.nodes ==> z !in keep by {
        forall z | z in g.nodes
          ensures z !in keep
        {
          assert z in keep ==> z in clash;
        }
      }
      map[]
    else
      var x := MinNat(clash);
      var y := Fresh(g);
      Step(keep, g, x);
      var h := Move(g, x, y);
      var f2 := DisjointMap(keep, h);
      assert y <= MaxNat(h.nodes.Keys);
      ComposedIds(keep, g.nodes.Keys, h.nodes.Keys, x, y, f2);
      Compose(map[x := y], f2, g.nodes.Keys)
  }

  /** The result of `MakeDisjoint` is `g` renamed by `DisjointMap` without
      merging nodes, with adjacency and payloads carried over. */
  lemma {:induction false} DisjointRenames<A>(keep: set<NodeId>, g: Graph<A>)
    requires WellFormed(g)
    ensures Renames(g, MakeDisjoint(keep, g), DisjointMap(keep, g))
    decreases |Clashes(keep, g)|, Room(keep, g)
  {
    var clash := Clashes(keep, g);
    if clash == {} {
      RenamesItself(g);
    } else {
      var x := MinNat(clash);
      var y := Fresh(g);
      Step(keep, g, x);
      var h := Move(g, x, y);
      DisjointRenames(keep, h);
      MoveRenames(g, x, y);
      ComposeRenames(g, h, MakeDisjoint(keep, h), map[x := y], DisjointMap(keep, h));
    }
  }

  /** How the ids fare under the first rename followed by the rest. */
  lemma ComposedIds(keep: set<NodeId>, gs: set<NodeId>, hs: set<NodeId>, x: NodeId, y: NodeId, f2: map<NodeId, NodeId>)
    requires x in gs && x in keep && y in hs && y !in gs && gs != {} && y > MaxNat(gs)
    requires forall z :: z in gs && z != x ==> z in hs
    requires forall z :: z in hs && z !in keep ==> Ren(f2, z) == z
    requires forall z :: z in hs && z in keep ==> Ren(f2, z) >= y
    ensures forall z :: z in gs && z !in keep ==> Ren(Compose(map[x := y], f2, gs), z) == z
    ensures forall z :: z in gs && z in keep ==> Ren(Compose(map[x := y], f2, gs), z) > MaxNat(gs)
  {
    var f := Compose(map[x := y], f2, gs);
    forall z | z in gs
      ensures z !in keep ==> Ren(f, z) == z
      ensures z in keep ==> Ren(f, z) > MaxNat(gs)
    {
      if z == x {
        assert Ren(f, z) == Ren(f2, y);
      } else {
        assert Ren(f, z) == Ren(f2, z);
      }
    }
  }
}
