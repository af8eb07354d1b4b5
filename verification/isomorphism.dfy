/**
  The exhaustive isomorphism tests: `isIsomorphic` (`Rewriting.py`) and
  `isIsomorphicFast` (`Utility.py`). Both reject graphs whose sorted degree
  lists differ, then draw permutations of the first graph's node list at
  random, pairing position `i` of the permutation with position `i` of the
  second graph's node list, until one passes the node check and the edge
  check or none is left. The fast variant also compares edge attributes.

  The random draws are the parameter `tries`: the permutations in the
  order they are drawn. Two sorted lists are equal exactly when they hold
  the same multiset, so the degree filter compares degree multisets.
*/
module Isomorphism {
  import opened Order
  import opened Wrappers
  import opened Graphs

  /** networkx `G.nodes()`, in ascending id order. */
  function NodeList(g: Frame): (ns: seq<NodeId>)
    ensures |ns| == |g.nodes.Keys|
    ensures Perm(ns, g.nodes.Keys)
  {
    var ns := SortedNats(g.nodes.Keys);
    IncreasingDistinct(ns);
    ns
  }

  /** The sorted list `G.degree().values()`, as a multiset. */
  function Degrees(g: Frame): (d: multiset<nat>)
    ensures |d| == |g.nodes.Keys|
  {
    var ns := NodeList(g);
    multiset(seq(|ns|, i requires 0 <= i < |ns| => Degree(g, ns[i])))
  }

  /** `p` lists every id of `keys` exactly once. */
  ghost predicate Perm(p: seq<NodeId>, keys: set<NodeId>)
  {
    |p| == |keys| && Distinct(p) &&
    (forall i :: 0 <= i < |p| ==> p[i] in keys) &&
    (forall x :: x in keys ==> x in p)
  }

  /** Python's `list.index`: the first position of `x`. */
  function IndexOf(xs: seq<NodeId>, x: NodeId): (i: nat)
    requires x in xs
    ensures i < |xs| && xs[i] == x
    ensures forall j :: 0 <= j < i ==> xs[j] != x
  {
    if xs[0] == x then 0 else 1 + IndexOf(xs[1..], x)
  }

  lemma IndexOfDistinct(p: seq<NodeId>, i: nat)
    requires Distinct(p) && i < |p|
    ensures IndexOf(p, p[i]) == i
  {
  }

  /** The node check: position by position, equal attribute dictionaries. */
  predicate NodesAgree(g1: Frame, g2: Frame, p: seq<NodeId>, q: seq<NodeId>)
    requires |p| == |q|
    requires forall i :: 0 <= i < |p| ==> p[i] in g1.nodes && q[i] in g2.nodes
  {
    forall i :: 0 <= i < |p| ==> g1.nodes[p[i]] == g2.nodes[q[i]]
  }

  /** The edge check at position `i`, in both directions: every successor
      of `p[i]` corresponds to a successor of `q[i]`, and back. */
  predicate AdjacentAt(g1: Frame, g2: Frame, p: seq<NodeId>, q: seq<NodeId>, i: nat)
    requires |p| == |q| && i < |p|
    requires Perm(p, g1.nodes.Keys) && Perm(q, g2.nodes.Keys)
  {
    (forall s :: s in Successors(g1, p[i]) ==> HasEdge(g2, q[i], q[IndexOf(p, s)])) &&
    (forall t :: t in Successors(g2, q[i]) ==> HasEdge(g1, p[i], p[IndexOf(q, t)]))
  }

  /** The edge-attribute part of the fast variant's edge check at `i`. */
  predicate DataAt(g1: Frame, g2: Frame, p: seq<NodeId>, q: seq<NodeId>, i: nat)
    requires |p| == |q| && i < |p|
    requires Perm(p, g1.nodes.Keys) && Perm(q, g2.nodes.Keys)
    requires AdjacentAt(g1, g2, p, q, i)
  {
    (forall s :: s in Successors(g1, p[i]) ==>
       EdgeData(g1, p[i], s) == EdgeData(g2, q[i], q[IndexOf(p, s)])) &&
    (forall t :: t in Successors(g2, q[i]) ==>
       EdgeData(g1, p[i], p[IndexOf(q, t)]) == EdgeData(g2, q[i], t))
  }

  predicate Adjacent(g1: Frame, g2: Frame, p: seq<NodeId>, q: seq<NodeId>)
    requires |p| == |q|
    requires Perm(p, g1.nodes.Keys) && Perm(q, g2.nodes.Keys)
  {
    forall i :: 0 <= i < |p| ==> AdjacentAt(g1, g2, p, q, i)
  }

  predicate DataAgree(g1: Frame, g2: Frame, p: seq<NodeId>, q: seq<NodeId>)
    requires |p| == |q|
    requires Perm(p, g1.nodes.Keys) && Perm(q, g2.nodes.Keys)
    requires Adjacent(g1, g2, p, q)
  {
    forall i :: 0 <= i < |p| ==> DataAt(g1, g2, p, q, i)
  }

  /** One draw passes the node check and the edge check. */
  predicate Works(g1: Frame, g2: Frame, p: seq<NodeId>, q: seq<NodeId>, withData: bool)
    requires |p| == |q|
    requires Perm(p, g1.nodes.Keys) && Perm(q, g2.nodes.Keys)
  {
    NodesAgree(g1, g2, p, q) && Adjacent(g1, g2, p, q) &&
    (withData ==> DataAgree(g1, g2, p, q))
  }

  /** The mapping a draw stands for: `p[i]` goes to `q[i]`. */
  function Pairing(p: seq<NodeId>, q: seq<NodeId>): (f: map<NodeId, NodeId>)
    requires |p| == |q|
    ensures forall x :: x in f <==> x in p
    ensures forall x :: x in p ==> f[x] == q[IndexOf(p, x)]
  {
    map x | x in p :: q[IndexOf(p, x)]
  }

  lemma PairingAt(p: seq<NodeId>, q: seq<NodeId>)
    requires |p| == |q| && Distinct(p)
    ensures forall i :: 0 <= i < |p| ==> Pairing(p, q)[p[i]] == q[i]
  {
    forall i | 0 <= i < |p|
      ensures Pairing(p, q)[p[i]] == q[i]
    {
      IndexOfDistinct(p, i);
    }
  }

  /** `f` maps the ids `a` one to one onto the ids `b`. */
  ghost predicate Bijection(f: map<NodeId, NodeId>, a: set<NodeId>, b: set<NodeId>)
  {
    f.Keys == a &&
    (forall x :: x in f ==> f[x] in b) &&
    (forall x, y :: x in f && y in f && f[x] == f[y] ==> x == y) &&
    (forall z :: z in b ==> exists x :: x in f && f[x] == z)
  }

  ghost predicate KeepsAttrs(g1: Frame, g2: Frame, f: map<NodeId, NodeId>)
    requires Bijection(f, g1.nodes.Keys, g2.nodes.Keys)
  {
    forall x :: x in f ==> g1.nodes[x] == g2.nodes[f[x]]
  }

  ghost predicate KeepsAdjacency(g1: Frame, g2: Frame, f: map<NodeId, NodeId>)
  {
    forall u, v :: u in f && v in f ==> (HasEdge(g1, u, v) <==> HasEdge(g2, f[u], f[v]))
  }

  ghost predicate KeepsData(g1: Frame, g2: Frame, f: map<NodeId, NodeId>)
    requires KeepsAdjacency(g1, g2, f)
  {
    forall u, v :: u in f && v in f && HasEdge(g1, u, v) ==> EdgeData(g1, u, v) == EdgeData(g2, f[u], f[v])
  }

  /** `f` is a graph isomorphism from `g1` onto `g2`: a bijection between
      the node sets that keeps node attributes and adjacency in both
      directions, and edge attributes when `withData`. */
  ghost predicate Isomorphism(g1: Frame, g2: Frame, f: map<NodeId, NodeId>, withData: bool)
  {
    Bijection(f, g1.nodes.Keys, g2.nodes.Keys) &&
    KeepsAttrs(g1, g2, f) &&
    KeepsAdjacency(g1, g2, f) &&
    (withData ==> KeepsData(g1, g2, f))
  }

  /** Some isomorphism exists. */
  ghost predicate Isomorphic(g1: Frame, g2: Frame, withData: bool)
  {
    exists f :: Isomorphism(g1, g2, f, withData)
  }

  lemma PairingBijection(p: seq<NodeId>, q: seq<NodeId>, a: set<NodeId>, b: set<NodeId>)
    requires |p| == |q| && Perm(p, a) && Perm(q, b)
    ensures Bijection(Pairing(p, q), a, b)
  {
    var f := Pairing(p, q);
    assert f.Keys == a;
    forall x | x in f
      ensures f[x] in b
    {
      var i := IndexOf(p, x);
    }
    forall x, y | x in f && y in f && f[x] == f[y]
      ensures x == y
    {
      var i, j := IndexOf(p, x), IndexOf(p, y);
      assert q[i] == q[j];
    }
    forall z | z in b
      ensures exists x :: x in f && f[x] == z
    {
      var j := IndexOf(q, z);
      IndexOfDistinct(p, j);
      assert f[p[j]] == z;
    }
  }

  lemma NodesIff(g1: Frame, g2: Frame, p: seq<NodeId>, q: seq<NodeId>)
    requires |p| == |q| && Perm(p, g1.nodes.Keys) && Perm(q, g2.nodes.Keys)
    requires Bijection(Pairing(p, q), g1.nodes.Keys, g2.nodes.Keys)
    ensures NodesAgree(g1, g2, p, q) <==> KeepsAttrs(g1, g2, Pairing(p, q))
  {
    PairingAt(p, q);
  }

  /** The edge check at `i` decides adjacency between position `i` and any
      position `j`, in both graphs alike. */
  lemma AdjacentAtPair(g1: Frame, g2: Frame, p: seq<NodeId>, q: seq<NodeId>, i: nat, j: nat)
    requires |p| == |q| && Perm(p, g1.nodes.Keys) && Perm(q, g2.nodes.Keys)
    requires i < |p| && j < |p| && AdjacentAt(g1, g2, p, q, i)
    ensures HasEdge(g1, p[i], p[j]) <==> HasEdge(g2, q[i], q[j])
  {
    IndexOfDistinct(p, j);
    IndexOfDistinct(q, j);
    if HasEdge(g1, p[i], p[j]) {
      assert p[j] in Successors(g1, p[i]);
    }
    if HasEdge(g2, q[i], q[j]) {
      assert q[j] in Successors(g2, q[i]);
    }
  }

  lemma PairsGiveAdjacentAt(g1: Frame, g2: Frame, p: seq<NodeId>, q: seq<NodeId>, i: nat)
    requires |p| == |q| && Perm(p, g1.nodes.Keys) && Perm(q, g2.nodes.Keys) && i < |p|
    requires forall j :: 0 <= j < |p| ==> (HasEdge(g1, p[i], p[j]) <==> HasEdge(g2, q[i], q[j]))
    ensures AdjacentAt(g1, g2, p, q, i)
  {
    forall s | s in Successors(g1, p[i])
      ensures HasEdge(g2, q[i], q[IndexOf(p, s)])
    {
      var j := IndexOf(p, s);
    }
    forall t | t in Successors(g2, q[i])
      ensures HasEdge(g1, p[i], p[IndexOf(q, t)])
    {
      var j := IndexOf(q, t);
    }
  }

  lemma AdjacentKeeps(g1: Frame, g2: Frame, p: seq<NodeId>, q: seq<NodeId>)
    requires |p| == |q| && Perm(p, g1.nodes.Keys) && Perm(q, g2.nodes.Keys)
    requires Adjacent(g1, g2, p, q)
    ensures KeepsAdjacency(g1, g2, Pairing(p, q))
  {
    var f := Pairing(p, q);
    forall u, v | u in f && v in f
      ensures HasEdge(g1, u, v) <==> HasEdge(g2, f[u], f[v])
    {
      AdjacentAtPair(g1, g2, p, q, IndexOf(p, u), IndexOf(p, v));
    }
  }

  lemma KeepsAdjacent(g1: Frame, g2: Frame, p: seq<NodeId>, q: seq<NodeId>)
    requires |p| == |q| && Perm(p, g1.nodes.Keys) && Perm(q, g2.nodes.Keys)
    requires KeepsAdjacency(g1, g2, Pairing(p, q))
    ensures Adjacent(g1, g2, p, q)
  {
    PairingAt(p, q);
    forall i | 0 <= i < |p|
      ensures AdjacentAt(g1, g2, p, q, i)
    {
      PairsGiveAdjacentAt(g1, g2, p, q, i);
    }
  }

  lemma AdjacencyIff(g1: Frame, g2: Frame, p: seq<NodeId>, q: seq<NodeId>)
    requires |p| == |q| && Perm(p, g1.nodes.Keys) && Perm(q, g2.nodes.Keys)
    ensures Adjacent(g1, g2, p, q) <==> KeepsAdjacency(g1, g2, Pairing(p, q))
  {
    if Adjacent(g1, g2, p, q) {
      AdjacentKeeps(g1, g2, p, q);
    }
    if KeepsAdjacency(g1, g2, Pairing(p, q)) {
      KeepsAdjacent(g1, g2, p, q);
    }
  }

  lemma DataAtPair(g1: Frame, g2: Frame, p: seq<NodeId>, q: seq<NodeId>, i: nat, j: nat)
    requires |p| == |q| && Perm(p, g1.nodes.Keys) && Perm(q, g2.nodes.Keys)
    requires i < |p| && j < |p| && AdjacentAt(g1, g2, p, q, i) && DataAt(g1, g2, p, q, i)
    requires HasEdge(g1, p[i], p[j])
    ensures HasEdge(g2, q[i], q[j]) && EdgeData(g1, p[i], p[j]) == EdgeData(g2, q[i], q[j])
  {
    IndexOfDistinct(p, j);
    assert p[j] in Successors(g1, p[i]);
  }

  lemma PairsGiveDataAt(g1: Frame, g2: Frame, p: seq<NodeId>, q: seq<NodeId>, i: nat)
    requires |p| == |q| && Perm(p, g1.nodes.Keys) && Perm(q, g2.nodes.Keys) && i < |p|
    requires AdjacentAt(g1, g2, p, q, i)
    requires forall j :: 0 <= j < |p| && HasEdge(g1, p[i], p[j]) ==>
               HasEdge(g2, q[i], q[j]) && EdgeData(g1, p[i], p[j]) == EdgeData(g2, q[i], q[j])
    ensures DataAt(g1, g2, p, q, i)
  {
    forall s | s in Successors(g1, p[i])
      ensures EdgeData(g1, p[i], s) == EdgeData(g2, q[i], q[IndexOf(p, s)])
    {
      var j := IndexOf(p, s);
    }
    forall t | t in Successors(g2, q[i])
      ensures EdgeData(g1, p[i], p[IndexOf(q, t)]) == EdgeData(g2, q[i], t)
    {
      var j := IndexOf(q, t);
    }
  }

  lemma DataKeeps(g1: Frame, g2: Frame, p: seq<NodeId>, q: seq<NodeId>)
    requires |p| == |q| && Perm(p, g1.nodes.Keys) && Perm(q, g2.nodes.Keys)
    requires Adjacent(g1, g2, p, q) && KeepsAdjacency(g1, g2, Pairing(p, q))
    requires DataAgree(g1, g2, p, q)
    ensures KeepsData(g1, g2, Pairing(p, q))
  {
    var f := Pairing(p, q);
    forall u, v | u in f && v in f && HasEdge(g1, u, v)
      ensures EdgeData(g1, u, v) == EdgeData(g2, f[u], f[v])
    {
      DataAtPair(g1, g2, p, q, IndexOf(p, u), IndexOf(p, v));
    }
  }

  lemma KeepsDataAgree(g1: Frame, g2: Frame, p: seq<NodeId>, q: seq<NodeId>)
    requires |p| == |q| && Perm(p, g1.nodes.Keys) && Perm(q, g2.nodes.Keys)
    requires Adjacent(g1, g2, p, q) && KeepsAdjacency(g1, g2, Pairing(p, q))
    requires KeepsData(g1, g2, Pairing(p, q))
    ensures DataAgree(g1, g2, p, q)
  {
    PairingAt(p, q);
    forall i | 0 <= i < |p|
      ensures DataAt(g1, g2, p, q, i)
    {
      PairsGiveDataAt(g1, g2, p, q, i);
    }
  }

  lemma DataIff(g1: Frame, g2: Frame, p: seq<NodeId>, q: seq<NodeId>)
    requires |p| == |q| && Perm(p, g1.nodes.Keys) && Perm(q, g2.nodes.Keys)
    requires Adjacent(g1, g2, p, q) && KeepsAdjacency(g1, g2, Pairing(p, q))
    ensures DataAgree(g1, g2, p, q) <==> KeepsData(g1, g2, Pairing(p, q))
  {
    if DataAgree(g1, g2, p, q) {
      DataKeeps(g1, g2, p, q);
    }
    if KeepsData(g1, g2, Pairing(p, q)) {
      KeepsDataAgree(g1, g2, p, q);
    }
  }

  /** A draw passes exactly when the mapping it stands for is an isomorphism. */
  lemma WorksIff(g1: Frame, g2: Frame, p: seq<NodeId>, q: seq<NodeId>, withData: bool)
    requires |p| == |q| && Perm(p, g1.nodes.Keys) && Perm(q, g2.nodes.Keys)
    ensures Works(g1, g2, p, q, withData) <==> Isomorphism(g1, g2, Pairing(p, q), withData)
  {
    PairingBijection(p, q, g1.nodes.Keys, g2.nodes.Keys);
    NodesIff(g1, g2, p, q);
    AdjacencyIff(g1, g2, p, q);
    if Adjacent(g1, g2, p, q) {
      DataIff(g1, g2, p, q);
    }
  }

  /** The draw loop: the first draw that passes, if any. */
  function Search(g1: Frame, g2: Frame, tries: seq<seq<NodeId>>, withData: bool): (r: Option<seq<NodeId>>)
    requires |g1.nodes.Keys| == |g2.nodes.Keys|
    requires forall p :: p in tries ==> |p| == |g1.nodes.Keys| && Perm(p, g1.nodes.Keys)
    ensures r.Some? ==> r.value in tries && Isomorphism(g1, g2, Pairing(r.value, NodeList(g2)), withData)
    ensures r.None? ==> forall p :: p in tries ==> !Isomorphism(g1, g2, Pairing(p, NodeList(g2)), withData)
  {
    if tries == [] then None
    else
      var p := tries[0];
      assert p in tries;
      WorksIff(g1, g2, p, NodeList(g2), withData);
      if Works(g1, g2, p, NodeList(g2), withData) then Some(p)
      else
        var r := Search(g1, g2, tries[1..], withData);
        assert forall p' :: p' in tries ==> p' == p || p' in tries[1..];
        r
  }

  /** The shared body of both tests: `None` stands for `False` (and the
      empty list when a list is asked for), `Some(p)` for `True` with the
      witness permutation `p`. */
  function Check(g1: Frame, g2: Frame, tries: seq<seq<NodeId>>, withData: bool): (r: Option<seq<NodeId>>)
    requires forall p :: p in tries ==> |p| == |g1.nodes.Keys| && Perm(p, g1.nodes.Keys)
    ensures Degrees(g1) != Degrees(g2) ==> r.None?
    ensures r.Some? ==> r.value in tries && Isomorphism(g1, g2, Pairing(r.value, NodeList(g2)), withData)
    ensures r.None? && Degrees(g1) == Degrees(g2) ==>
              forall p :: p in tries ==> !Isomorphism(g1, g2, Pairing(p, NodeList(g2)), withData)
  {
    if Degrees(g1) != Degrees(g2) then None
    else Search(g1, g2, tries, withData)
  }

  /** `Rewriting.isIsomorphic`: node attributes and adjacency only. */
  function IsIsomorphic(g1: Frame, g2: Frame, tries: seq<seq<NodeId>>): (r: Option<seq<NodeId>>)
    requires forall p :: p in tries ==> |p| == |g1.nodes.Keys| && Perm(p, g1.nodes.Keys)
    ensures Degrees(g1) != Degrees(g2) ==> r.None?
    ensures r.Some? ==> r.value in tries && Isomorphism(g1, g2, Pairing(r.value, NodeList(g2)), false)
    ensures r.None? && Degrees(g1) == Degrees(g2) ==>
              forall p :: p in tries ==> !Isomorphism(g1, g2, Pairing(p, NodeList(g2)), false)
  {
    Check(g1, g2, tries, false)
  }

  /** `Utility.isIsomorphicFast`: also edge attributes. */
  function IsIsomorphicFast(g1: Frame, g2: Frame, tries: seq<seq<NodeId>>): (r: Option<seq<NodeId>>)
    requires forall p :: p in tries ==> |p| == |g1.nodes.Keys| && Perm(p, g1.nodes.Keys)
    ensures Degrees(g1) != Degrees(g2) ==> r.None?
    ensures r.Some? ==> r.value in tries && Isomorphism(g1, g2, Pairing(r.value, NodeList(g2)), true)
    ensures r.None? && Degrees(g1) == Degrees(g2) ==>
              forall p :: p in tries ==> !Isomorphism(g1, g2, Pairing(p, NodeList(g2)), true)
  {
    Check(g1, g2, tries, true)
  }

  /** `tries` holds every permutation of the node list, as the source's
      `itertools.permutations` does before the draws. */
  ghost predicate AllDrawn(g1: Frame, tries: seq<seq<NodeId>>)
  {
    forall p :: Perm(p, g1.nodes.Keys) ==> p in tries
  }

  ghost function Preimage(f: map<NodeId, NodeId>, z: NodeId): NodeId
    requires exists x :: x in f && f[x] == z
  {
    var x :| x in f && f[x] == z; x
  }

  /** Listing the preimages of `q` under a bijection gives a permutation
      whose pairing with `q` sends each `p[i]` to `q[i]`. */
  lemma Preimages(f: map<NodeId, NodeId>, a: set<NodeId>, b: set<NodeId>, q: seq<NodeId>)
    returns (p: seq<NodeId>)
    requires Bijection(f, a, b) && Perm(q, b) && |a| == |b|
    ensures |p| == |q| && Perm(p, a)
    ensures forall i :: 0 <= i < |p| ==> f[p[i]] == q[i]
  {
    p := seq(|q|, i requires 0 <= i < |q| => Preimage(f, q[i]));
    assert forall i :: 0 <= i < |p| ==> p[i] in f && f[p[i]] == q[i];
    forall x | x in a
      ensures x in p
    {
      var j := IndexOf(q, f[x]);
      assert f[p[j]] == f[x];
    }
    forall i, j | 0 <= i < j < |p|
      ensures p[i] != p[j]
    {
      assert q[i] != q[j];
    }
  }

  lemma PairingOfPreimages(f: map<NodeId, NodeId>, a: set<NodeId>, p: seq<NodeId>, q: seq<NodeId>)
    requires f.Keys == a && Perm(p, a) && |p| == |q|
    requires forall i :: 0 <= i < |p| ==> f[p[i]] == q[i]
    ensures Pairing(p, q) == f
  {
    var g := Pairing(p, q);
    forall x | x in p
      ensures g[x] == f[x]
    {
      var i := IndexOf(p, x);
    }
    assert g.Keys == f.Keys;
  }

  /** Every isomorphism between graphs of equal size is the pairing of
      some permutation with the second graph's node list. */
  lemma IsomorphismIsDrawable(g1: Frame, g2: Frame, f: map<NodeId, NodeId>, withData: bool)
    returns (p: seq<NodeId>)
    requires Isomorphism(g1, g2, f, withData) && |g1.nodes.Keys| == |g2.nodes.Keys|
    ensures |p| == |g1.nodes.Keys| && Perm(p, g1.nodes.Keys) && Pairing(p, NodeList(g2)) == f
  {
    var q := NodeList(g2);
    p := Preimages(f, g1.nodes.Keys, g2.nodes.Keys, q);
    PairingOfPreimages(f, g1.nodes.Keys, p, q);
  }

  /** With every permutation drawn, the test is exhaustive: it succeeds
      exactly when the degree multisets agree and an isomorphism exists. */
  lemma CheckExhaustive(g1: Frame, g2: Frame, tries: seq<seq<NodeId>>, withData: bool)
    requires forall p :: p in tries ==> |p| == |g1.nodes.Keys| && Perm(p, g1.nodes.Keys)
    requires AllDrawn(g1, tries)
    ensures Check(g1, g2, tries, withData).Some? <==>
            Degrees(g1) == Degrees(g2) && Isomorphic(g1, g2, withData)
  {
    var found := Check(g1, g2, tries, withData).Some?;
    var exists_ := Degrees(g1) == Degrees(g2) && Isomorphic(g1, g2, withData);
    assert found ==> exists_ by {
      if found {
        CheckSound(g1, g2, tries, withData);
      }
    }
    assert exists_ ==> found by {
      if exists_ {
        var f :| Isomorphism(g1, g2, f, withData);
        CheckComplete(g1, g2, tries, withData, f);
      }
    }
  }

  lemma CheckSound(g1: Frame, g2: Frame, tries: seq<seq<NodeId>>, withData: bool)
    requires forall p :: p in tries ==> |p| == |g1.nodes.Keys| && Perm(p, g1.nodes.Keys)
    requires Check(g1, g2, tries, withData).Some?
    ensures Degrees(g1) == Degrees(g2) && Isomorphic(g1, g2, withData)
  {
    var r := Check(g1, g2, tries, withData);
    var f := Pairing(r.value, NodeList(g2));
    assert Isomorphism(g1, g2, f, withData);
  }

  lemma CheckComplete(g1: Frame, g2: Frame, tries: seq<seq<NodeId>>, withData: bool, f: map<NodeId, NodeId>)
    requires forall p :: p in tries ==> |p| == |g1.nodes.Keys| && Perm(p, g1.nodes.Keys)
    requires AllDrawn(g1, tries)
    requires Degrees(g1) == Degrees(g2) && Isomorphism(g1, g2, f, withData)
    ensures Check(g1, g2, tries, withData).Some?
  {
    var p := IsomorphismIsDrawable(g1, g2, f, withData);
    assert p in tries;
  }

  /** The identity map is an isomorphism of every graph onto itself. */
  lemma IdentityIsomorphism(g: Frame, withData: bool)
    ensures Isomorphic(g, g, withData)
  {
    var id := map x | x in g.nodes :: x;
    assert Bijection(id, g.nodes.Keys, g.nodes.Keys) by {
      forall z | z in g.nodes
        ensures exists x :: x in id && id[x] == z
      {
        assert id[z] == z;
      }
    }
    assert Isomorphism(g, g, id, withData);
  }

  /** Every graph is found isomorphic to itself by both tests. */
  lemma SelfIsomorphic(g: Frame, tries: seq<seq<NodeId>>)
    requires forall p :: p in tries ==> |p| == |g.nodes.Keys| && Perm(p, g.nodes.Keys)
    requires AllDrawn(g, tries)
    ensures IsIsomorphic(g, g, tries).Some? && IsIsomorphicFast(g, g, tries).Some?
  {
    assert IsIsomorphic(g, g, tries).Some? by {
      IdentityIsomorphism(g, false);
      CheckExhaustive(g, g, tries, false);
    }
    assert IsIsomorphicFast(g, g, tries).Some? by {
      IdentityIsomorphism(g, true);
      CheckExhaustive(g, g, tries, true);
    }
  }
}
