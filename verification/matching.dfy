/**
  Subgraph matching: `Utility.findSubgraphInstances`,
  `Utility.isomorphicExtensions` and `Utility.symmetryConditions`, the
  Grochow-Kellis enumeration of the places a pattern graph occurs in a
  target graph, with optional symmetry breaking.

  The `utility` object's `state` attribute (the name of the node attribute
  both graphs are compared on) outlives a call, so it is passed in and
  handed back with the result. Where the source calls `random.choice`, the
  oracle `choose` names the position drawn. networkx lists nodes, and
  Python iterates small-integer sets, in ascending id order here; the first
  key of an attribute dictionary is taken to be the smallest name.
*/
module Matching {
  import opened Order
  import opened Wrappers
  import opened Graphs
  import opened Symmetry

  /** What the search carries besides the target graph. */
  datatype Ctx = Ctx(pattern: Frame, conds: seq<Condition>, symbreak: bool,
                     state: Option<Name>, choose: Oracle)

  /** The positions `random.choice` draws, as a finite table keyed by the
      mapping the search stands at (0 where the table is silent). */
  datatype Oracle = Oracle(table: map<Mapping, nat>)

  function Draw(choose: Oracle, m: Mapping): nat
  {
    if m in choose.table then choose.table[m] else 0
  }

  /** `self.state` is in force: set and not empty. */
  predicate InForce(state: Option<Name>)
  {
    state.Some? && state.value != ""
  }

  /** `G.node[x][s]`. */
  function Attr(g: Frame, x: NodeId, s: Name): (r: Result<Value>)
    requires x in g.nodes
  {
    if s in g.nodes[x] then Ok(g.nodes[x][s]) else Err(KeyError)
  }

  function Range(m: Mapping): set<NodeId>
  {
    set k | k in m :: m[k]
  }

  // ------------------------------------------------------------ state set-up

  /** The attribute dictionary of the first node. */
  function FirstAttrs(g: Frame): Attrs
    requires g.nodes.Keys != {}
  {
    g.nodes[MinNat(g.nodes.Keys)]
  }

  /** The two first nodes disagree on their attributes: the target's has
      some, and the pattern's has a different number or a different first
      name. */
  predicate Incompatible(g: Frame, p: Frame)
  {
    g.nodes.Keys != {} && p.nodes.Keys != {} &&
    FirstAttrs(g).Keys != {} &&
    (|FirstAttrs(g).Keys| != |FirstAttrs(p).Keys| ||
     MinName(FirstAttrs(g).Keys) != MinName(FirstAttrs(p).Keys))
  }

  /** The state set-up at the top of `findSubgraphInstances`. */
  function StartState(g: Frame, p: Frame, state: Option<Name>): (r: Result<Option<Name>>)
    ensures r.Err? <==> Incompatible(g, p)
    ensures r.Err? ==> r.error == AttributeError
    ensures r.Ok? && r.value != state ==>
              g.nodes.Keys != {} && p.nodes.Keys != {} && r.value.Some? && r.value.value in FirstAttrs(g) && r.value.value in FirstAttrs(p)
  {
    if g.nodes.Keys == {} || p.nodes.Keys == {} then Ok(state)
    else
      var a := FirstAttrs(g);
      var b := FirstAttrs(p);
      if a.Keys == {} then Ok(state)
      else if |a.Keys| == |b.Keys| && MinName(a.Keys) == MinName(b.Keys) then Ok(Some(MinName(a.Keys)))
      else Err(AttributeError)
  }

  // ------------------------------------------------------------ node filters

  /** The state comparison: passes when no state is in force, or when both
      nodes carry the same value for it. */
  function StateMatch(g: Frame, x: NodeId, p: Frame, y: NodeId, state: Option<Name>): (r: Result<bool>)
    requires x in g.nodes && y in p.nodes
    ensures r.Err? ==> r.error == KeyError && InForce(state)
    ensures r == Ok(true) <==>
              !InForce(state) ||
              (state.value in g.nodes[x] && state.value in p.nodes[y] &&
               g.nodes[x][state.value] == p.nodes[y][state.value])
  {
    if !InForce(state) then Ok(true)
    else
      var u :- Attr(g, x, state.value);
      var v :- Attr(p, y, state.value);
      Ok(u == v)
  }

  /** The degree filter of the top-level loop: in a digraph both the in-
      and the out-degree must reach the pattern node's (an undirected
      pattern has no in-degree: `AttributeError`). */
  function DegreeCovers(g: Frame, x: NodeId, p: Frame, y: NodeId): (r: Result<bool>)
    ensures r.Err? <==> g.directed && !p.directed
    ensures r.Err? ==> r.error == AttributeError
    ensures r == Ok(true) ==> Roomy(g, x, p, y)
  {
    if g.directed then
      if !p.directed then Err(AttributeError)
      else Ok(InDegree(g, x) >= InDegree(p, y) && OutDegree(g, x) >= OutDegree(p, y))
    else Ok(Degree(g, x) >= Degree(p, y))
  }

  /** The degree skip of `isomorphicExtensions`: in a digraph a target node
      is skipped only when both of its degrees fall short. */
  function DegreeShort(g: Frame, x: NodeId, p: Frame, y: NodeId): (r: Result<bool>)
    ensures r.Err? <==> g.directed && !p.directed
    ensures r.Err? ==> r.error == AttributeError
    ensures r == Ok(false) ==> Roomy(g, x, p, y)
  {
    if g.directed then
      if !p.directed then Err(AttributeError)
      else Ok(InDegree(g, x) < InDegree(p, y) && OutDegree(g, x) < OutDegree(p, y))
    else Ok(Degree(g, x) < Degree(p, y))
  }

  /** What every matched pair keeps of the degree filters. */
  ghost predicate Roomy(g: Frame, x: NodeId, p: Frame, y: NodeId)
  {
    if g.directed then InDegree(g, x) >= InDegree(p, y) || OutDegree(g, x) >= OutDegree(p, y)
    else Degree(g, x) >= Degree(p, y)
  }

  /** Sending `c` to `r` keeps adjacency with every mapped node, in both
      directions. */
  predicate AdjacencyMatches(g: Frame, p: Frame, m: Mapping, c: NodeId, r: NodeId)
  {
    forall k :: k in m ==>
      HasEdge(p, c, k) == HasEdge(g, r, m[k]) && HasEdge(p, k, c) == HasEdge(g, m[k], r)
  }

  /** Where an edge exists on both sides, its attributes agree. */
  predicate DataMatches(g: Frame, p: Frame, m: Mapping, c: NodeId, r: NodeId)
  {
    forall k :: k in m ==>
      (HasEdge(p, c, k) && HasEdge(g, r, m[k]) ==> EdgeData(p, c, k) == EdgeData(g, r, m[k])) &&
      (HasEdge(p, k, c) && HasEdge(g, m[k], r) ==> EdgeData(p, k, c) == EdgeData(g, m[k], r))
  }

  /** One symmetry-breaking condition rules out sending `c` to `r`. */
  predicate Violates(cond: Condition, m: Mapping, c: NodeId, r: NodeId)
  {
    if c == cond.0 && cond.1 in m then r > m[cond.1]
    else if c == cond.1 && cond.0 in m then m[cond.0] > r
    else false
  }

  predicate Breaks(conds: seq<Condition>, m: Mapping, c: NodeId, r: NodeId)
  {
    exists i :: 0 <= i < |conds| && Violates(conds[i], m, c, r)
  }

  /** The test a target node `r` must pass to receive the pattern node `c`. */
  function Accept(g: Frame, ctx: Ctx, m: Mapping, c: NodeId, r: NodeId): (res: Result<bool>)
    requires c in ctx.pattern.nodes && r in g.nodes
    ensures res.Err? ==> res.error == KeyError || res.error == AttributeError
  {
    var p := ctx.pattern;
    var same :- StateMatch(g, r, p, c, ctx.state);
    var short :- DegreeShort(g, r, p, c);
    if short || !same then Ok(false)
    else Ok(AdjacencyMatches(g, p, m, c, r) && DataMatches(g, p, m, c, r) &&
            !(ctx.symbreak && Breaks(ctx.conds, m, c, r)))
  }

  /** A target node that passes has every property the search checks. */
  lemma AcceptPasses(g: Frame, ctx: Ctx, m: Mapping, c: NodeId, r: NodeId)
    requires c in ctx.pattern.nodes && r in g.nodes
    requires Accept(g, ctx, m, c, r) == Ok(true)
    ensures StateMatch(g, r, ctx.pattern, c, ctx.state) == Ok(true)
    ensures Roomy(g, r, ctx.pattern, c)
    ensures AdjacencyMatches(g, ctx.pattern, m, c, r)
    ensures DataMatches(g, ctx.pattern, m, c, r)
    ensures !(ctx.symbreak && Breaks(ctx.conds, m, c, r))
  {
  }

  // ------------------------------------------------------- choosing the node

  /** The unmapped pattern nodes, in order, with a successor already mapped. */
  function Linked(p: Frame, m: Mapping, cs: seq<NodeId>): (r: seq<NodeId>)
    ensures forall x :: x in r <==> x in cs && Successors(p, x) * m.Keys != {}
  {
    if cs == [] then []
    else
      var tail := Linked(p, m, cs[1..]);
      assert forall x :: x in cs <==> x == cs[0] || x in cs[1..];
      (if Successors(p, cs[0]) * m.Keys != {} then [cs[0]] else []) + tail
  }

  /** The position of the first node of largest degree: the head of a
      stable sort by descending degree. */
  function FirstMax(p: Frame, cs: seq<NodeId>): (i: nat)
    requires cs != []
    ensures i < |cs|
    ensures forall j :: 0 <= j < |cs| ==> Degree(p, cs[j]) <= Degree(p, cs[i])
    ensures forall j :: 0 <= j < i ==> Degree(p, cs[j]) < Degree(p, cs[i])
  {
    if |cs| == 1 then 0
    else
      var b := FirstMax(p, cs[1..]) + 1;
      assert forall j :: 1 <= j < |cs| ==> cs[j] == cs[1..][j - 1];
      if Degree(p, cs[0]) >= Degree(p, cs[b]) then 0 else b
  }

  /** The nodes of `free` some mapped node has an edge to. */
  function Near(p: Frame, m: Mapping, free: set<NodeId>): (s: set<NodeId>)
    ensures s <= free
    ensures forall x :: x in s <==> x in free && exists y :: y in m && HasEdge(p, y, x)
  {
    set x | x in free && exists y :: y in m && HasEdge(p, y, x)
  }

  /** The pattern node the search extends the mapping with. */
  function Constrained(ctx: Ctx, m: Mapping): (c: NodeId)
    requires !(ctx.pattern.nodes.Keys <= m.Keys)
    ensures c in ctx.pattern.nodes && c !in m
  {
    var p := ctx.pattern;
    var free := p.nodes.Keys - m.Keys;
    var w :| w in p.nodes.Keys && w !in m.Keys;
    assert w in free;
    var candList := SortedNats(free);
    assert candList != [] by { assert w in candList; }
    var linked := Linked(p, m, candList);
    if linked != [] then
      var c := linked[FirstMax(p, linked)];
      assert c in linked;
      assert c in candList;
      c
    else
      var near := Near(p, m, free);
      if near != {} then MinNat(near)
      else
        var c := candList[Draw(ctx.choose, m) % |candList|];
        assert c in candList;
        c
  }

  /** The unmapped target nodes adjacent to the range `rng`: successors,
      and in a digraph predecessors too. */
  function Around(g: Frame, rng: set<NodeId>): (ns: set<NodeId>)
    ensures ns <= g.nodes.Keys && ns !! rng
    ensures forall x :: x in ns <==>
              x in g.nodes && x !in rng &&
              exists y :: y in rng && (HasEdge(g, y, x) || (g.directed && HasEdge(g, x, y)))
  {
    set x | x in g.nodes && x !in rng &&
            exists y :: y in rng && (HasEdge(g, y, x) || (g.directed && HasEdge(g, x, y)))
  }

  /** The pattern has a node without edges. */
  predicate HasIsolated(p: Frame)
  {
    exists x :: x in p.nodes && Degree(p, x) == 0
  }

  /** The target nodes the chosen pattern node may be sent to: the
      unmapped neighbours of the range, or every unmapped node when there
      are none (while nodes remain) or the pattern has an isolated node. */
  function Reach(g: Frame, p: Frame, m: Mapping): (ns: set<NodeId>)
    ensures ns <= g.nodes.Keys
    ensures ns !! Range(m)
  {
    var rng := Range(m);
    var near := Around(g, rng);
    if (near == {} && |g.nodes.Keys| > |m.Keys|) || HasIsolated(p) then g.nodes.Keys - rng
    else near
  }

  /** The reachable target nodes in ascending order. */
  function Candidates(g: Frame, p: Frame, m: Mapping): (rs: seq<NodeId>)
    ensures forall i :: 0 <= i < |rs| ==> rs[i] in g.nodes && rs[i] !in Range(m)
  {
    var ns := Reach(g, p, m);
    var rs := SortedNats(ns);
    assert forall i :: 0 <= i < |rs| ==> rs[i] in rs;
    assert forall i :: 0 <= i < |rs| ==> rs[i] in ns;
    rs
  }

  /** Sending one more pattern node leaves fewer unmapped. */
  lemma Shrinks(s: set<NodeId>, m: Mapping, c: NodeId, r: NodeId)
    requires c in s && c !in m
    ensures |s - m[c := r].Keys| < |s - m.Keys|
  {
    assert s - m[c := r].Keys == (s - m.Keys) - {c};
  }

  // ----------------------------------------------------------------- search

  /** `isomorphicExtensions`: every completion of `m` the search reaches. */
  function Extensions(g: Frame, ctx: Ctx, m: Mapping): (r: Result<seq<Mapping>>)
    ensures r.Err? ==> r.error == KeyError || r.error == AttributeError
    decreases |ctx.pattern.nodes.Keys - m.Keys|, 2, 0
  {
    if ctx.pattern.nodes.Keys <= m.Keys then Ok([m])
    else
      var c := Constrained(ctx, m);
      ExtendEach(g, ctx, m, c, Candidates(g, ctx.pattern, m))
  }

  /** The loop over the candidate target nodes `rs`. */
  function ExtendEach(g: Frame, ctx: Ctx, m: Mapping, c: NodeId, rs: seq<NodeId>): (r: Result<seq<Mapping>>)
    requires c in ctx.pattern.nodes && c !in m
    requires forall i :: 0 <= i < |rs| ==> rs[i] in g.nodes
    ensures r.Err? ==> r.error == KeyError || r.error == AttributeError
    decreases |ctx.pattern.nodes.Keys - m.Keys|, 1, |rs|
  {
    if rs == [] then Ok([])
    else
      var found :- Descend(g, ctx, m, c, rs[0]);
      var more :- ExtendEach(g, ctx, m, c, rs[1..]);
      Ok(found + more)
  }

  /** One pass of the loop: test `r`, and on success recurse on `m` with
      `c` sent to `r`. */
  function Descend(g: Frame, ctx: Ctx, m: Mapping, c: NodeId, r: NodeId): (res: Result<seq<Mapping>>)
    requires c in ctx.pattern.nodes && c !in m && r in g.nodes
    ensures res.Err? ==> res.error == KeyError || res.error == AttributeError
    decreases |ctx.pattern.nodes.Keys - m.Keys|, 0, 0
  {
    match Accept(g, ctx, m, c, r)
    case Err(e) => Err(e)
    case Ok(ok) =>
      if !ok then Ok([])
      else
        Shrinks(ctx.pattern.nodes.Keys, m, c, r);
        Extensions(g, ctx, m[c := r])
  }

  /** The pattern nodes tried against the base node `b`. */
  function TryQueries(g: Frame, ctx: Ctx, b: NodeId, qs: seq<NodeId>): (r: Result<seq<Mapping>>)
    requires b in g.nodes
    requires forall i :: 0 <= i < |qs| ==> qs[i] in ctx.pattern.nodes
    ensures r.Err? ==> r.error == KeyError || r.error == AttributeError
  {
    if qs == [] then Ok([])
    else
      var q := qs[0];
      var same :- StateMatch(g, b, ctx.pattern, q, ctx.state);
      var covers :- DegreeCovers(g, b, ctx.pattern, q);
      var found :- if same && covers then Extensions(g, ctx, map[q := b]) else Ok([]);
      var more :- TryQueries(g, ctx, b, qs[1..]);
      Ok(found + more)
  }

  /** The pattern nodes in ascending order. */
  function Queries(p: Frame): (qs: seq<NodeId>)
    ensures forall i :: 0 <= i < |qs| ==> qs[i] in p.nodes
  {
    var qs := SortedNats(p.nodes.Keys);
    assert forall i :: 0 <= i < |qs| ==> qs[i] in qs;
    qs
  }

  /** The base nodes left after the first stay in the shrunken graph. */
  lemma OrderTail(g: Frame, order: seq<NodeId>)
    requires order != [] && Distinct(order)
    requires forall i :: 0 <= i < |order| ==> order[i] in g.nodes
    ensures Distinct(order[1..])
    ensures forall i :: 0 <= i < |order| - 1 ==> order[1..][i] in RemoveNode(g, order[0]).nodes
  {
    forall i | 0 <= i < |order| - 1
      ensures order[1..][i] in RemoveNode(g, order[0]).nodes
    {
      assert order[1..][i] == order[i + 1] != order[0];
    }
  }

  /** The main loop: each base node in turn, which then leaves the graph. */
  function Scan(g: Frame, ctx: Ctx, order: seq<NodeId>): (r: Result<seq<Mapping>>)
    requires Distinct(order)
    requires forall i :: 0 <= i < |order| ==> order[i] in g.nodes
    ensures |g.nodes.Keys| < |ctx.pattern.nodes.Keys| ==> r == Ok([])
    ensures r.Err? ==> r.error == KeyError || r.error == AttributeError
    decreases |order|
  {
    if order == [] || |g.nodes.Keys| < |ctx.pattern.nodes.Keys| then Ok([])
    else
      var b := order[0];
      var found :- TryQueries(g, ctx, b, Queries(ctx.pattern));
      OrderTail(g, order);
      var more :- Scan(RemoveNode(g, b), ctx, order[1..]);
      Ok(found + more)
  }

  // ------------------------------------------------------------ degree order

  /** `x` sorts before `y`: lower degree, ties by id. */
  predicate Lighter(g: Frame, x: NodeId, y: NodeId)
  {
    Degree(g, x) < Degree(g, y) || (Degree(g, x) == Degree(g, y) && x <= y)
  }

  function Lightest(g: Frame, s: set<NodeId>): (x: NodeId)
    requires s != {}
    ensures x in s && forall y :: y in s ==> Lighter(g, x, y)
  {
    var y := MinNat(s);
    if s == {y} then y
    else
      var z := Lightest(g, s - {y});
      assert forall w :: w in s ==> w == y || w in s - {y};
      if Lighter(g, y, z) then y else z
  }

  function OrderOf(g: Frame, s: set<NodeId>): (o: seq<NodeId>)
    ensures Distinct(o)
    ensures forall x :: x in o <==> x in s
    ensures forall i, j :: 0 <= i < j < |o| ==> Lighter(g, o[i], o[j])
  {
    if s == {} then []
    else
      var x := Lightest(g, s);
      var rest := OrderOf(g, s - {x});
      ConsLightest(g, s, x, rest);
      [x] + rest
  }

  /** Putting the lightest node in front of an ordering of the others
      orders the whole set. */
  lemma ConsLightest(g: Frame, s: set<NodeId>, x: NodeId, rest: seq<NodeId>)
    requires x in s && forall y :: y in s ==> Lighter(g, x, y)
    requires Distinct(rest) && forall y :: y in rest <==> y in s - {x}
    requires forall i, j :: 0 <= i < j < |rest| ==> Lighter(g, rest[i], rest[j])
    ensures Distinct([x] + rest)
    ensures forall y :: y in [x] + rest <==> y in s
    ensures forall i, j :: 0 <= i < j < |[x] + rest| ==> Lighter(g, ([x] + rest)[i], ([x] + rest)[j])
  {
    var o := [x] + rest;
    assert forall j :: 0 < j < |o| ==> o[j] == rest[j - 1];
    forall i, j | 0 <= i < j < |o| ensures o[i] != o[j] && Lighter(g, o[i], o[j]) {
      if i == 0 {
        assert o[j] in rest;
      } else {
        assert o[i] == rest[i - 1] && o[j] == rest[j - 1];
      }
    }
  }

  /** `sorted(Graph.nodes(), cmp=degree)`: a stable sort of the ascending
      node list by degree. */
  function DegreeOrder(g: Frame): (o: seq<NodeId>)
    ensures Distinct(o)
    ensures forall x :: x in o <==> x in g.nodes
    ensures forall i, j :: 0 <= i < j < |o| ==> Lighter(g, o[i], o[j])
  {
    OrderOf(g, g.nodes.Keys)
  }

  // ------------------------------------------------------------- the entries

  /** `findSubgraphInstances(Graph, subgraph, symbreak)`: the matches found
      and the state the object is left with. */
  function FindInstances(g: Frame, p: Frame, symbreak: bool, state: Option<Name>, choose: Oracle)
    : (r: Result<(seq<Mapping>, Option<Name>)>)
    ensures Incompatible(g, p) ==> r == Err(AttributeError)
    ensures r.Ok? && |p.nodes.Keys| > |g.nodes.Keys| ==> r.value.0 == []
    ensures r.Err? ==> r.error in {KeyError, AttributeError, ValueError}
    decreases if symbreak then 2 else 0
  {
    var st :- StartState(g, p, state);
    var sym :- if symbreak then SymmetryConditions(p, st, choose) else Ok(([], st));
    var found :- Scan(g, Ctx(p, sym.0, symbreak, sym.1, choose), DegreeOrder(g));
    Ok((found, sym.1))
  }

  /** `symmetryConditions(subgraph)`: the automorphisms of the pattern,
      pruned into conditions. */
  function SymmetryConditions(p: Frame, state: Option<Name>, choose: Oracle)
    : (r: Result<(seq<Condition>, Option<Name>)>)
    ensures r.Err? ==> r.error in {KeyError, AttributeError, ValueError}
    decreases 1
  {
    var aut :- FindInstances(p, p, false, state, choose);
    var conds :- Prune(aut.0);
    Ok((conds, aut.1))
  }
}
