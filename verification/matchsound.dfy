/**
  Soundness of the subgraph matcher: every mapping `findSubgraphInstances`
  returns sends all pattern nodes to distinct target nodes so that
  adjacency between distinct pattern nodes is mirrored exactly, edge
  attributes agree where both edges exist, the state attribute agrees, and
  the degree filters hold; with symmetry breaking on, it also respects
  every condition `(a, b)` by sending `a` no higher than `b`. On a pattern
  matched against itself these mappings are automorphisms, so every
  symmetry condition names two pattern nodes in ascending order.
*/
module MatchSoundness {
  import opened Order
  import opened Wrappers
  import opened Graphs
  import opened Symmetry
  import opened Matching

  // ------------------------------------------------------------ the claims

  ghost predicate Injective(m: Mapping)
  {
    forall a, b :: a in m && b in m && a != b ==> m[a] != m[b]
  }

  /** Every image is a node of `h`. */
  ghost predicate Lands(h: Frame, m: Mapping)
  {
    forall k :: k in m ==> m[k] in h.nodes
  }

  /** Adjacency between distinct mapped pattern nodes is mirrored exactly. */
  ghost predicate Induced(h: Frame, p: Frame, m: Mapping)
  {
    forall a, b :: a in m && b in m && a != b ==> HasEdge(p, a, b) == HasEdge(h, m[a], m[b])
  }

  /** Where both edges exist their attributes agree. */
  ghost predicate SameData(h: Frame, p: Frame, m: Mapping)
  {
    forall a, b :: a in m && b in m && a != b && HasEdge(p, a, b) && HasEdge(h, m[a], m[b]) ==>
      EdgeData(p, a, b) == EdgeData(h, m[a], m[b])
  }

  /** Every pair passes the state comparison. */
  ghost predicate SameState(h: Frame, p: Frame, state: Option<Name>, m: Mapping)
  {
    forall k :: k in m ==> k in p.nodes && m[k] in h.nodes && StateMatch(h, m[k], p, k, state) == Ok(true)
  }

  /** Every pair passes the degree filter. */
  ghost predicate Covered(h: Frame, p: Frame, m: Mapping)
  {
    forall k :: k in m ==> Roomy(h, m[k], p, k)
  }

  /** A condition `(a, b)` with both ends mapped sends `a` no higher than `b`. */
  ghost predicate Respects(conds: seq<Condition>, m: Mapping)
  {
    forall i :: 0 <= i < |conds| && conds[i].0 in m && conds[i].1 in m ==> m[conds[i].0] <= m[conds[i].1]
  }

  /** A partial match of `p` into `h`. */
  ghost predicate Partial(h: Frame, p: Frame, state: Option<Name>, m: Mapping)
  {
    m.Keys <= p.nodes.Keys && Lands(h, m) && Injective(m) && Induced(h, p, m) &&
    SameData(h, p, m) && SameState(h, p, state, m) && Covered(h, p, m)
  }

  /** A match: a partial match covering every pattern node. */
  ghost predicate Match(g: Frame, p: Frame, state: Option<Name>, m: Mapping)
  {
    Partial(g, p, state, m) && m.Keys == p.nodes.Keys
  }

  /** What the search keeps of its current mapping. */
  ghost predicate Good(h: Frame, ctx: Ctx, m: Mapping)
  {
    Partial(h, ctx.pattern, ctx.state, m) && (ctx.symbreak ==> Respects(ctx.conds, m))
  }

  /** A result of the search in `h`. */
  ghost predicate Complete(h: Frame, ctx: Ctx, m: Mapping)
  {
    Good(h, ctx, m) && m.Keys == ctx.pattern.nodes.Keys
  }

  // ------------------------------------------------------------ one step

  lemma StepInjective(m: Mapping, c: NodeId, r: NodeId)
    requires Injective(m) && c !in m && r !in Range(m)
    ensures Injective(m[c := r])
  {
    forall k | k in m
      ensures m[k] != r
    {
      assert m[k] in Range(m);
    }
  }

  lemma StepInduced(h: Frame, p: Frame, m: Mapping, c: NodeId, r: NodeId)
    requires Induced(h, p, m) && c !in m && AdjacencyMatches(h, p, m, c, r)
    ensures Induced(h, p, m[c := r])
  {
  }

  lemma StepData(h: Frame, p: Frame, m: Mapping, c: NodeId, r: NodeId)
    requires SameData(h, p, m) && c !in m && DataMatches(h, p, m, c, r)
    ensures SameData(h, p, m[c := r])
  {
  }

  lemma StepRespects(conds: seq<Condition>, m: Mapping, c: NodeId, r: NodeId)
    requires Respects(conds, m) && c !in m && !Breaks(conds, m, c, r)
    ensures Respects(conds, m[c := r])
  {
    var m' := m[c := r];
    forall i | 0 <= i < |conds| && conds[i].0 in m' && conds[i].1 in m'
      ensures m'[conds[i].0] <= m'[conds[i].1]
    {
      assert !Violates(conds[i], m, c, r);
    }
  }

  /** An accepted target node extends a good mapping to a good mapping. */
  lemma Step(h: Frame, ctx: Ctx, m: Mapping, c: NodeId, r: NodeId)
    requires Good(h, ctx, m)
    requires c in ctx.pattern.nodes && c !in m && r in h.nodes && r !in Range(m)
    requires Accept(h, ctx, m, c, r) == Ok(true)
    ensures Good(h, ctx, m[c := r])
  {
    var p := ctx.pattern;
    AcceptPasses(h, ctx, m, c, r);
    StepInjective(m, c, r);
    StepInduced(h, p, m, c, r);
    StepData(h, p, m, c, r);
    if ctx.symbreak {
      StepRespects(ctx.conds, m, c, r);
    }
  }

  /** The pair the top-level loop starts from. */
  lemma Start(h: Frame, ctx: Ctx, q: NodeId, b: NodeId)
    requires q in ctx.pattern.nodes && b in h.nodes
    requires StateMatch(h, b, ctx.pattern, q, ctx.state) == Ok(true)
    requires DegreeCovers(h, b, ctx.pattern, q) == Ok(true)
    ensures Good(h, ctx, map[q := b])
  {
  }

  // ------------------------------------------------------------ the search

  lemma {:induction false} ExtensionsSound(h: Frame, ctx: Ctx, m: Mapping)
    requires Good(h, ctx, m)
    requires Extensions(h, ctx, m).Ok?
    ensures forall x :: x in Extensions(h, ctx, m).value ==> Complete(h, ctx, x)
    decreases |ctx.pattern.nodes.Keys - m.Keys|, 2, 0
  {
    if !(ctx.pattern.nodes.Keys <= m.Keys) {
      var c := Constrained(ctx, m);
      ExtendEachSound(h, ctx, m, c, Candidates(h, ctx.pattern, m));
    }
  }

  lemma {:induction false} ExtendEachSound(h: Frame, ctx: Ctx, m: Mapping, c: NodeId, rs: seq<NodeId>)
    requires Good(h, ctx, m)
    requires c in ctx.pattern.nodes && c !in m
    requires forall i :: 0 <= i < |rs| ==> rs[i] in h.nodes && rs[i] !in Range(m)
    requires ExtendEach(h, ctx, m, c, rs).Ok?
    ensures forall x :: x in ExtendEach(h, ctx, m, c, rs).value ==> Complete(h, ctx, x)
    decreases |ctx.pattern.nodes.Keys - m.Keys|, 1, |rs|
  {
    if rs != [] {
      DescendSound(h, ctx, m, c, rs[0]);
      ExtendEachSound(h, ctx, m, c, rs[1..]);
    }
  }

  lemma {:induction false} DescendSound(h: Frame, ctx: Ctx, m: Mapping, c: NodeId, r: NodeId)
    requires Good(h, ctx, m)
    requires c in ctx.pattern.nodes && c !in m && r in h.nodes && r !in Range(m)
    requires Descend(h, ctx, m, c, r).Ok?
    ensures forall x :: x in Descend(h, ctx, m, c, r).value ==> Complete(h, ctx, x)
    decreases |ctx.pattern.nodes.Keys - m.Keys|, 0, 0
  {
    if Accept(h, ctx, m, c, r) == Ok(true) {
      Step(h, ctx, m, c, r);
      Shrinks(ctx.pattern.nodes.Keys, m, c, r);
      ExtensionsSound(h, ctx, m[c := r]);
    }
  }

  lemma {:induction false} TryQueriesSound(h: Frame, ctx: Ctx, b: NodeId, qs: seq<NodeId>)
    requires b in h.nodes
    requires forall i :: 0 <= i < |qs| ==> qs[i] in ctx.pattern.nodes
    requires TryQueries(h, ctx, b, qs).Ok?
    ensures forall x :: x in TryQueries(h, ctx, b, qs).value ==> Complete(h, ctx, x)
  {
    if qs != [] {
      var q := qs[0];
      if StateMatch(h, b, ctx.pattern, q, ctx.state) == Ok(true) &&
         DegreeCovers(h, b, ctx.pattern, q) == Ok(true) {
        Start(h, ctx, q, b);
        ExtensionsSound(h, ctx, map[q := b]);
      }
      TryQueriesSound(h, ctx, b, qs[1..]);
    }
  }

  // ------------------------------------------------- shrinking the target

  /** `h` is `g` with some nodes (and their edges) removed. */
  ghost predicate Within(h: Frame, g: Frame)
  {
    h.directed == g.directed &&
    h.nodes.Keys <= g.nodes.Keys &&
    (forall v :: v in h.nodes ==> h.nodes[v] == g.nodes[v]) &&
    (forall e :: e in h.edges ==> e in g.edges && h.edges[e] == g.edges[e]) &&
    (forall e :: e in g.edges && e.0 in h.nodes && e.1 in h.nodes ==> e in h.edges)
  }

  lemma RemoveWithin(h: Frame, g: Frame, b: NodeId)
    requires Within(h, g)
    ensures Within(RemoveNode(h, b), g)
  {
  }

  /** Between surviving nodes, `h` has exactly the edges of `g`, and no
      node has more edges in `h` than in `g`. */
  lemma WithinEdges(h: Frame, g: Frame, u: NodeId, v: NodeId)
    requires Within(h, g) && u in h.nodes && v in h.nodes
    ensures HasEdge(h, u, v) == HasEdge(g, u, v)
    ensures HasEdge(h, u, v) ==> EdgeData(h, u, v) == EdgeData(g, u, v)
  {
  }

  lemma WithinDegrees(h: Frame, g: Frame, u: NodeId)
    requires Within(h, g)
    ensures Degree(h, u) <= Degree(g, u)
    ensures InDegree(h, u) <= InDegree(g, u)
    ensures OutDegree(h, u) <= OutDegree(g, u)
  {
    SubsetCard(OutEdges(h, u), OutEdges(g, u));
    SubsetCard(InEdges(h, u), InEdges(g, u));
  }

  /** A match in `h` is a match in the larger graph `g`. */
  lemma Transfer(h: Frame, g: Frame, ctx: Ctx, m: Mapping)
    requires Within(h, g) && Good(h, ctx, m)
    ensures Good(g, ctx, m)
  {
    var p := ctx.pattern;
    forall a, b | a in m && b in m
      ensures HasEdge(h, m[a], m[b]) == HasEdge(g, m[a], m[b])
      ensures HasEdge(h, m[a], m[b]) ==> EdgeData(h, m[a], m[b]) == EdgeData(g, m[a], m[b])
    {
      WithinEdges(h, g, m[a], m[b]);
    }
    forall k | k in m
      ensures Roomy(g, m[k], p, k)
      ensures StateMatch(g, m[k], p, k, ctx.state) == Ok(true)
    {
      WithinDegrees(h, g, m[k]);
      assert h.nodes[m[k]] == g.nodes[m[k]];
    }
  }

  lemma {:induction false} ScanSound(g: Frame, h: Frame, ctx: Ctx, order: seq<NodeId>)
    requires Within(h, g)
    requires Distinct(order)
    requires forall i :: 0 <= i < |order| ==> order[i] in h.nodes
    requires Scan(h, ctx, order).Ok?
    ensures forall x :: x in Scan(h, ctx, order).value ==> Complete(g, ctx, x)
    decreases |order|
  {
    if order != [] && |h.nodes.Keys| >= |ctx.pattern.nodes.Keys| {
      var b := order[0];
      TryQueriesSound(h, ctx, b, Queries(ctx.pattern));
      forall x | x in TryQueries(h, ctx, b, Queries(ctx.pattern)).value
        ensures Complete(g, ctx, x)
      {
        Transfer(h, g, ctx, x);
      }
      OrderTail(h, order);
      RemoveWithin(h, g, b);
      ScanSound(g, RemoveNode(h, b), ctx, order[1..]);
    }
  }

  // ------------------------------------------------------------ the entries

  /** Every mapping `findSubgraphInstances` returns is a match under the
      state it leaves behind, and with symmetry breaking on it respects the
      pattern's symmetry conditions. */
  lemma FindSound(g: Frame, p: Frame, symbreak: bool, state: Option<Name>, choose: Oracle)
    requires FindInstances(g, p, symbreak, state, choose).Ok?
    ensures forall x :: x in FindInstances(g, p, symbreak, state, choose).value.0 ==>
              Match(g, p, FindInstances(g, p, symbreak, state, choose).value.1, x)
    ensures symbreak ==>
              StartState(g, p, state).Ok? &&
              SymmetryConditions(p, StartState(g, p, state).value, choose).Ok? &&
              forall x :: x in FindInstances(g, p, symbreak, state, choose).value.0 ==>
                Respects(SymmetryConditions(p, StartState(g, p, state).value, choose).value.0, x)
  {
    var st := StartState(g, p, state).value;
    var sym := if symbreak then SymmetryConditions(p, st, choose).value else ([], st);
    var ctx := Ctx(p, sym.0, symbreak, sym.1, choose);
    ScanSound(g, g, ctx, DegreeOrder(g));
  }

  /** Every mapping found of a pattern into itself permutes its nodes. */
  lemma AutomorphismsPermute(p: Frame, state: Option<Name>, choose: Oracle)
    requires FindInstances(p, p, false, state, choose).Ok?
    ensures forall x :: x in FindInstances(p, p, false, state, choose).value.0 ==> Permutes(x, p.nodes.Keys)
  {
    FindSound(p, p, false, state, choose);
  }

  /** `symmetryConditions` never fails on a missing key, and every
      condition `(a, b)` it returns names two pattern nodes with `a < b`. */
  lemma SymmetryOrdered(p: Frame, state: Option<Name>, choose: Oracle)
    requires FindInstances(p, p, false, state, choose).Ok?
    ensures SymmetryConditions(p, state, choose) != Err(KeyError)
    ensures SymmetryConditions(p, state, choose).Ok? ==>
              forall c :: c in SymmetryConditions(p, state, choose).value.0 ==>
                c.0 in p.nodes && c.1 in p.nodes && c.0 < c.1
  {
    var aut := FindInstances(p, p, false, state, choose).value;
    AutomorphismsPermute(p, state, choose);
    PruneOrdered(aut.0, p.nodes.Keys);
  }
}
