/**
  `RecipeBuilder.py`: the right-hand side of a rewriting rule counts the
  changes a delta records, and the union method turns every delta of a
  compressed sequence into one transition of a single transition list.
*/
module RecipeBuilder {
  import opened Order
  import opened Wrappers
  import opened Graphs
  import opened Deltas
  import opened Extraction
  import opened Motifs
  import opened Recipes

  /** `Motif.RHS`: the delta and its six change counts. */
  datatype Rhs = Rhs(graph: Delta, data: seq<nat>)

  /** The change counts of a delta, position by position as `ChangeData`
      lays them out. */
  ghost function ChangeCounts(d: Delta): (v: seq<nat>)
    ensures |v| == |AllData|
  {
    [|Tagged(d.nodes, {Added})|, |Tagged(d.nodes, {Deleted})|, |Tagged(d.nodes, {StateChanged})|,
     |Tagged(d.edges, {Added})|, |Tagged(d.edges, {Deleted})|, |Tagged(d.edges, {StateChanged})|]
  }

  /** The elements of `keys` seen so far that carry tag `t`. */
  ghost function Seen<K>(m: map<K, Marked>, keys: seq<K>, t: Tag): set<K>
  {
    set x | x in keys && x in m && m[x].tag == t
  }

  lemma SeenStep<K>(m: map<K, Marked>, keys: seq<K>, i: nat, t: Tag)
    requires i < |keys| && keys[i] in m
    requires forall j :: 0 <= j < i ==> keys[j] != keys[i]
    ensures |Seen(m, keys[..i + 1], t)| == |Seen(m, keys[..i], t)| + (if m[keys[i]].tag == t then 1 else 0)
  {
    assert keys[..i + 1] == keys[..i] + [keys[i]];
    if m[keys[i]].tag == t {
      assert keys[i] !in Seen(m, keys[..i], t);
      assert Seen(m, keys[..i + 1], t) == Seen(m, keys[..i], t) + {keys[i]};
    } else {
      assert Seen(m, keys[..i + 1], t) == Seen(m, keys[..i], t);
    }
  }

  lemma SeenAll<K>(m: map<K, Marked>, keys: seq<K>, t: Tag)
    requires forall x :: x in keys <==> x in m
    ensures Seen(m, keys, t) == Tagged(m, {t})
  {
  }

  /** One of the two loops of `construct_rhs`: the entry at `added`,
      `deleted` or `changed` is incremented for each element with that
      tag, and 'None' elements count nowhere. */
  method CountInto<K>(m: map<K, Marked>, keys: seq<K>, data: seq<nat>, added: nat, deleted: nat, changed: nat)
    returns (r: seq<nat>)
    requires forall x :: x in keys <==> x in m
    requires forall i, j :: 0 <= i < j < |keys| ==> keys[i] != keys[j]
    requires added < |data| && deleted < |data| && changed < |data|
    requires added != deleted && added != changed && deleted != changed
    ensures |r| == |data|
    ensures r[added] == data[added] + |Tagged(m, {Added})|
    ensures r[deleted] == data[deleted] + |Tagged(m, {Deleted})|
    ensures r[changed] == data[changed] + |Tagged(m, {StateChanged})|
    ensures forall p :: 0 <= p < |data| && p != added && p != deleted && p != changed ==> r[p] == data[p]
  {
    r := data;
    var i := 0;
    while i < |keys|
      invariant 0 <= i <= |keys| && |r| == |data|
      invariant r[added] == data[added] + |Seen(m, keys[..i], Added)|
      invariant r[deleted] == data[deleted] + |Seen(m, keys[..i], Deleted)|
      invariant r[changed] == data[changed] + |Seen(m, keys[..i], StateChanged)|
      invariant forall p :: 0 <= p < |data| && p != added && p != deleted && p != changed ==> r[p] == data[p]
    {
      SeenStep(m, keys, i, Added);
      SeenStep(m, keys, i, Deleted);
      SeenStep(m, keys, i, StateChanged);
      var tag := m[keys[i]].tag;
      if tag == Added {
        r := r[added := r[added] + 1];
      } else if tag == Deleted {
        r := r[deleted := r[deleted] + 1];
      } else if tag == StateChanged {
        r := r[changed := r[changed] + 1];
      }
      i := i + 1;
    }
    assert keys[..i] == keys;
    SeenAll(m, keys, Added);
    SeenAll(m, keys, Deleted);
    SeenAll(m, keys, StateChanged);
  }

  /** `construct_rhs`: six zeroes, then one pass over the nodes and one
      over the edges. */
  method ConstructRhs(d: Delta) returns (rhs: Rhs)
    ensures rhs.graph == d
    ensures rhs.data == ChangeCounts(d)
  {
    var ids := SortedNats(d.nodes.Keys);
    IncreasingDistinct(ids);
    var es := SortedEdges(d.edges.Keys);
    var zero: seq<nat> := [0, 0, 0, 0, 0, 0];
    var nodes := CountInto(d.nodes, ids, zero, NodeAdded, NodeDeleted, NodeStateChange);
    var data := CountInto(d.edges, es, nodes, EdgeAdded, EdgeDeleted, EdgeStateChange);
    SameCounts(d, data);
    rhs := Rhs(d, data);
  }

  lemma SameCounts(d: Delta, data: seq<nat>)
    requires |data| == 6
    requires data[0] == |Tagged(d.nodes, {Added})| && data[1] == |Tagged(d.nodes, {Deleted})|
    requires data[2] == |Tagged(d.nodes, {StateChanged})| && data[3] == |Tagged(d.edges, {Added})|
    requires data[4] == |Tagged(d.edges, {Deleted})| && data[5] == |Tagged(d.edges, {StateChanged})|
    ensures data == ChangeCounts(d)
  {
  }

  /** The change tags split the changed elements three ways. */
  lemma TagsPartition<K>(m: map<K, Marked>)
    ensures |Tagged(m, ChangeTags)| == |Tagged(m, {Added})| + |Tagged(m, {Deleted})| + |Tagged(m, {StateChanged})|
  {
    var a, dl, s := Tagged(m, {Added}), Tagged(m, {Deleted}), Tagged(m, {StateChanged});
    assert Tagged(m, ChangeTags) == a + dl + s;
    assert a * dl == {} && (a + dl) * s == {};
  }

  lemma SumSix(v: seq<nat>)
    requires |v| == 6
    ensures SumNat(v) == v[0] + v[1] + v[2] + v[3] + v[4] + v[5]
  {
    assert v[..0] == [];
    forall k | 0 <= k < 6
      ensures SumNat(v[..k + 1]) == SumNat(v[..k]) + v[k]
    {
      assert v[..k + 1] == v[..k] + [v[k]];
      SumNatAppend(v[..k], v[k]);
    }
    assert v[..6] == v;
  }

  /** The six counts add up to the number of changes `getNumberOfChanges`
      reports for the same delta: 'None' elements count nowhere. */
  lemma CountsSumToChanges(d: Delta)
    ensures SumNat(ChangeCounts(d)) == |ChangedNodes(d)| + |ChangedEdges(d)|
  {
    TagsPartition(d.nodes);
    TagsPartition(d.edges);
    SumSix(ChangeCounts(d));
  }

  /** The pair (`lhs`, `rhs`) is the one built from one of the first `m`
      deltas: the right-hand side holds that delta and its change counts,
      and the left-hand side is its extraction subgraph. */
  ghost predicate FromDelta(lhs: Frame, rhs: Rhs, deltas: seq<Delta>, m: nat)
  {
    m <= |deltas| && rhs.graph in deltas[..m] && rhs.data == ChangeCounts(rhs.graph) &&
    WellFormed(rhs.graph) && ExtractionSubgraph(rhs.graph) == Ok(lhs)
  }

  ghost predicate AllFromDeltas(ts: seq<Transition<Frame, Rhs>>, deltas: seq<Delta>, m: nat)
  {
    forall j :: 0 <= j < |ts| ==> FromDelta(ts[j].lhs, ts[j].rhs, deltas, m)
  }

  lemma FromDeltaGrows(lhs: Frame, rhs: Rhs, deltas: seq<Delta>, m: nat)
    requires FromDelta(lhs, rhs, deltas, m) && m < |deltas|
    ensures FromDelta(lhs, rhs, deltas, m + 1)
  {
    assert deltas[..m + 1] == deltas[..m] + [deltas[m]];
  }

  /** One more delta's pair inserted: every transition still comes from a
      delta among the first `m + 1`. */
  lemma InsertFromDeltas(t: TransitionList<Frame, Rhs>, lhs: Frame, rhs: Rhs,
                         eqL: (Frame, Frame) -> bool, eqR: (Rhs, Rhs) -> bool, deltas: seq<Delta>, m: nat)
    requires AllFromDeltas(t.transitions, deltas, m) && m < |deltas|
    requires FromDelta(lhs, rhs, deltas, m + 1)
    ensures AllFromDeltas(InsertTransition(t, lhs, rhs, eqL, eqR).transitions, deltas, m + 1)
  {
    var r := InsertTransition(t, lhs, rhs, eqL, eqR);
    forall j | 0 <= j < |r.transitions|
      ensures FromDelta(r.transitions[j].lhs, r.transitions[j].rhs, deltas, m + 1)
    {
      if j < |t.transitions| {
        assert r.transitions[j].lhs == t.transitions[j].lhs && r.transitions[j].rhs == t.transitions[j].rhs;
        FromDeltaGrows(t.transitions[j].lhs, t.transitions[j].rhs, deltas, m);
      }
    }
  }

  /** The transition `x` holds the pair (`lhs`, `rhs`): it was created from
      that pair, or its sides compare equal to it as
      `insert_motif_transition` compares them. */
  predicate Holds(x: Transition<Frame, Rhs>, lhs: Frame, rhs: Rhs, eqL: (Frame, Frame) -> bool, eqR: (Rhs, Rhs) -> bool)
  {
    (x.lhs == lhs && x.rhs == rhs) || Matches(x, lhs, rhs, eqL, eqR)
  }

  /** Every one of the first `m` deltas that can be extracted has its pair
      (extraction subgraph, right-hand side) held by some transition. */
  ghost predicate Covers(ts: seq<Transition<Frame, Rhs>>, deltas: seq<Delta>, m: nat,
                         eqL: (Frame, Frame) -> bool, eqR: (Rhs, Rhs) -> bool)
  {
    forall k :: 0 <= k < m && Extractable(deltas, k) ==>
      exists j :: 0 <= j < |ts| &&
        Holds(ts[j], ExtractionSubgraph(deltas[k]).value, Rhs(deltas[k], ChangeCounts(deltas[k])), eqL, eqR)
  }

  /** An insertion keeps the sides of every transition already present and
      leaves the inserted pair held by some transition. */
  lemma InsertHolds(t: TransitionList<Frame, Rhs>, lhs: Frame, rhs: Rhs,
                    eqL: (Frame, Frame) -> bool, eqR: (Rhs, Rhs) -> bool)
    ensures var r := InsertTransition(t, lhs, rhs, eqL, eqR);
      |t.transitions| <= |r.transitions| &&
      (forall j :: 0 <= j < |t.transitions| ==>
         r.transitions[j].lhs == t.transitions[j].lhs && r.transitions[j].rhs == t.transitions[j].rhs) &&
      exists j :: 0 <= j < |r.transitions| && Holds(r.transitions[j], lhs, rhs, eqL, eqR)
  {
    var ts := t.transitions;
    var r := InsertTransition(t, lhs, rhs, eqL, eqR);
    match FindMatch(ts, 0, lhs, rhs, eqL, eqR)
    case Some(k) =>
      assert Holds(r.transitions[k], lhs, rhs, eqL, eqR);
    case None =>
      assert Holds(r.transitions[|ts|], lhs, rhs, eqL, eqR);
  }

  /** Inserting delta `m`'s pair extends the coverage to the first `m + 1`
      deltas. */
  lemma InsertCovers(t: TransitionList<Frame, Rhs>, deltas: seq<Delta>, m: nat,
                     eqL: (Frame, Frame) -> bool, eqR: (Rhs, Rhs) -> bool)
    requires Covers(t.transitions, deltas, m, eqL, eqR) && Extractable(deltas, m)
    ensures Covers(InsertTransition(t, ExtractionSubgraph(deltas[m]).value, Rhs(deltas[m], ChangeCounts(deltas[m])),
                                    eqL, eqR).transitions, deltas, m + 1, eqL, eqR)
  {
    var lhs := ExtractionSubgraph(deltas[m]).value;
    var rhs := Rhs(deltas[m], ChangeCounts(deltas[m]));
    var r := InsertTransition(t, lhs, rhs, eqL, eqR);
    InsertHolds(t, lhs, rhs, eqL, eqR);
    forall k | 0 <= k < m + 1 && Extractable(deltas, k)
      ensures exists j :: (0 <= j < |r.transitions| &&
                Holds(r.transitions[j], ExtractionSubgraph(deltas[k]).value, Rhs(deltas[k], ChangeCounts(deltas[k])), eqL, eqR))
    {
      if k < m {
        var lk := ExtractionSubgraph(deltas[k]).value;
        var rk := Rhs(deltas[k], ChangeCounts(deltas[k]));
        var j :| 0 <= j < |t.transitions| && Holds(t.transitions[j], lk, rk, eqL, eqR);
        assert Holds(r.transitions[j], lk, rk, eqL, eqR);
      }
    }
  }

  /** The number of adjacent pairs among `n` frames. */
  function Pairs(n: nat): nat
  {
    if n == 0 then 0 else n - 1
  }

  /** Delta `k` exists and its extraction subgraph can be built. */
  ghost predicate Extractable(deltas: seq<Delta>, k: nat)
  {
    k < |deltas| && WellFormed(deltas[k]) && ExtractionSubgraph(deltas[k]).Ok?
  }

  /** The first `m` deltas exist and can be extracted. */
  ghost predicate ExtractableUpTo(deltas: seq<Delta>, m: nat)
  {
    forall k :: 0 <= k < m ==> Extractable(deltas, k)
  }

  lemma ExtractableGrows(deltas: seq<Delta>, m: nat)
    requires ExtractableUpTo(deltas, m) && Extractable(deltas, m)
    ensures ExtractableUpTo(deltas, m + 1)
  {
  }

  /** One pass of the insertion loop: the extraction subgraph and the
      right-hand side of delta `i` are inserted as a transition. */
  method InsertDelta(t: TransitionList<Frame, Rhs>, deltas: seq<Delta>, i: nat,
                     eqL: (Frame, Frame) -> bool, eqR: (Rhs, Rhs) -> bool)
    returns (r: Result<TransitionList<Frame, Rhs>>)
    requires i < |deltas| && WellFormed(deltas[i])
    requires AllFromDeltas(t.transitions, deltas, i)
    ensures r.Ok? <==> Extractable(deltas, i)
    ensures r.Err? ==> r.error == KeyError
    ensures r.Ok? ==> Sum(r.value.transitions) == Sum(t.transitions) + 1
    ensures r.Ok? ==> AllFromDeltas(r.value.transitions, deltas, i + 1)
    ensures r.Ok? && Covers(t.transitions, deltas, i, eqL, eqR) ==> Covers(r.value.transitions, deltas, i + 1, eqL, eqR)
  {
    var d := deltas[i];
    var lhs := ExtractionSubgraph(d);
    if lhs.Err? {
      return Err(lhs.error);
    }
    var rhs := ConstructRhs(d);
    InsertAddsOne(t, lhs.value, rhs, eqL, eqR);
    assert FromDelta(lhs.value, rhs, deltas, i + 1) by {
      assert deltas[..i + 1][i] == d;
    }
    InsertFromDeltas(t, lhs.value, rhs, eqL, eqR, deltas, i);
    if Covers(t.transitions, deltas, i, eqL, eqR) {
      assert rhs == Rhs(d, ChangeCounts(d));
      InsertCovers(t, deltas, i, eqL, eqR);
    }
    return Ok(InsertTransition(t, lhs.value, rhs, eqL, eqR));
  }

  /** The insertion loop of `union_method`: one transition per delta
      index 1 .. inputCount - 1, stopping at the first delta index past the
      compressed list (`_getCompressedNetworkAt` raises KeyError for an
      invalid index) or the first delta whose extraction raises KeyError. */
  method InsertAll(inputCount: nat, deltas: seq<Delta>, eqL: (Frame, Frame) -> bool, eqR: (Rhs, Rhs) -> bool)
    returns (r: Result<TransitionList<Frame, Rhs>>)
    requires forall k :: 0 <= k < |deltas| ==> WellFormed(deltas[k])
    ensures r.Ok? <==> ExtractableUpTo(deltas, Pairs(inputCount))
    ensures r.Err? ==> r.error == KeyError
    ensures r.Ok? ==> Sum(r.value.transitions) == Pairs(inputCount)
    ensures r.Ok? ==> AllFromDeltas(r.value.transitions, deltas, Pairs(inputCount))
    ensures r.Ok? ==> Covers(r.value.transitions, deltas, Pairs(inputCount), eqL, eqR)
  {
    var t: TransitionList<Frame, Rhs> := EmptyList();
    var i := 0;
    while i < Pairs(inputCount)
      invariant 0 <= i <= Pairs(inputCount)
      invariant Sum(t.transitions) == i
      invariant ExtractableUpTo(deltas, i)
      invariant AllFromDeltas(t.transitions, deltas, i)
      invariant Covers(t.transitions, deltas, i, eqL, eqR)
    {
      if i >= |deltas| {
        assert !Extractable(deltas, i);
        return Err(KeyError);
      }
      var step := InsertDelta(t, deltas, i, eqL, eqR);
      if step.Err? {
        return Err(step.error);
      }
      ExtractableGrows(deltas, i);
      t := step.value;
      i := i + 1;
    }
    return Ok(t);
  }

  /** `union_method` over the deltas of a compressed sequence of
      `inputCount` frames: the transitions `InsertAll` collects run for
      `inputCount` iterations, as the only list of a new recipe. */
  method UnionMethod(inputCount: nat, deltas: seq<Delta>, eqL: (Frame, Frame) -> bool, eqR: (Rhs, Rhs) -> bool)
    returns (r: Result<Recipe<Frame, Rhs>>)
    requires forall k :: 0 <= k < |deltas| ==> WellFormed(deltas[k])
    ensures r.Ok? <==> ExtractableUpTo(deltas, Pairs(inputCount))
    ensures r.Err? ==> r.error == KeyError
    ensures r.Ok? ==> |r.value.sets| == 1 && Consistent(r.value)
    ensures r.Ok? ==> r.value.totalIterations == r.value.sets[0].numIterations == inputCount
    ensures r.Ok? ==> Sum(r.value.sets[0].transitions) == Pairs(inputCount)
    ensures r.Ok? ==> AllFromDeltas(r.value.sets[0].transitions, deltas, Pairs(inputCount))
    ensures r.Ok? ==> Covers(r.value.sets[0].transitions, deltas, Pairs(inputCount), eqL, eqR)
  {
    var t :- InsertAll(inputCount, deltas, eqL, eqR);
    t := SetNumIterations(t, inputCount);
    r := Ok(AddTransitionList(EmptyRecipe(), t));
  }
}
