/**
  `MotifExtraction.py`, the bookkeeping behind proportional selection of
  extraction subgraphs. `extractionMap` holds, per extraction subgraph,
  the sampled matches of it and an exclusion list of sample indices; the
  proportional-selection table gives every entry a slot whose width is its
  number of samples (the bounds are running sums, so a uniform draw below
  the last bound lands in a slot with probability proportional to its
  width); the GTrie match pool maps a table index to the matches still
  available for it.
*/
module Selection {
  import opened Order
  import opened Wrappers
  import opened Motifs

  datatype Entry<G, S> = Entry(graph: G, samples: seq<S>, exclusion: seq<nat>)

  /** A row `[graph, bound, picks]` of `proportionalSelection`. */
  datatype Row<G> = Row(graph: G, bound: int, picks: int)

  datatype Extractions<G, S> =
    Extractions(entries: seq<Entry<G, S>>, selection: seq<Row<G>>, matches: map<nat, seq<S>>)

  /** The slot widths: the number of samples per entry. */
  function Widths<G, S>(entries: seq<Entry<G, S>>): (ws: seq<nat>)
    ensures |ws| == |entries|
    ensures forall i :: 0 <= i < |entries| ==> ws[i] == |entries[i].samples|
  {
    seq(|entries|, i requires 0 <= i < |entries| => |entries[i].samples|)
  }

  /** The table as running sums of the widths, all pick counters zero. */
  ghost function Table<G, S>(entries: seq<Entry<G, S>>): (t: seq<Row<G>>)
    ensures |t| == |entries|
  {
    seq(|entries|, i requires 0 <= i < |entries| => Row(entries[i].graph, Running(Widths(entries), i), 0))
  }

  lemma RunningStep(ws: seq<nat>, i: nat)
    requires 0 < i < |ws|
    ensures Running(ws, i) == Running(ws, i - 1) + ws[i]
  {
    assert ws[..i + 1][..i] == ws[..i];
  }

  lemma RunningFirst(ws: seq<nat>)
    requires 0 < |ws|
    ensures Running(ws, 0) == ws[0]
  {
    assert ws[..1][..0] == [] && ws[..1][0] == ws[0];
    assert SumNat(ws[..1]) == SumNat(ws[..1][..0]) + ws[0];
  }

  /** `generateProportionalSelectionData`: each row's bound exceeds the
      previous one by exactly its entry's number of samples. */
  method GenerateSelection<G, S>(entries: seq<Entry<G, S>>) returns (sel: seq<Row<G>>)
    ensures |sel| == |entries|
    ensures forall i :: 0 <= i < |sel| ==> sel[i].graph == entries[i].graph && sel[i].picks == 0
    ensures |sel| > 0 ==> sel[0].bound == |entries[0].samples|
    ensures forall i :: 0 < i < |sel| ==> sel[i].bound == sel[i - 1].bound + |entries[i].samples|
    ensures sel == Table(entries)
  {
    ghost var ws := Widths(entries);
    sel := [];
    var i := 0;
    while i < |entries|
      invariant 0 <= i <= |entries| && |sel| == i
      invariant forall j :: 0 <= j < i ==> sel[j] == Row(entries[j].graph, Running(ws, j), 0)
    {
      var e := entries[i];
      if sel == [] {
        RunningFirst(ws);
        sel := sel + [Row(e.graph, |e.samples|, 0)];
      } else {
        RunningStep(ws, i);
        sel := sel + [Row(e.graph, sel[|sel| - 1].bound + |e.samples|, 0)];
      }
      i := i + 1;
    }
    forall i | 0 < i < |sel|
      ensures sel[i].bound == sel[i - 1].bound + |entries[i].samples|
    {
      RunningStep(ws, i);
    }
    if |sel| > 0 {
      RunningFirst(ws);
    }
  }

  lemma {:induction false} RunningMonotone(ws: seq<nat>, i: nat, j: nat)
    requires i <= j < |ws|
    ensures Running(ws, i) <= Running(ws, j)
    decreases j - i
  {
    if i < j {
      RunningMonotone(ws, i, j - 1);
      RunningStep(ws, j);
    }
  }

  /** The bounds never decrease, and the last one is the total number of
      samples. */
  lemma TableSorted<G, S>(entries: seq<Entry<G, S>>, i: nat, j: nat)
    requires i <= j < |entries|
    ensures Table(entries)[i].bound <= Table(entries)[j].bound
    ensures Table(entries)[|entries| - 1].bound == SumNat(Widths(entries))
  {
    RunningMonotone(Widths(entries), i, j);
    assert Widths(entries)[..|entries|] == Widths(entries);
  }

  /** `rebalanceProportionalSelectionData(k)`: the rows from `k` on lose the
      width of entry `k`. */
  function Rebalance<G, S>(entries: seq<Entry<G, S>>, sel: seq<Row<G>>, k: nat): (r: Result<seq<Row<G>>>)
    ensures r.Err? <==> k >= |entries|
    ensures r.Err? ==> r.error == IndexError
    ensures r.Ok? ==> |r.value| == |sel|
    ensures r.Ok? ==> forall i :: 0 <= i < |sel| && i < k ==> r.value[i] == sel[i]
    ensures r.Ok? ==> forall i :: k <= i < |sel| ==>
              r.value[i] == sel[i].(bound := sel[i].bound - |entries[k].samples|)
  {
    if k >= |entries| then Err(IndexError)
    else
      var size := |entries[k].samples|;
      Ok(seq(|sel|, i requires 0 <= i < |sel| => if i < k then sel[i] else sel[i].(bound := sel[i].bound - size)))
  }

  /** Entry `k` with its samples dropped. */
  function Emptied<G, S>(entries: seq<Entry<G, S>>, k: nat): (r: seq<Entry<G, S>>)
    requires k < |entries|
    ensures |r| == |entries|
  {
    entries[k := entries[k].(samples := [])]
  }

  lemma {:induction false} RunningEmptied<G, S>(entries: seq<Entry<G, S>>, k: nat, i: nat)
    requires k < |entries| && i < |entries|
    ensures Running(Widths(Emptied(entries, k)), i)
            == Running(Widths(entries), i) - (if k <= i then |entries[k].samples| else 0)
  {
    var ws, vs := Widths(entries), Widths(Emptied(entries, k));
    if i == 0 {
      RunningFirst(ws);
      RunningFirst(vs);
    } else {
      RunningEmptied(entries, k, i - 1);
      RunningStep(ws, i);
      RunningStep(vs, i);
    }
  }

  /** Rebalancing a freshly generated table at `k` gives the table that
      entry `k` would have had with no samples at all: its slot closes. */
  lemma RebalanceClosesSlot<G, S>(entries: seq<Entry<G, S>>, k: nat)
    requires k < |entries|
    ensures Rebalance(entries, Table(entries), k) == Ok(Table(Emptied(entries, k)))
  {
    var r := Rebalance(entries, Table(entries), k).value;
    var t := Table(Emptied(entries, k));
    forall i | 0 <= i < |entries|
      ensures r[i] == t[i]
    {
      RunningEmptied(entries, k, i);
      assert Emptied(entries, k)[i].graph == entries[i].graph;
      assert Table(entries)[i] == Row(entries[i].graph, Running(Widths(entries), i), 0);
      assert t[i] == Row(entries[i].graph, Running(Widths(Emptied(entries, k)), i), 0);
    }
    assert |r| == |t|;
    assert r == t;
  }

  /** The number of matches in the pool lists named by `keys`. */
  ghost function SizeOver<S>(pool: map<nat, seq<S>>, keys: set<nat>): nat
    requires keys <= pool.Keys
    decreases keys
  {
    if keys == {} then 0
    else
      var k := MinNat(keys);
      |pool[k]| + SizeOver(pool, keys - {k})
  }

  ghost function PoolSize<S>(pool: map<nat, seq<S>>): nat
  {
    SizeOver(pool, pool.Keys)
  }

  /** Any key can be taken out first. */
  lemma {:induction false} SizeSplit<S>(pool: map<nat, seq<S>>, keys: set<nat>, x: nat)
    requires keys <= pool.Keys && x in keys
    ensures SizeOver(pool, keys) == |pool[x]| + SizeOver(pool, keys - {x})
    decreases keys
  {
    var m := MinNat(keys);
    if m != x {
      SizeSplit(pool, keys - {m}, x);
      assert keys - {m} - {x} == keys - {x} - {m};
      MinNatBelow(keys - {x}, m);
    }
  }

  /** Pools that agree on `keys` have the same size over them. */
  lemma {:induction false} SizeAgree<S>(p: map<nat, seq<S>>, q: map<nat, seq<S>>, keys: set<nat>)
    requires keys <= p.Keys && keys <= q.Keys
    requires forall k :: k in keys ==> |p[k]| == |q[k]|
    ensures SizeOver(p, keys) == SizeOver(q, keys)
    decreases keys
  {
    if keys != {} {
      SizeAgree(p, q, keys - {MinNat(keys)});
    }
  }

  /** Replacing one list changes the size by the difference in length. */
  lemma SizeUpdate<S>(pool: map<nat, seq<S>>, x: nat, v: seq<S>)
    requires x in pool
    ensures PoolSize(pool[x := v]) == PoolSize(pool) - |pool[x]| + |v|
  {
    var q := pool[x := v];
    assert q.Keys == pool.Keys;
    SizeSplit(pool, pool.Keys, x);
    SizeSplit(q, q.Keys, x);
    SizeAgree(pool, q, pool.Keys - {x});
  }

  /** `getSizeOfExtractionSubgraphGTrieMatch`: the keys are visited in
      whatever order the dictionary yields them. */
  method MatchCount<S>(pool: map<nat, seq<S>>) returns (length: nat)
    ensures length == PoolSize(pool)
  {
    length := 0;
    var rest := pool.Keys;
    while rest != {}
      invariant rest <= pool.Keys
      invariant length + SizeOver(pool, rest) == PoolSize(pool)
      decreases rest
    {
      var k :| k in rest;
      SizeSplit(pool, rest, k);
      length := length + |pool[k]|;
      rest := rest - {k};
    }
  }

  /** `removeExtractionSubgraphGTrieMatch((subgraph, key, choice))`: pops
      the match, and once the list is empty closes the key's slot. */
  function RemoveMatch<G, S>(x: Extractions<G, S>, key: nat, choice: int): (r: Result<Extractions<G, S>>)
    ensures r.Err? <==>
              key !in x.matches || !ValidIndex(choice, |x.matches[key]|) ||
              (|x.matches[key]| == 1 && key >= |x.entries|)
    ensures r.Err? && key !in x.matches ==> r.error == KeyError
    ensures r.Err? && key in x.matches ==> r.error == IndexError
    ensures r.Ok? ==> r.value.entries == x.entries
    ensures r.Ok? ==> r.value.matches.Keys == x.matches.Keys
    ensures r.Ok? ==> forall k :: k in x.matches && k != key ==> r.value.matches[k] == x.matches[k]
    ensures r.Ok? ==> multiset(r.value.matches[key]) + multiset{x.matches[key][Normal(choice, |x.matches[key]|)]}
                      == multiset(x.matches[key])
    ensures r.Ok? && r.value.matches[key] != [] ==> r.value.selection == x.selection
    ensures r.Ok? && r.value.matches[key] == [] ==>
              Rebalance(x.entries, x.selection, key) == Ok(r.value.selection)
  {
    if key !in x.matches then Err(KeyError)
    else
      var list := x.matches[key];
      if !ValidIndex(choice, |list|) then Err(IndexError)
      else
        var j := Normal(choice, |list|);
        var rest := list[..j] + list[j + 1..];
        assert list == list[..j] + [list[j]] + list[j + 1..];
        var y := x.(matches := x.matches[key := rest]);
        if |rest| == 0 then
          var sel :- Rebalance(x.entries, x.selection, key);
          Ok(y.(selection := sel))
        else Ok(y)
  }

  /** A successful removal takes exactly one match out of the pool. */
  lemma RemoveShrinksPool<G, S>(x: Extractions<G, S>, key: nat, choice: int)
    requires RemoveMatch(x, key, choice).Ok?
    ensures PoolSize(RemoveMatch(x, key, choice).value.matches) == PoolSize(x.matches) - 1
  {
    var y := RemoveMatch(x, key, choice).value;
    assert y.matches == x.matches[key := y.matches[key]];
    assert |y.matches[key]| + 1 == |x.matches[key]| by {
      var a, b := multiset(y.matches[key]), multiset(x.matches[key]);
      assert |a| + 1 == |b|;
    }
    SizeUpdate(x.matches, key, y.matches[key]);
  }

  /** `resetRewritingRuleExclusionList`: every sample index of every entry
      is eligible again, in order. */
  function ResetExclusions<G, S>(entries: seq<Entry<G, S>>): (r: seq<Entry<G, S>>)
    ensures |r| == |entries|
    ensures forall i :: 0 <= i < |entries| ==>
              r[i].graph == entries[i].graph && r[i].samples == entries[i].samples &&
              |r[i].exclusion| == |entries[i].samples|
    ensures forall i, j :: 0 <= i < |entries| && 0 <= j < |r[i].exclusion| ==> r[i].exclusion[j] == j
  {
    seq(|entries|, i requires 0 <= i < |entries| =>
      entries[i].(exclusion := seq(|entries[i].samples|, j => j)))
  }

  /** After a reset an index is excluded-list member exactly when it names a sample. */
  lemma ResetListsEverySample<G, S>(entries: seq<Entry<G, S>>, i: nat, j: nat)
    requires i < |entries|
    ensures j in ResetExclusions(entries)[i].exclusion <==> j < |entries[i].samples|
  {
    var e := ResetExclusions(entries)[i].exclusion;
    if j < |entries[i].samples| {
      assert e[j] == j;
    }
  }
}
