/**
  `Rewriting._generateRewritingEventFromExtraction`: the alternative way of
  placing a rule, which relabels the i-th listed id of the rule to the i-th
  node of the extraction subgraph.
*/
module Generate {
  import opened Order
  import opened Wrappers
  import opened Graphs
  import opened Deltas
  import opened Labels
  import opened Symmetry
  import opened Isomorphism


  /** `mapDict` once the loop has run over `ks`: the value stored under an
      id is the target at its last position, since a later assignment
      overrides an earlier one. */
  function Positions(ks: seq<NodeId>, ts: seq<NodeId>): (f: Mapping)
    requires |ks| <= |ts|
    ensures forall k :: k in f <==> k in ks
  {
    if ks == [] then map[]
    else
      var rest := Positions(ks[1..], ts[1..]);
      assert forall k :: k in ks <==> k == ks[0] || k in ks[1..];
      if ks[0] in rest then rest else rest[ks[0] := ts[0]]
  }

  /** The loop filling `mapDict`; running out of targets is `IndexError`. */
  function PositionMap(ks: seq<NodeId>, ts: seq<NodeId>): (r: Result<Mapping>)
    ensures r.Err? <==> |ks| > |ts|
    ensures r.Err? ==> r.error == IndexError
    ensures r.Ok? ==> forall k :: k in r.value <==> k in ks
  {
    if |ks| > |ts| then Err(IndexError) else Ok(Positions(ks, ts))
  }

  /** An id goes to the target at its last position. */
  lemma {:induction false} PositionsLast(ks: seq<NodeId>, ts: seq<NodeId>, i: nat)
    requires |ks| <= |ts| && i < |ks|
    requires forall j :: i < j < |ks| ==> ks[j] != ks[i]
    ensures Positions(ks, ts)[ks[i]] == ts[i]
  {
    var rest := Positions(ks[1..], ts[1..]);
    if i == 0 {
      assert forall j :: 0 <= j < |ks| - 1 ==> ks[1..][j] == ks[j + 1];
      assert ks[0] !in ks[1..];
    } else {
      assert ks[1..][i - 1] == ks[i] && ts[1..][i - 1] == ts[i];
      assert forall j :: i - 1 < j < |ks| - 1 ==> ks[1..][j] == ks[j + 1];
      PositionsLast(ks[1..], ts[1..], i - 1);
      assert ks[i] in ks[1..];
    }
  }

  /** Distinct ids go to the targets at their own positions. */
  lemma PositionsAt(ks: seq<NodeId>, ts: seq<NodeId>)
    requires Distinct(ks) && |ks| <= |ts|
    ensures forall i :: 0 <= i < |ks| ==> Positions(ks, ts)[ks[i]] == ts[i]
  {
    forall i | 0 <= i < |ks|
      ensures Positions(ks, ts)[ks[i]] == ts[i]
    {
      PositionsLast(ks, ts, i);
    }
  }

  /** `_generateRewritingEventFromExtraction(extraction, rewriting, mapping)`. */
  function GenerateEvent(extraction: Frame, rewriting: Delta, mapping: seq<NodeId>): (r: Result<Delta>)
    ensures r.Err? <==> |mapping| > |extraction.nodes.Keys|
    ensures r.Ok? ==> r.value.directed == rewriting.directed
  {
    var f :- PositionMap(mapping, NodeList(extraction));
    Ok(Relabel(rewriting, f))
  }

  /** With distinct listed ids that cover the rule and no more of them
      than the extraction has nodes, the event is the rule renamed without
      merging, the i-th listed id becoming the extraction's i-th node. */
  lemma GenerateRenames(extraction: Frame, rewriting: Delta, mapping: seq<NodeId>)
    requires WellFormed(rewriting) && Distinct(mapping)
    requires |mapping| <= |extraction.nodes.Keys|
    requires forall x :: x in rewriting.nodes ==> x in mapping
    ensures GenerateEvent(extraction, rewriting, mapping).Ok?
    ensures Renames(rewriting, GenerateEvent(extraction, rewriting, mapping).value,
                    PositionMap(mapping, NodeList(extraction)).value)
    ensures forall i :: 0 <= i < |mapping| ==>
              Ren(PositionMap(mapping, NodeList(extraction)).value, mapping[i]) == NodeList(extraction)[i]
  {
    var ts := NodeList(extraction);
    var f := Positions(mapping, ts);
    assert PositionMap(mapping, ts) == Ok(f);
    PositionsAt(mapping, ts);
    PositionsInjective(mapping, ts, rewriting.nodes.Keys);
    RelabelRenames(rewriting, f);
  }

  /** Distinct ids sent to distinct targets: no two ids of `s` merge. */
  lemma PositionsInjective(ks: seq<NodeId>, ts: seq<NodeId>, s: set<NodeId>)
    requires Distinct(ks) && Distinct(ts) && |ks| <= |ts|
    requires forall x :: x in s ==> x in ks
    ensures InjectiveOn(Positions(ks, ts), s)
  {
    var f := Positions(ks, ts);
    PositionsAt(ks, ts);
    forall a, b | a in s && b in s && Ren(f, a) == Ren(f, b)
      ensures a == b
    {
      var i :| 0 <= i < |ks| && ks[i] == a;
      var j :| 0 <= j < |ks| && ks[j] == b;
      assert ts[i] == ts[j];
    }
  }
}
