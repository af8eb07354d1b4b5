/**
  The pruning loop of `Utility.symmetryConditions`, which turns the
  automorphisms of a pattern into Grochow-Kellis symmetry-breaking
  conditions. While more than one automorphism is left, it takes the
  smallest id any of them moves, records one condition `(k, v)` per image
  `v != k` of that id, and keeps only the automorphisms that fix it.
  Iterating a Python set of small ids is taken to visit them in ascending
  order.
*/
module Symmetry {
  import opened Order
  import opened Wrappers

  /** A pattern-to-target node assignment, as the matcher builds it. */
  type Mapping = map<NodeId, NodeId>

  /** `(a, b)`: a match must send `a` no higher than `b`. */
  type Condition = (NodeId, NodeId)

  /** The ids some listed mapping moves. */
  function Moved(aut: seq<Mapping>): (s: set<NodeId>)
    ensures forall x :: x in s <==> exists i :: 0 <= i < |aut| && x in aut[i] && aut[i][x] != x
  {
    set i, x | 0 <= i < |aut| && x in aut[i] && aut[i][x] != x :: x
  }

  /** The mappings that fix `k`, in their original order. */
  function Fixing(aut: seq<Mapping>, k: NodeId): (r: seq<Mapping>)
    requires forall i :: 0 <= i < |aut| ==> k in aut[i]
    ensures forall x :: x in r <==> x in aut && x[k] == k
    ensures |r| <= |aut|
    ensures (exists i :: 0 <= i < |aut| && aut[i][k] != k) ==> |r| < |aut|
  {
    if aut == [] then []
    else
      var tail := Fixing(aut[1..], k);
      assert forall i :: 1 <= i < |aut| ==> aut[i] == aut[1..][i - 1];
      (if aut[0][k] == k then [aut[0]] else []) + tail
  }

  /** The images of `k` other than `k` itself. */
  function Images(aut: seq<Mapping>, k: NodeId): (s: set<NodeId>)
    requires forall i :: 0 <= i < |aut| ==> k in aut[i]
    ensures forall v :: v in s ==> v != k && exists x :: x in aut && k in x && x[k] == v
  {
    set i | 0 <= i < |aut| && aut[i][k] != k :: aut[i][k]
  }

  function Pairs(k: NodeId, vs: seq<NodeId>): (r: seq<Condition>)
    ensures |r| == |vs|
    ensures forall i :: 0 <= i < |r| ==> r[i] == (k, vs[i])
    ensures forall c :: c in r <==> c.0 == k && c.1 in vs
  {
    seq(|vs|, i requires 0 <= i < |vs| => (k, vs[i]))
  }

  /** Every condition recorded for `k` names an image of `k`. */
  lemma {:induction false} PairsWitnessed(aut: seq<Mapping>, k: NodeId)
    requires forall i :: 0 <= i < |aut| ==> k in aut[i]
    ensures forall c :: c in Pairs(k, SortedNats(Images(aut, k))) ==>
              c.0 == k && c.1 != k && exists x :: x in aut && k in x && x[k] == c.1
  {
    var vs := SortedNats(Images(aut, k));
    forall c | c in Pairs(k, vs)
      ensures c.0 == k && c.1 != k && exists x :: x in aut && k in x && x[k] == c.1
    {
      var j :| 0 <= j < |vs| && Pairs(k, vs)[j] == c;
      assert vs[j] in Images(aut, k);
    }
  }

  /** The loop, from a list of automorphisms to the recorded conditions.
      `min` of an empty list raises `ValueError`; a mapping without the
      chosen id raises `KeyError`. */
  function Prune(aut: seq<Mapping>): (r: Result<seq<Condition>>)
    ensures |aut| <= 1 ==> r == Ok([])
    ensures |aut| > 1 && Moved(aut) == {} ==> r == Err(ValueError)
    ensures r.Err? ==> r.error == ValueError || r.error == KeyError
    ensures r.Ok? ==> forall c :: c in r.value ==>
              c.0 != c.1 && exists x :: x in aut && c.0 in x && x[c.0] == c.1
    decreases |aut|
  {
    if |aut| <= 1 then Ok([])
    else
      var moved := Moved(aut);
      if moved == {} then Err(ValueError)
      else
        var k := MinNat(moved);
        if exists i :: 0 <= i < |aut| && k !in aut[i] then Err(KeyError)
        else
          var rest :- Prune(Fixing(aut, k));
          var here := Pairs(k, SortedNats(Images(aut, k)));
          PairsWitnessed(aut, k);
          Ok(here + rest)
  }

  /** `x` permutes the ids `keys`: the shape of an automorphism. */
  ghost predicate Permutes(x: Mapping, keys: set<NodeId>)
  {
    x.Keys == keys &&
    (forall a {:trigger x[a]} :: a in x ==> x[a] in keys) &&
    (forall a, b :: a in x && b in x && x[a] == x[b] ==> a == b)
  }

  /** The smallest moved id is sent upwards by every mapping that moves it:
      an image below it would be moved too. */
  lemma {:induction false} MovedUpwards(aut: seq<Mapping>, keys: set<NodeId>, x: Mapping)
    requires forall y :: y in aut ==> Permutes(y, keys)
    requires Moved(aut) != {} && x in aut
    requires MinNat(Moved(aut)) in x && x[MinNat(Moved(aut))] != MinNat(Moved(aut))
    ensures x[MinNat(Moved(aut))] > MinNat(Moved(aut))
  {
    var k := MinNat(Moved(aut));
    var v := x[k];
    assert v in x;
    assert x[v] != x[k];
    var i :| 0 <= i < |aut| && aut[i] == x;
    assert v in Moved(aut);
  }

  /** Every listed automorphism holds the smallest moved id. */
  lemma {:induction false} MovedHeld(aut: seq<Mapping>, keys: set<NodeId>)
    requires forall y :: y in aut ==> Permutes(y, keys)
    requires Moved(aut) != {}
    ensures forall i :: 0 <= i < |aut| ==> MinNat(Moved(aut)) in aut[i]
  {
    var k := MinNat(Moved(aut));
    var i0 :| 0 <= i0 < |aut| && k in aut[i0] && aut[i0][k] != k;
    assert aut[i0] in aut;
    forall i | 0 <= i < |aut|
      ensures k in aut[i]
    {
      assert aut[i] in aut;
    }
  }

  /** Each image of the smallest moved id lies above it. */
  lemma {:induction false} ImageAbove(aut: seq<Mapping>, keys: set<NodeId>, v: NodeId)
    requires forall y :: y in aut ==> Permutes(y, keys)
    requires Moved(aut) != {}
    requires forall i :: 0 <= i < |aut| ==> MinNat(Moved(aut)) in aut[i]
    requires v in Images(aut, MinNat(Moved(aut)))
    ensures v > MinNat(Moved(aut))
  {
    var k := MinNat(Moved(aut));
    var i :| 0 <= i < |aut| && aut[i][k] != k && aut[i][k] == v;
    assert aut[i] in aut;
    MovedUpwards(aut, keys, aut[i]);
  }

  /** On automorphisms the loop never misses a key, and every recorded
      condition `(a, b)` has `a < b`. */
  lemma {:induction false} PruneOrdered(aut: seq<Mapping>, keys: set<NodeId>)
    requires forall y :: y in aut ==> Permutes(y, keys)
    ensures Prune(aut) != Err(KeyError)
    ensures Prune(aut).Ok? ==> forall c :: c in Prune(aut).value ==> c.0 < c.1
    decreases |aut|
  {
    if |aut| > 1 && Moved(aut) != {} {
      MovedHeld(aut, keys);
      var k := MinNat(Moved(aut));
      PruneOrdered(Fixing(aut, k), keys);
      forall v | v in Images(aut, k)
        ensures k < v
      {
        ImageAbove(aut, keys, v);
      }
    }
  }
}
