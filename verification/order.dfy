/**
  Deterministic iteration orders.

  The Python code walks dictionaries and sets whose iteration order the
  language leaves unspecified. The model fixes one order everywhere:
  node ids ascending, edge pairs lexicographically, attribute names in
  lexicographic character order. The first key of a dictionary is the
  least name; the last key visited is the greatest.
*/
module Order {

  type NodeId = nat
  type Edge = (NodeId, NodeId)

  // ---------------------------------------------------------------- node ids

  lemma {:induction false} MinNatBelow(s: set<nat>, y: nat)
    requires y in s
    ensures exists m :: m in s && forall x :: x in s ==> m <= x
    decreases y
  {
    if exists x :: x in s && x < y {
      var x :| x in s && x < y;
      MinNatBelow(s, x);
    }
  }

  lemma MinNatExists(s: set<nat>)
    requires s != {}
    ensures exists m :: m in s && forall x :: x in s ==> m <= x
  {
    var y :| y in s;
    MinNatBelow(s, y);
  }

  /** The least element of a non-empty set of ids. */
  function MinNat(s: set<nat>): (m: nat)
    requires s != {}
    ensures m in s
    ensures forall x :: x in s ==> m <= x
  {
    MinNatExists(s);
    var m :| m in s && forall x :: x in s ==> m <= x; m
  }

  /** The greatest element of a non-empty set of ids (Python's `max`). */
  function MaxNat(s: set<nat>): (m: nat)
    requires s != {}
    ensures m in s
    ensures forall x :: x in s ==> x <= m
    decreases |s|
  {
    var a := MinNat(s);
    if s == {a} then a
    else
      var b := MaxNat(s - {a});
      assert forall x :: x in s ==> x == a || x in s - {a};
      b
  }

  ghost predicate Increasing(xs: seq<nat>)
  {
    forall i, j :: 0 <= i < j < |xs| ==> xs[i] < xs[j]
  }

  /** No id occurs twice. */
  ghost predicate Distinct(xs: seq<nat>)
  {
    forall i, j :: 0 <= i < j < |xs| ==> xs[i] != xs[j]
  }

  /** The ids of `s` in ascending order. */
  function SortedNats(s: set<nat>): (xs: seq<nat>)
    ensures |xs| == |s|
    ensures forall x :: x in xs <==> x in s
    ensures Increasing(xs)
    decreases |s|
  {
    if s == {} then []
    else
      var m := MinNat(s);
      var rest := SortedNats(s - {m});
      [m] + rest
  }

  lemma IncreasingDistinct(xs: seq<nat>)
    requires Increasing(xs)
    ensures forall i, j :: 0 <= i < |xs| && 0 <= j < |xs| && xs[i] == xs[j] ==> i == j
  {
  }

  // ------------------------------------------------------------- edge pairs

  predicate EdgeLeq(a: Edge, b: Edge)
  {
    a.0 < b.0 || (a.0 == b.0 && a.1 <= b.1)
  }

  lemma MinEdgeExists(s: set<Edge>)
    requires s != {}
    ensures exists m :: m in s && forall x :: x in s ==> EdgeLeq(m, x)
  {
    var y :| y in s;
    if s != {y} {
      var rest := s - {y};
      MinEdgeExists(rest);
      var m :| m in rest && forall x :: x in rest ==> EdgeLeq(m, x);
      assert forall x :: x in s ==> x == y || x in rest;
      if EdgeLeq(y, m) {
        assert forall x :: x in s ==> EdgeLeq(y, x);
      } else {
        assert forall x :: x in s ==> EdgeLeq(m, x);
      }
    }
  }

  function MinEdge(s: set<Edge>): (m: Edge)
    requires s != {}
    ensures m in s
    ensures forall x :: x in s ==> EdgeLeq(m, x)
  {
    MinEdgeExists(s);
    var m :| m in s && forall x :: x in s ==> EdgeLeq(m, x); m
  }

  /** The pairs of `s` in lexicographic order, each exactly once. */
  function SortedEdges(s: set<Edge>): (xs: seq<Edge>)
    ensures |xs| == |s|
    ensures forall x :: x in xs <==> x in s
    ensures forall i, j :: 0 <= i < j < |xs| ==> xs[i] != xs[j]
    decreases |s|
  {
    if s == {} then []
    else
      var m := MinEdge(s);
      var rest := SortedEdges(s - {m});
      [m] + rest
  }

  // -------------------------------------------------------- attribute names

  /** Lexicographic order on strings, by character code. */
  predicate NameLeq(a: string, b: string)
  {
    |a| == 0 || (|b| > 0 && (a[0] < b[0] || (a[0] == b[0] && NameLeq(a[1..], b[1..]))))
  }

  lemma NameLeqAntisymmetric(a: string, b: string)
    ensures NameLeq(a, b) && NameLeq(b, a) ==> a == b
  {
    if |a| > 0 && |b| > 0 {
      NameLeqAntisymmetric(a[1..], b[1..]);
    }
  }

  lemma NameLeqTotal(a: string, b: string)
    ensures NameLeq(a, b) || NameLeq(b, a)
  {
    if |a| > 0 && |b| > 0 {
      NameLeqTotal(a[1..], b[1..]);
    }
  }

  lemma NameLeqTransitive(a: string, b: string, c: string)
    ensures NameLeq(a, b) && NameLeq(b, c) ==> NameLeq(a, c)
  {
    if |a| > 0 && |b| > 0 && |c| > 0 {
      NameLeqTransitive(a[1..], b[1..], c[1..]);
    }
  }

  lemma NameLeqIsOrder()
    ensures forall a: string, b: string :: NameLeq(a, b) && NameLeq(b, a) ==> a == b
    ensures forall a: string, b: string :: NameLeq(a, b) || NameLeq(b, a)
  {
    forall a: string, b: string
      ensures NameLeq(a, b) && NameLeq(b, a) ==> a == b
      ensures NameLeq(a, b) || NameLeq(b, a)
    {
      NameLeqAntisymmetric(a, b);
      NameLeqTotal(a, b);
    }
  }

  lemma MaxNameExists(s: set<string>)
    requires s != {}
    ensures exists m :: m in s && forall x :: x in s ==> NameLeq(x, m)
  {
    var y :| y in s;
    NameLeqTotal(y, y);
    if s == {y} {
      assert forall x :: x in s ==> NameLeq(x, y);
    } else {
      var rest := s - {y};
      MaxNameExists(rest);
      var m :| m in rest && forall x :: x in rest ==> NameLeq(x, m);
      assert forall x :: x in s ==> x == y || x in rest;
      NameLeqTotal(y, m);
      if NameLeq(m, y) {
        forall x | x in s ensures NameLeq(x, y) {
          if x != y { NameLeqTransitive(x, m, y); }
          else { NameLeqTotal(y, y); }
        }
      } else {
        forall x | x in s ensures NameLeq(x, m) {
          if x == y { NameLeqTotal(y, m); }
        }
        assert m in s;
      }
    }
  }

  lemma MinNameExists(s: set<string>)
    requires s != {}
    ensures exists m :: m in s && forall x :: x in s ==> NameLeq(m, x)
  {
    var y :| y in s;
    NameLeqTotal(y, y);
    if s == {y} {
      assert forall x :: x in s ==> NameLeq(y, x);
    } else {
      var rest := s - {y};
      MinNameExists(rest);
      var m :| m in rest && forall x :: x in rest ==> NameLeq(m, x);
      assert forall x :: x in s ==> x == y || x in rest;
      NameLeqTotal(y, m);
      if NameLeq(y, m) {
        forall x | x in s ensures NameLeq(y, x) {
          if x != y { NameLeqTransitive(y, m, x); }
          else { NameLeqTotal(y, y); }
        }
      } else {
        forall x | x in s ensures NameLeq(m, x) {
          if x == y { NameLeqTotal(y, m); }
        }
        assert m in s;
      }
    }
  }

  /** The greatest name: the last key a dictionary walk visits. */
  function MaxName(s: set<string>): (m: string)
    requires s != {}
    ensures m in s
    ensures forall x :: x in s ==> NameLeq(x, m)
  {
    MaxNameExists(s);
    NameLeqIsOrder();
    var m :| m in s && forall x :: x in s ==> NameLeq(x, m); m
  }

  /** The least name: what `keys()[0]` yields. */
  function MinName(s: set<string>): (m: string)
    requires s != {}
    ensures m in s
    ensures forall x :: x in s ==> NameLeq(m, x)
  {
    MinNameExists(s);
    NameLeqIsOrder();
    var m :| m in s && forall x :: x in s ==> NameLeq(m, x); m
  }

  // ---------------------------------------------------- sequence splitting

  lemma ConsSlice<T>(xs: seq<T>)
    requires |xs| > 0
    ensures [xs[0]] + xs[1..] == xs
  {
  }

  lemma AppendHead<T>(a: seq<T>, b: seq<T>)
    requires |b| > 0
    ensures a + [b[0]] + b[1..] == a + b
  {
  }
}
