/**
  `MotifExtraction.py`, the used-rewriting-rule buckets. Each change tag
  ('Added', 'Deleted', 'StateChanged') owns a list of the nodes and a list
  of the edges that rules applied so far have changed with that tag; a new
  rule conflicts with them when it would touch one of those elements
  again. Before the first `clearUsedRewritingRules` there are no buckets
  at all, and any lookup raises KeyError.
*/
module UsedRules {
  import opened Order
  import opened Wrappers
  import opened Graphs
  import opened Deltas

  datatype Bucket = Bucket(nodes: seq<NodeId>, edges: seq<Edge>)

  datatype Used = Unset | Buckets(added: Bucket, deleted: Bucket, changed: Bucket)

  /** `clearUsedRewritingRules`: three buckets, all empty. */
  function Clear(): (u: Used)
    ensures u.Buckets?
    ensures u.added.nodes == u.deleted.nodes == u.changed.nodes == []
    ensures u.added.edges == u.deleted.edges == u.changed.edges == []
  {
    Buckets(Bucket([], []), Bucket([], []), Bucket([], []))
  }

  /** `usedRewritingRules[t]`. */
  function BucketOf(u: Used, t: Tag): Bucket
    requires u.Buckets? && t != Unchanged
  {
    match t
    case Added => u.added
    case Deleted => u.deleted
    case StateChanged => u.changed
  }

  /** Appends to the lists of bucket `t`. */
  function Note(u: Used, t: Tag, nodes: seq<NodeId>, edges: seq<Edge>): (r: Used)
    requires u.Buckets? && t != Unchanged
    ensures r.Buckets?
    ensures BucketOf(r, t) == Bucket(BucketOf(u, t).nodes + nodes, BucketOf(u, t).edges + edges)
    ensures forall s :: s != Unchanged && s != t ==> BucketOf(r, s) == BucketOf(u, s)
  {
    var b := Bucket(BucketOf(u, t).nodes + nodes, BucketOf(u, t).edges + edges);
    match t
    case Added => u.(added := b)
    case Deleted => u.(deleted := b)
    case StateChanged => u.(changed := b)
  }

  /** Bucket for bucket, `v` holds what `u` holds, at the front of each list. */
  ghost predicate Extends(u: Used, v: Used)
    requires u.Buckets? && v.Buckets?
  {
    forall t :: t != Unchanged ==>
      BucketOf(u, t).nodes <= BucketOf(v, t).nodes && BucketOf(u, t).edges <= BucketOf(v, t).edges
  }

  ghost predicate NodeChangeAmong(rule: Delta, ids: set<NodeId>)
  {
    exists n :: n in ids && n in rule.nodes && rule.nodes[n].tag != Unchanged
  }

  ghost predicate EdgeChangeAmong(rule: Delta, es: set<Edge>)
  {
    exists e :: e in es && e in rule.edges && rule.edges[e].tag != Unchanged
  }

  /** The node loop of `addUsedRewritingRules` over `ids`, in ascending
      order: each changed node is appended to its tag's node list. */
  function AddNodes(u: Used, rule: Delta, ids: set<NodeId>): (r: Result<Used>)
    requires ids <= rule.nodes.Keys
    ensures r.Err? <==> u.Unset? && NodeChangeAmong(rule, ids)
    ensures r.Err? ==> r.error == KeyError
    ensures r.Ok? && u.Unset? ==> r.value == u
    ensures r.Ok? && u.Buckets? ==> r.value.Buckets? && Extends(u, r.value)
    ensures r.Ok? && u.Buckets? ==>
              forall t :: t != Unchanged ==> BucketOf(r.value, t).edges == BucketOf(u, t).edges
    ensures r.Ok? && u.Buckets? ==>
              forall t, x :: t != Unchanged ==>
                (x in BucketOf(r.value, t).nodes <==>
                 x in BucketOf(u, t).nodes || (x in ids && rule.nodes[x].tag == t))
    decreases ids
  {
    if ids == {} then Ok(u)
    else
      var n := MinNat(ids);
      var t := rule.nodes[n].tag;
      if t == Unchanged then AddNodes(u, rule, ids - {n})
      else if u.Unset? then Err(KeyError)
      else AddNodes(Note(u, t, [n], []), rule, ids - {n})
  }

  /** The edge loop of `addUsedRewritingRules` over `es`. */
  function AddEdges(u: Used, rule: Delta, es: set<Edge>): (r: Result<Used>)
    requires es <= rule.edges.Keys
    ensures r.Err? <==> u.Unset? && EdgeChangeAmong(rule, es)
    ensures r.Err? ==> r.error == KeyError
    ensures r.Ok? && u.Unset? ==> r.value == u
    ensures r.Ok? && u.Buckets? ==> r.value.Buckets? && Extends(u, r.value)
    ensures r.Ok? && u.Buckets? ==>
              forall t :: t != Unchanged ==> BucketOf(r.value, t).nodes == BucketOf(u, t).nodes
    ensures r.Ok? && u.Buckets? ==>
              forall t, x :: t != Unchanged ==>
                (x in BucketOf(r.value, t).edges <==>
                 x in BucketOf(u, t).edges || (x in es && rule.edges[x].tag == t))
    decreases es
  {
    if es == {} then Ok(u)
    else
      var e := MinEdge(es);
      var t := rule.edges[e].tag;
      if t == Unchanged then AddEdges(u, rule, es - {e})
      else if u.Unset? then Err(KeyError)
      else AddEdges(Note(u, t, [], [e]), rule, es - {e})
  }

  /** `addUsedRewritingRules(rule)`: the nodes, then the edges. */
  function AddUsed(u: Used, rule: Delta): (r: Result<Used>)
    ensures r.Err? <==> u.Unset? && (NodeChangeAmong(rule, rule.nodes.Keys) || EdgeChangeAmong(rule, rule.edges.Keys))
    ensures r.Err? ==> r.error == KeyError
    ensures r.Ok? && u.Unset? ==> r.value == u
    ensures r.Ok? && u.Buckets? ==> r.value.Buckets? && Extends(u, r.value)
    ensures r.Ok? && u.Buckets? ==>
              forall t, x :: t != Unchanged ==>
                (x in BucketOf(r.value, t).nodes <==>
                 x in BucketOf(u, t).nodes || (x in rule.nodes && rule.nodes[x].tag == t))
    ensures r.Ok? && u.Buckets? ==>
              forall t, x :: t != Unchanged ==>
                (x in BucketOf(r.value, t).edges <==>
                 x in BucketOf(u, t).edges || (x in rule.edges && rule.edges[x].tag == t))
  {
    var u1 :- AddNodes(u, rule, rule.nodes.Keys);
    AddEdges(u1, rule, rule.edges.Keys)
  }

  /** `e` is in one of the three used-edge lists. */
  ghost predicate InEdgeLists(u: Used, e: Edge)
    requires u.Buckets?
  {
    e in u.added.edges || e in u.deleted.edges || e in u.changed.edges
  }

  /** The conflict test for a changed edge: an endpoint was deleted, or the
      edge was already changed (in either orientation when undirected). */
  ghost predicate EdgeConflict(u: Used, directed: bool, e: Edge)
    requires u.Buckets?
  {
    e.0 in u.deleted.nodes || e.1 in u.deleted.nodes || InEdgeLists(u, e) ||
    (!directed && InEdgeLists(u, (e.1, e.0)))
  }

  ghost predicate NodeUsed(u: Used, rule: Delta, n: NodeId)
    requires u.Buckets?
  {
    n in rule.nodes && rule.nodes[n].tag != Unchanged && n in BucketOf(u, rule.nodes[n].tag).nodes
  }

  ghost predicate EdgeUsed(u: Used, rule: Delta, e: Edge)
    requires u.Buckets?
  {
    e in rule.edges && rule.edges[e].tag != Unchanged && EdgeConflict(u, rule.directed, e)
  }

  ghost predicate NodeUsedAmong(u: Used, rule: Delta, ids: set<NodeId>)
    requires u.Buckets?
  {
    exists n :: n in ids && NodeUsed(u, rule, n)
  }

  ghost predicate EdgeUsedAmong(u: Used, rule: Delta, es: set<Edge>)
    requires u.Buckets?
  {
    exists e :: e in es && EdgeUsed(u, rule, e)
  }

  /** The node loop of `isRewritingRuleInUsed`. */
  function NodeHit(u: Used, rule: Delta, ids: set<NodeId>): (r: Result<bool>)
    requires ids <= rule.nodes.Keys
    ensures r.Err? <==> u.Unset? && NodeChangeAmong(rule, ids)
    ensures r.Err? ==> r.error == KeyError
    ensures u.Buckets? ==> r == Ok(NodeUsedAmong(u, rule, ids))
    ensures u.Unset? && r.Ok? ==> !r.value
    decreases ids
  {
    if ids == {} then Ok(false)
    else
      var n := MinNat(ids);
      var t := rule.nodes[n].tag;
      if t == Unchanged then NodeHit(u, rule, ids - {n})
      else if u.Unset? then Err(KeyError)
      else if n in BucketOf(u, t).nodes then Ok(true)
      else NodeHit(u, rule, ids - {n})
  }

  /** The edge loop of `isRewritingRuleInUsed`. */
  function EdgeHit(u: Used, rule: Delta, es: set<Edge>): (r: Result<bool>)
    requires es <= rule.edges.Keys
    ensures r.Err? <==> u.Unset? && EdgeChangeAmong(rule, es)
    ensures r.Err? ==> r.error == KeyError
    ensures u.Buckets? ==> r == Ok(EdgeUsedAmong(u, rule, es))
    ensures u.Unset? && r.Ok? ==> !r.value
    decreases es
  {
    if es == {} then Ok(false)
    else
      var e := MinEdge(es);
      var t := rule.edges[e].tag;
      if t == Unchanged then EdgeHit(u, rule, es - {e})
      else if u.Unset? then Err(KeyError)
      else if EdgeConflictTest(u, rule.directed, e) then Ok(true)
      else EdgeHit(u, rule, es - {e})
  }

  /** The `or` chain of the edge loop, as written. */
  function EdgeConflictTest(u: Used, directed: bool, e: Edge): (b: bool)
    requires u.Buckets?
    ensures b == EdgeConflict(u, directed, e)
  {
    var first, second := e.0, e.1;
    if directed then
      first in u.deleted.nodes || second in u.deleted.nodes ||
      e in u.added.edges || e in u.deleted.edges || e in u.changed.edges
    else
      first in u.deleted.nodes || second in u.deleted.nodes ||
      (first, second) in u.added.edges || (first, second) in u.deleted.edges ||
      (first, second) in u.changed.edges ||
      (second, first) in u.added.edges || (second, first) in u.deleted.edges ||
      (second, first) in u.changed.edges
  }

  /** `isRewritingRuleInUsed(rule)`: the edges are looked at only when no
      node conflicts. */
  function InUse(u: Used, rule: Delta): (r: Result<bool>)
    ensures r.Err? <==> u.Unset? && (NodeChangeAmong(rule, rule.nodes.Keys) || EdgeChangeAmong(rule, rule.edges.Keys))
    ensures r.Err? ==> r.error == KeyError
    ensures u.Buckets? ==>
              r == Ok(NodeUsedAmong(u, rule, rule.nodes.Keys) || EdgeUsedAmong(u, rule, rule.edges.Keys))
  {
    var found :- NodeHit(u, rule, rule.nodes.Keys);
    if found then Ok(true) else EdgeHit(u, rule, rule.edges.Keys)
  }

  /** Right after a clear, no rule is in use. */
  lemma ClearedNothingUsed(rule: Delta)
    ensures InUse(Clear(), rule) == Ok(false)
  {
    var u := Clear();
    assert !NodeUsedAmong(u, rule, rule.nodes.Keys);
    assert !EdgeUsedAmong(u, rule, rule.edges.Keys);
  }

  /** Once a rule that changes something has been added, it is in use. */
  lemma AddedIsInUse(u: Used, rule: Delta, v: Used)
    requires u.Buckets? && AddUsed(u, rule) == Ok(v)
    requires NodeChangeAmong(rule, rule.nodes.Keys) || EdgeChangeAmong(rule, rule.edges.Keys)
    ensures InUse(v, rule) == Ok(true)
  {
    if NodeChangeAmong(rule, rule.nodes.Keys) {
      var n :| n in rule.nodes.Keys && n in rule.nodes && rule.nodes[n].tag != Unchanged;
      assert n in BucketOf(v, rule.nodes[n].tag).nodes;
      assert NodeUsed(v, rule, n);
    } else {
      var e :| e in rule.edges.Keys && e in rule.edges && rule.edges[e].tag != Unchanged;
      assert e in BucketOf(v, rule.edges[e].tag).edges;
      assert InEdgeLists(v, e);
      assert EdgeUsed(v, rule, e);
    }
  }

  lemma ExtendsMembership(u: Used, v: Used)
    requires u.Buckets? && v.Buckets? && Extends(u, v)
    ensures forall n :: n in u.deleted.nodes ==> n in v.deleted.nodes
    ensures forall t, n :: t != Unchanged && n in BucketOf(u, t).nodes ==> n in BucketOf(v, t).nodes
    ensures forall e :: InEdgeLists(u, e) ==> InEdgeLists(v, e)
  {
    forall t | t != Unchanged
      ensures forall n :: n in BucketOf(u, t).nodes ==> n in BucketOf(v, t).nodes
      ensures forall e :: e in BucketOf(u, t).edges ==> e in BucketOf(v, t).edges
    {
      var a, b := BucketOf(u, t), BucketOf(v, t);
      assert a.nodes <= b.nodes && a.edges <= b.edges;
      assert a.nodes == b.nodes[..|a.nodes|] && a.edges == b.edges[..|a.edges|];
    }
    assert BucketOf(u, Deleted) == u.deleted && BucketOf(v, Deleted) == v.deleted;
    assert BucketOf(u, Added) == u.added && BucketOf(v, Added) == v.added;
    assert BucketOf(u, StateChanged) == u.changed && BucketOf(v, StateChanged) == v.changed;
  }

  /** Adding a rule only appends, so a rule in use stays in use. */
  lemma InUseStays(u: Used, rule: Delta, v: Used, other: Delta)
    requires u.Buckets? && AddUsed(u, rule) == Ok(v)
    requires InUse(u, other) == Ok(true)
    ensures InUse(v, other) == Ok(true)
  {
    ExtendsMembership(u, v);
    if NodeUsedAmong(u, other, other.nodes.Keys) {
      var n :| n in other.nodes.Keys && NodeUsed(u, other, n);
      assert NodeUsed(v, other, n);
    } else {
      var e :| e in other.edges.Keys && EdgeUsed(u, other, e);
      assert EdgeUsed(v, other, e);
    }
  }
}
