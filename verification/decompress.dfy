/**
  `NetworkFrames._decompress`: replaying one delta graph onto the focus
  frame. The node pass visits the delta's node ids in ascending order and
  the edge pass then visits the delta's edges in ascending order, as the
  delta stands after any relabelling the node pass performed.
*/
module Decompression {
  import opened Order
  import opened Wrappers
  import opened Graphs
  import opened Deltas

  /** networkx adds an endpoint that `add_edge` names but the graph lacks,
      with an empty attribute dictionary. */
  function WithNode(g: Frame, v: NodeId): (r: Frame)
    ensures r.directed == g.directed && r.edges == g.edges
    ensures r.nodes.Keys == g.nodes.Keys + {v}
    ensures forall n :: n in g.nodes ==> r.nodes[n] == g.nodes[n]
    ensures v !in g.nodes ==> r.nodes[v] == map[]
  {
    if v in g.nodes then g else g.(nodes := g.nodes[v := map[]])
  }

  /** networkx `add_edge(u, v, a)`: a missing endpoint is added with no
      attributes, and an existing edge has its dictionary updated by `a`. */
  function AddEdge(g: Frame, u: NodeId, v: NodeId, a: Attrs): (r: Frame)
    ensures r.directed == g.directed
    ensures forall n :: n in r.nodes <==> n in g.nodes || n == u || n == v
    ensures forall n :: n in g.nodes ==> r.nodes[n] == g.nodes[n]
    ensures forall n :: n in r.nodes && n !in g.nodes ==> r.nodes[n] == map[]
    ensures forall e :: e in r.edges <==> e in g.edges || e == Norm(g.directed, u, v)
    ensures forall e :: e in g.edges && e != Norm(g.directed, u, v) ==> r.edges[e] == g.edges[e]
    ensures Norm(g.directed, u, v) !in g.edges ==> r.edges[Norm(g.directed, u, v)] == a
    ensures Norm(g.directed, u, v) in g.edges ==> r.edges[Norm(g.directed, u, v)] == g.edges[Norm(g.directed, u, v)] + a
  {
    var e := Norm(g.directed, u, v);
    var merged := if e in g.edges then g.edges[e] + a else a;
    WithNode(WithNode(g, u), v).(edges := g.edges[e := merged])
  }

  /** networkx `remove_edge`, on an edge known to be present. */
  function RemoveEdge(g: Frame, e: Edge): (r: Frame)
    ensures r.directed == g.directed && r.nodes == g.nodes
    ensures r.edges.Keys == g.edges.Keys - {e}
    ensures forall x :: x in r.edges ==> r.edges[x] == g.edges[x]
  {
    g.(edges := g.edges - {e})
  }

  /** The first id from `a` upwards that is not in `s`: the `while add_node
      in change_frame.node` loop. */
  function NextFree(s: set<nat>, a: nat): (r: nat)
    ensures r >= a && r !in s
    ensures forall x :: a <= x < r ==> x in s
    decreases if a in s then MaxNat(s) - a + 1 else 0
  {
    if a in s then NextFree(s, a + 1) else a
  }

  /** The focus frame and the delta while a delta is being replayed: an
      added node whose id is taken renames the delta from then on. */
  datatype Replay = Replay(focus: Frame, delta: Delta)

  /** The state change recorded in `m` applies to the attributes `a`: the
      attribute exists and holds the recorded old value. */
  predicate Applies(a: Attrs, c: Change)
  {
    c.name in a && a[c.name] == c.from
  }

  /** The error, if any, that replaying a state change on `a` raises. */
  function ChangeFailure(a: Option<Attrs>, m: Marked): (e: Option<Error>)
    ensures e.None? <==> a.Some? && m.change.Some? && Applies(a.value, m.change.value)
  {
    if m.change.None? || a.None? || m.change.value.name !in a.value then Some(KeyError)
    else if a.value[m.change.value.name] != m.change.value.from then Some(AssertionError)
    else None
  }

  /** The node id an added node receives. */
  function AddedId(s: Replay, n: NodeId): (a: NodeId)
  {
    if n in s.focus.nodes then NextFree(s.delta.nodes.Keys, MaxNat(s.focus.nodes.Keys) + 1) else n
  }

  /** Replays the delta node `n`: an Added node appears under a fresh id
      with its payload, a Deleted node goes with its incident edges, a
      state change writes the to-value, and 'None' leaves the focus alone. */
  function NodeStep(s: Replay, n: NodeId): (r: Result<Replay>)
    ensures r.Err? <==>
              n !in s.delta.nodes ||
              (s.delta.nodes[n].tag == Deleted && n !in s.focus.nodes) ||
              (s.delta.nodes[n].tag == StateChanged &&
               ChangeFailure(if n in s.focus.nodes then Some(s.focus.nodes[n]) else None, s.delta.nodes[n]).Some?)
    ensures r.Err? ==> r.error in {KeyError, AssertionError, GraphError}
  {
    if n !in s.delta.nodes then Err(KeyError)
    else
      var m := s.delta.nodes[n];
      match m.tag
      case Added =>
        var a := AddedId(s, n);
        var focus := s.focus.(nodes := s.focus.nodes[a := Payload(m)]);
        if a == n then Ok(Replay(focus, s.delta))
        else Ok(Replay(focus, Relabel(s.delta, map[n := a])))
      case Deleted =>
        if n !in s.focus.nodes then Err(GraphError)
        else Ok(Replay(RemoveNode(s.focus, n), s.delta))
      case StateChanged =>
        var fa := if n in s.focus.nodes then Some(s.focus.nodes[n]) else None;
        var failure := ChangeFailure(fa, m);
        if failure.Some? then Err(failure.value)
        else
          var c := m.change.value;
          Ok(Replay(s.focus.(nodes := s.focus.nodes[n := s.focus.nodes[n][c.name := c.to]]), s.delta))
      case Unchanged => Ok(s)
  }

  /** The node pass over the given ids, stopping at the first error. */
  function NodesPass(s: Replay, ids: seq<NodeId>): (r: Result<Replay>)
    ensures r.Ok? ==> r.value.focus.directed == s.focus.directed
    ensures r.Err? ==> r.error in {KeyError, AssertionError, GraphError}
    decreases |ids|
  {
    if ids == [] then Ok(s)
    else
      var s' :- NodeStep(s, ids[0]);
      NodesPass(s', ids[1..])
  }

  /** In an undirected graph, `e` is the reverse of an edge already
      replayed, and the edge pass skips it. */
  predicate Skipped(focus: Frame, e: Edge, processed: seq<Edge>)
  {
    !focus.directed && (e.1, e.0) in processed
  }

  /** Replays the delta edge `e` (visited as start `e.0`, end `e.1`);
      `processed` lists the edges handled so far. An Added edge is added
      or merged with its payload, a Deleted edge is removed if the focus
      still has it, a state change writes the to-value after checking the
      from-value, and 'None' leaves the focus alone. */
  function EdgeStep(focus: Frame, m: Marked, e: Edge, processed: seq<Edge>): (r: Result<(Frame, seq<Edge>)>)
    ensures Skipped(focus, e, processed) ==> r == Ok((focus, processed))
    ensures r.Ok? && !Skipped(focus, e, processed) ==> r.value.1 == processed + [e]
    ensures r.Ok? ==> r.value.0.directed == focus.directed
    ensures var k := Norm(focus.directed, e.0, e.1);
      r.Err? <==> !Skipped(focus, e, processed) && m.tag == StateChanged &&
                  ChangeFailure(if k in focus.edges then Some(focus.edges[k]) else None, m).Some?
    ensures r.Err? ==> r.error in {KeyError, AssertionError}
  {
    if Skipped(focus, e, processed) then Ok((focus, processed))
    else
      var k := Norm(focus.directed, e.0, e.1);
      match m.tag
      case Added => Ok((AddEdge(focus, e.0, e.1, Payload(m)), processed + [e]))
      case Deleted =>
        if k in focus.edges then Ok((RemoveEdge(focus, k), processed + [e]))
        else Ok((focus, processed + [e]))
      case StateChanged =>
        var fa := if k in focus.edges then Some(focus.edges[k]) else None;
        var failure := ChangeFailure(fa, m);
        if failure.Some? then Err(failure.value)
        else
          var c := m.change.value;
          Ok((focus.(edges := focus.edges[k := focus.edges[k][c.name := c.to]]), processed + [e]))
      case Unchanged => Ok((focus, processed + [e]))
  }

  /** The edge pass over the edges `es` of the delta `d`. */
  function EdgesPass(focus: Frame, d: Delta, es: seq<Edge>, processed: seq<Edge>): (r: Result<Frame>)
    requires forall e :: e in es ==> e in d.edges
    ensures r.Ok? ==> r.value.directed == focus.directed
    ensures r.Err? ==> r.error in {KeyError, AssertionError}
    decreases |es|
  {
    if es == [] then Ok(focus)
    else
      var step :- EdgeStep(focus, d.edges[es[0]], es[0], processed);
      EdgesPass(step.0, d, es[1..], step.1)
  }

  /** `_decompress(focus_frame, change_frame)`: the focus frame once the
      delta has been replayed onto it. */
  function Decompress(focus: Frame, d: Delta): (r: Result<Frame>)
    ensures r.Ok? ==> r.value.directed == focus.directed
    ensures r.Err? ==> r.error in {KeyError, AssertionError, GraphError}
  {
    var s :- NodesPass(Replay(focus, d), SortedNats(d.nodes.Keys));
    EdgesPass(s.focus, s.delta, SortedEdges(s.delta.edges.Keys), [])
  }

  // --------------------------------------------------- effects of each tag

  /** An Added node appears in the focus with its payload, under its own id
      when that is free and under a fresh id otherwise; nothing else in the
      focus changes. */
  lemma NodeAdded(s: Replay, n: NodeId)
    requires n in s.delta.nodes && s.delta.nodes[n].tag == Added
    ensures var r := NodeStep(s, n);
      var a := AddedId(s, n);
      r.Ok? && a !in s.focus.nodes && (a == n <==> n !in s.focus.nodes) &&
      r.value.focus.directed == s.focus.directed && r.value.focus.edges == s.focus.edges &&
      r.value.focus.nodes.Keys == s.focus.nodes.Keys + {a} &&
      r.value.focus.nodes[a] == Payload(s.delta.nodes[n]) &&
      (forall v :: v in s.focus.nodes ==> r.value.focus.nodes[v] == s.focus.nodes[v])
  {
    if n in s.focus.nodes {
      var top := MaxNat(s.focus.nodes.Keys);
      assert NextFree(s.delta.nodes.Keys, top + 1) > top;
    }
  }

  /** A Deleted node leaves the focus together with exactly its incident
      edges; the rest of the focus and the delta are kept. */
  lemma NodeDeleted(s: Replay, n: NodeId)
    requires n in s.delta.nodes && s.delta.nodes[n].tag == Deleted && n in s.focus.nodes
    ensures var r := NodeStep(s, n);
      r.Ok? && r.value.delta == s.delta && r.value.focus.directed == s.focus.directed &&
      r.value.focus.nodes.Keys == s.focus.nodes.Keys - {n} &&
      (forall v :: v in r.value.focus.nodes ==> r.value.focus.nodes[v] == s.focus.nodes[v]) &&
      (forall e :: e in r.value.focus.edges <==> e in s.focus.edges && e.0 != n && e.1 != n) &&
      (forall e :: e in r.value.focus.edges ==> r.value.focus.edges[e] == s.focus.edges[e])
  {
  }

  /** A state change that applies writes the to-value into the changed
      attribute; every other attribute, node and edge is kept. */
  lemma NodeStateChanged(s: Replay, n: NodeId)
    requires n in s.delta.nodes && s.delta.nodes[n].tag == StateChanged && s.delta.nodes[n].change.Some?
    requires n in s.focus.nodes && Applies(s.focus.nodes[n], s.delta.nodes[n].change.value)
    ensures var r := NodeStep(s, n);
      var c := s.delta.nodes[n].change.value;
      r.Ok? && r.value.delta == s.delta && r.value.focus.directed == s.focus.directed &&
      r.value.focus.edges == s.focus.edges && r.value.focus.nodes.Keys == s.focus.nodes.Keys &&
      r.value.focus.nodes[n].Keys == s.focus.nodes[n].Keys && r.value.focus.nodes[n][c.name] == c.to &&
      (forall k :: k in s.focus.nodes[n] && k != c.name ==> r.value.focus.nodes[n][k] == s.focus.nodes[n][k]) &&
      (forall v :: v in s.focus.nodes && v != n ==> r.value.focus.nodes[v] == s.focus.nodes[v])
  {
  }

  /** A node tagged 'None' leaves the focus and the delta as they were. */
  lemma NodeUnchanged(s: Replay, n: NodeId)
    requires n in s.delta.nodes && s.delta.nodes[n].tag == Unchanged
    ensures NodeStep(s, n) == Ok(s)
  {
  }

  /** An Added edge is present afterwards, with its endpoints: a new edge
      holds the payload, an existing one has the payload merged into its
      dictionary. Every other node and edge is kept. */
  lemma EdgeAdded(focus: Frame, m: Marked, e: Edge, processed: seq<Edge>)
    requires !Skipped(focus, e, processed) && m.tag == Added
    ensures var r := EdgeStep(focus, m, e, processed);
      var k := Norm(focus.directed, e.0, e.1);
      r.Ok? && r.value.0.nodes.Keys == focus.nodes.Keys + {e.0, e.1} &&
      (forall v :: v in focus.nodes ==> r.value.0.nodes[v] == focus.nodes[v]) &&
      r.value.0.edges.Keys == focus.edges.Keys + {k} &&
      r.value.0.edges[k] == (if k in focus.edges then focus.edges[k] + Payload(m) else Payload(m)) &&
      (forall x :: x in focus.edges && x != k ==> r.value.0.edges[x] == focus.edges[x])
  {
  }

  /** A Deleted edge is removed when the focus still has it (a node
      deletion may already have removed it); nothing else changes. */
  lemma EdgeDeleted(focus: Frame, m: Marked, e: Edge, processed: seq<Edge>)
    requires !Skipped(focus, e, processed) && m.tag == Deleted
    ensures var r := EdgeStep(focus, m, e, processed);
      r.Ok? && r.value.0.nodes == focus.nodes && r.value.0.edges == focus.edges - {Norm(focus.directed, e.0, e.1)}
  {
  }

  /** A state change on an edge that holds the from-value writes the
      to-value; every other attribute, edge and node is kept. */
  lemma EdgeStateChanged(focus: Frame, m: Marked, e: Edge, processed: seq<Edge>)
    requires !Skipped(focus, e, processed) && m.tag == StateChanged && m.change.Some?
    requires Norm(focus.directed, e.0, e.1) in focus.edges
    requires Applies(focus.edges[Norm(focus.directed, e.0, e.1)], m.change.value)
    ensures var r := EdgeStep(focus, m, e, processed);
      var k := Norm(focus.directed, e.0, e.1);
      var c := m.change.value;
      r.Ok? && r.value.0.nodes == focus.nodes && r.value.0.edges.Keys == focus.edges.Keys &&
      r.value.0.edges[k].Keys == focus.edges[k].Keys && r.value.0.edges[k][c.name] == c.to &&
      (forall a :: a in focus.edges[k] && a != c.name ==> r.value.0.edges[k][a] == focus.edges[k][a]) &&
      (forall x :: x in focus.edges && x != k ==> r.value.0.edges[x] == focus.edges[x])
  {
  }

  /** An edge tagged 'None' only joins `processed`. */
  lemma EdgeUnchanged(focus: Frame, m: Marked, e: Edge, processed: seq<Edge>)
    requires !Skipped(focus, e, processed) && m.tag == Unchanged
    ensures EdgeStep(focus, m, e, processed) == Ok((focus, processed + [e]))
  {
  }
}
