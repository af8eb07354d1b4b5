/**
  The master property of `NetworkFrames`: decompressing the delta between
  two consecutive frames onto the earlier frame gives back the later one.

  It holds under the assumptions the compressor states for its input
  (NetworkFrames.py, `compressNetworkFrames`): both frames are of the same
  kind, an element present in both frames has the same attribute names in
  both, and at most one of its attributes changes between them. For a node
  that attribute must not be one of the statistics the compressor skips.
*/
module RoundTrip {
  import opened Order
  import opened Wrappers
  import opened Graphs
  import opened Deltas
  import opened Compression
  import opened Decompression

  /** Same attribute names, and at most one value differs. */
  ghost predicate OneChange(pa: Attrs, ca: Attrs)
  {
    pa.Keys == ca.Keys &&
    forall j, k :: j in ca && k in ca && ca[j] != pa[j] && ca[k] != pa[k] ==> j == k
  }

  /** A node's one change, if any, is to an attribute the node pass compares. */
  ghost predicate NodeOneChange(pa: Attrs, ca: Attrs)
  {
    OneChange(pa, ca) && forall k :: k in ca && ca[k] != pa[k] ==> k !in StatisticNames
  }

  /** Two consecutive frames that the compressor can describe exactly. */
  ghost predicate Consecutive(past: Frame, current: Frame)
  {
    WellFormed(past) && WellFormed(current) && past.directed == current.directed &&
    (forall n :: n in past.nodes && n in current.nodes ==> NodeOneChange(past.nodes[n], current.nodes[n])) &&
    (forall e :: e in past.edges && e in current.edges ==> OneChange(past.edges[e], current.edges[e]))
  }

  lemma ConsecutiveNoMissingKey(past: Frame, current: Frame)
    requires Consecutive(past, current)
    ensures !MissingPastKey(past, current)
  {
  }

  /** Applying the one recorded change to the old dictionary gives the new one. */
  lemma ChangeRestores(pa: Attrs, ca: Attrs, c: Change)
    requires OneChange(pa, ca)
    requires c.name in ca && ca[c.name] != pa[c.name]
    requires c.from == pa[c.name] && c.to == ca[c.name]
    ensures Applies(pa, c) && pa[c.name := c.to] == ca
  {
    forall k | k in ca ensures pa[c.name := c.to][k] == ca[k] {
      if k != c.name && ca[k] != pa[k] {
        assert false;
      }
    }
  }

  lemma NoChange(pa: Attrs, ca: Attrs)
    requires pa.Keys == ca.Keys && forall k :: k in ca ==> ca[k] == pa[k]
    ensures pa == ca
  {
  }

  // ------------------------------------------------- what a delta records

  /** What replaying needs to know about the delta's entry for node `n`. */
  ghost predicate NodeFact(past: Frame, current: Frame, d: Delta, n: NodeId)
  {
    (n in d.nodes && d.nodes[n].tag == Added ==>
       n !in past.nodes && n in current.nodes &&
       d.nodes[n].change == None && d.nodes[n].attrs == current.nodes[n]) &&
    (n in d.nodes && d.nodes[n].tag == Deleted ==> n in past.nodes && n !in current.nodes) &&
    (n in d.nodes && d.nodes[n].tag == StateChanged ==>
       n in past.nodes && n in current.nodes && d.nodes[n].change.Some? &&
       Applies(past.nodes[n], d.nodes[n].change.value) &&
       past.nodes[n][d.nodes[n].change.value.name := d.nodes[n].change.value.to] == current.nodes[n]) &&
    (n in d.nodes && d.nodes[n].tag == Unchanged ==>
       n in past.nodes && n in current.nodes && past.nodes[n] == current.nodes[n]) &&
    (n !in d.nodes ==>
       (n in past.nodes <==> n in current.nodes) &&
       (n in past.nodes ==> past.nodes[n] == current.nodes[n]))
  }

  /** What replaying needs to know about the delta's entry for edge `e`. */
  ghost predicate EdgeFact(past: Frame, current: Frame, d: Delta, e: Edge)
  {
    (e in d.edges && d.edges[e].tag == Added ==>
       e !in past.edges && e in current.edges &&
       d.edges[e].change == None && d.edges[e].attrs == current.edges[e]) &&
    (e in d.edges && d.edges[e].tag == Deleted ==> e in past.edges && e !in current.edges) &&
    (e in d.edges && d.edges[e].tag == StateChanged ==>
       e in past.edges && e in current.edges && d.edges[e].change.Some? &&
       Applies(past.edges[e], d.edges[e].change.value) &&
       past.edges[e][d.edges[e].change.value.name := d.edges[e].change.value.to] == current.edges[e]) &&
    (e in d.edges && d.edges[e].tag == Unchanged ==>
       e in past.edges && e in current.edges && past.edges[e] == current.edges[e]) &&
    (e !in d.edges ==>
       (e in past.edges <==> e in current.edges) &&
       (e in past.edges ==> past.edges[e] == current.edges[e]))
  }

  /** `d` records exactly how `current` differs from `past`. */
  ghost predicate Describes(past: Frame, current: Frame, d: Delta)
  {
    WellFormed(past) && WellFormed(current) && WellFormed(d) &&
    past.directed == current.directed && d.directed == past.directed &&
    (forall n :: NodeFact(past, current, d, n)) &&
    (forall e :: EdgeFact(past, current, d, e))
  }

  lemma NodeFactHolds(past: Frame, current: Frame, np: map<NodeId, Marked>, d: Delta, n: NodeId)
    requires !MissingPastKey(past, current) && np == NodePass(past, current)
    requires n in past.nodes && n in current.nodes ==> NodeOneChange(past.nodes[n], current.nodes[n])
    requires n in np ==> n in d.nodes && d.nodes[n] == np[n]
    requires n in d.nodes && n !in np ==>
               n in past.nodes && n in current.nodes && d.nodes[n].tag == Unchanged && d.nodes[n].change == None
    ensures NodeFact(past, current, d, n)
  {
    NodePassSpec(past, current, n);
    if n in past.nodes && n in current.nodes {
      var pa, ca := past.nodes[n], current.nodes[n];
      if n in np {
        ChangeRestores(pa, ca, np[n].change.value);
      } else {
        forall k | k in ca ensures ca[k] == pa[k] {
          assert k !in NodeDiff(pa, ca);
        }
        NoChange(pa, ca);
      }
    }
  }

  lemma EdgeFactHolds(past: Frame, current: Frame, em: map<Edge, Marked>, d: Delta, e: Edge)
    requires em == EdgeMarks(past, current)
    requires e in past.edges && e in current.edges ==> OneChange(past.edges[e], current.edges[e])
    requires e in em ==> e in d.edges && d.edges[e] == em[e]
    requires e in d.edges && e !in em ==>
               e in past.edges && e in current.edges && d.edges[e] == Marked(Unchanged, past.edges[e], None)
    ensures EdgeFact(past, current, d, e)
  {
    if e in past.edges && e in current.edges {
      var pa, ca := past.edges[e], current.edges[e];
      if e in em {
        ChangeRestores(pa, ca, em[e].change.value);
      } else {
        forall k | k in ca ensures ca[k] == pa[k] {
          assert k !in EdgeDiff(pa, ca);
        }
        NoChange(pa, ca);
      }
    }
  }

  /** The compressor's delta describes the change between the frames. */
  lemma CompressDescribes(past: Frame, current: Frame)
    requires Consecutive(past, current)
    ensures !MissingPastKey(past, current)
    ensures Describes(past, current, Compress(past, current).value)
  {
    ConsecutiveNoMissingKey(past, current);
    CompressSpec(past, current);
    var d := Compress(past, current).value;
    var np := NodePass(past, current);
    var em := EdgeMarks(past, current);
    forall n ensures NodeFact(past, current, d, n) {
      NodeFactHolds(past, current, np, d, n);
    }
    forall e ensures EdgeFact(past, current, d, e) {
      EdgeFactHolds(past, current, em, d, e);
    }
  }

  // -------------------------------------------------------------- node pass

  /** The focus frame part-way through the node pass, with the delta ids
      `todo` still to visit: visited nodes look as in `current`, every other
      node as in `past`, and the edges are the past edges whose endpoints
      are both still present. */
  ghost predicate NodesMid(past: Frame, current: Frame, d: Delta, f: Frame, todo: seq<NodeId>)
  {
    f.directed == past.directed &&
    (forall n :: n in f.nodes <==>
       if n in d.nodes && n !in todo then n in current.nodes else n in past.nodes) &&
    (forall n :: n in f.nodes ==>
       f.nodes[n] == if n in d.nodes && n !in todo then current.nodes[n] else past.nodes[n]) &&
    (forall e :: e in f.edges <==> e in past.edges && e.0 in f.nodes && e.1 in f.nodes) &&
    (forall e :: e in f.edges ==> f.edges[e] == past.edges[e])
  }

  /** `todo'` is `todo` without its element `n`. */
  ghost predicate Visits<T(!new)>(todo: seq<T>, n: T, todo': seq<T>)
  {
    n in todo && n !in todo' && forall x :: x in todo <==> x == n || x in todo'
  }

  /** Visiting a node gives it its current attributes. */
  lemma NodeSetReplays(past: Frame, current: Frame, d: Delta, f: Frame, todo: seq<NodeId>, n: NodeId,
                       todo': seq<NodeId>)
    requires WellFormed(past) && NodesMid(past, current, d, f, todo) && Visits(todo, n, todo')
    requires n in current.nodes && n in d.nodes
    ensures NodesMid(past, current, d, f.(nodes := f.nodes[n := current.nodes[n]]), todo')
  {
    assert forall e :: e in past.edges ==> e.0 in past.nodes && e.1 in past.nodes;
  }

  /** Visiting a deleted node removes it with its edges. */
  lemma NodeRemoveReplays(past: Frame, current: Frame, d: Delta, f: Frame, todo: seq<NodeId>, n: NodeId,
                          todo': seq<NodeId>)
    requires NodesMid(past, current, d, f, todo) && Visits(todo, n, todo')
    requires n in past.nodes && n !in current.nodes && n in d.nodes
    ensures NodesMid(past, current, d, RemoveNode(f, n), todo')
  {
  }

  /** Visiting an untouched node changes nothing. */
  lemma NodeKeepReplays(past: Frame, current: Frame, d: Delta, f: Frame, todo: seq<NodeId>, n: NodeId,
                        todo': seq<NodeId>)
    requires NodesMid(past, current, d, f, todo) && Visits(todo, n, todo')
    requires n in past.nodes && n in current.nodes && past.nodes[n] == current.nodes[n]
    ensures NodesMid(past, current, d, f, todo')
  {
  }

  lemma NodeStepReplays(past: Frame, current: Frame, d: Delta, f: Frame, todo: seq<NodeId>, n: NodeId,
                        todo': seq<NodeId>)
    requires WellFormed(past) && NodeFact(past, current, d, n)
    requires NodesMid(past, current, d, f, todo) && Visits(todo, n, todo') && n in d.nodes
    ensures NodeStep(Replay(f, d), n).Ok?
    ensures NodeStep(Replay(f, d), n).value.delta == d
    ensures NodesMid(past, current, d, NodeStep(Replay(f, d), n).value.focus, todo')
  {
    var m := d.nodes[n];
    match m.tag
    case Added =>
      NodeSetReplays(past, current, d, f, todo, n, todo');
    case Deleted =>
      NodeRemoveReplays(past, current, d, f, todo, n, todo');
    case StateChanged =>
      NodeSetReplays(past, current, d, f, todo, n, todo');
    case Unchanged =>
      NodeKeepReplays(past, current, d, f, todo, n, todo');
  }

  lemma {:induction false} NodesPassReplays(past: Frame, current: Frame, d: Delta, f: Frame, ids: seq<NodeId>)
    returns (f': Frame)
    requires WellFormed(past) && NodesMid(past, current, d, f, ids)
    requires forall n :: n in ids ==> n in d.nodes && NodeFact(past, current, d, n)
    requires forall i, j :: 0 <= i < j < |ids| ==> ids[i] != ids[j]
    ensures NodesPass(Replay(f, d), ids) == Ok(Replay(f', d))
    ensures NodesMid(past, current, d, f', [])
    decreases |ids|
  {
    if ids == [] {
      f' := f;
    } else {
      assert Visits(ids, ids[0], ids[1..]) by {
        assert ids == [ids[0]] + ids[1..];
      }
      NodeStepReplays(past, current, d, f, ids, ids[0], ids[1..]);
      var s := NodeStep(Replay(f, d), ids[0]).value;
      f' := NodesPassReplays(past, current, d, s.focus, ids[1..]);
    }
  }

  // -------------------------------------------------------------- edge pass

  /** The focus frame part-way through the edge pass, with the delta edges
      `todo` still to visit: the nodes are those of `current`, visited edges
      look as in `current`, and every other edge is a past edge between
      current nodes. */
  ghost predicate EdgesMid(past: Frame, current: Frame, d: Delta, f: Frame, todo: seq<Edge>)
  {
    f.directed == past.directed &&
    (forall n :: n in f.nodes <==> n in current.nodes) &&
    (forall n :: n in f.nodes ==> f.nodes[n] == current.nodes[n]) &&
    (forall e :: e in f.edges <==>
       if e in d.edges && e !in todo then e in current.edges
       else e in past.edges && e.0 in current.nodes && e.1 in current.nodes) &&
    (forall e :: e in f.edges ==>
       f.edges[e] == if e in d.edges && e !in todo then current.edges[e] else past.edges[e])
  }

  lemma NodesDone(past: Frame, current: Frame, d: Delta, f: Frame, es: seq<Edge>)
    requires Describes(past, current, d) && NodesMid(past, current, d, f, [])
    requires forall e :: e in es <==> e in d.edges
    ensures EdgesMid(past, current, d, f, es)
  {
    forall n ensures (n in f.nodes <==> n in current.nodes) && (n in f.nodes ==> f.nodes[n] == current.nodes[n]) {
      assert NodeFact(past, current, d, n);
    }
  }

  /** An undirected delta edge is never met again reversed. */
  lemma NoReversal(d: Delta, processed: seq<Edge>, e: Edge)
    requires WellFormed(d) && !d.directed
    requires e in d.edges && e !in processed
    requires forall x :: x in processed ==> x in d.edges
    ensures (e.1, e.0) !in processed
  {
  }

  /** Visiting an edge gives it its current attributes, or removes it when
      the current frame lacks it. */
  lemma EdgeSetReplays(past: Frame, current: Frame, d: Delta, f: Frame, todo: seq<Edge>, e: Edge,
                       todo': seq<Edge>, f': Frame)
    requires EdgesMid(past, current, d, f, todo) && Visits(todo, e, todo') && e in d.edges
    requires f'.directed == f.directed && f'.nodes == f.nodes
    requires forall x :: x != e ==> (x in f'.edges <==> x in f.edges)
    requires forall x :: x != e && x in f'.edges ==> f'.edges[x] == f.edges[x]
    requires e in f'.edges <==> e in current.edges
    requires e in f'.edges ==> f'.edges[e] == current.edges[e]
    ensures EdgesMid(past, current, d, f', todo')
  {
  }

  /** What replaying one not yet visited delta edge does to the focus. */
  lemma EdgeStepEffect(past: Frame, current: Frame, d: Delta, f: Frame, processed: seq<Edge>, e: Edge)
    requires WellFormed(current) && EdgeFact(past, current, d, e) && e in d.edges
    requires Norm(f.directed, e.0, e.1) == e && (f.directed || (e.1, e.0) !in processed)
    requires forall n :: n in f.nodes <==> n in current.nodes
    requires e in f.edges <==> e in past.edges && e.0 in current.nodes && e.1 in current.nodes
    requires e in f.edges ==> f.edges[e] == past.edges[e]
    ensures var r := EdgeStep(f, d.edges[e], e, processed);
      r.Ok? && r.value.1 == processed + [e] &&
      r.value.0.directed == f.directed && r.value.0.nodes == f.nodes &&
      (forall x :: x != e ==> (x in r.value.0.edges <==> x in f.edges)) &&
      (forall x :: x != e && x in r.value.0.edges ==> r.value.0.edges[x] == f.edges[x]) &&
      (e in r.value.0.edges <==> e in current.edges) &&
      (e in r.value.0.edges ==> r.value.0.edges[e] == current.edges[e])
  {
    if e in current.edges {
      assert e.0 in current.nodes && e.1 in current.nodes;
    }
  }

  lemma EdgeStepReplays(past: Frame, current: Frame, d: Delta, f: Frame, processed: seq<Edge>,
                        todo: seq<Edge>, e: Edge, todo': seq<Edge>)
    requires WellFormed(current) && WellFormed(d) && d.directed == past.directed
    requires EdgeFact(past, current, d, e)
    requires EdgesMid(past, current, d, f, todo) && Visits(todo, e, todo') && e in d.edges
    requires forall x :: x in processed ==> x in d.edges && x !in todo
    ensures EdgeStep(f, d.edges[e], e, processed).Ok?
    ensures EdgeStep(f, d.edges[e], e, processed).value.1 == processed + [e]
    ensures EdgesMid(past, current, d, EdgeStep(f, d.edges[e], e, processed).value.0, todo')
  {
    if !d.directed {
      NoReversal(d, processed, e);
    }
    EdgeStepEffect(past, current, d, f, processed, e);
    EdgeSetReplays(past, current, d, f, todo, e, todo', EdgeStep(f, d.edges[e], e, processed).value.0);
  }

  lemma {:induction false} EdgesPassReplays(past: Frame, current: Frame, d: Delta, f: Frame,
                                            processed: seq<Edge>, es: seq<Edge>)
    returns (f': Frame)
    requires WellFormed(current) && WellFormed(d) && d.directed == past.directed
    requires EdgesMid(past, current, d, f, es)
    requires forall x :: x in processed ==> x in d.edges && x !in es
    requires forall e :: e in es ==> e in d.edges && EdgeFact(past, current, d, e)
    requires forall i, j :: 0 <= i < j < |es| ==> es[i] != es[j]
    ensures EdgesPass(f, d, es, processed) == Ok(f')
    ensures EdgesMid(past, current, d, f', [])
    decreases |es|
  {
    if es == [] {
      f' := f;
    } else {
      assert Visits(es, es[0], es[1..]) by {
        assert es == [es[0]] + es[1..];
      }
      EdgeStepReplays(past, current, d, f, processed, es, es[0], es[1..]);
      var step := EdgeStep(f, d.edges[es[0]], es[0], processed).value;
      f' := EdgesPassReplays(past, current, d, step.0, processed + [es[0]], es[1..]);
    }
  }

  lemma EdgesDone(past: Frame, current: Frame, d: Delta, f: Frame)
    requires Describes(past, current, d) && EdgesMid(past, current, d, f, [])
    ensures f == current
  {
    forall e ensures (e in f.edges <==> e in current.edges) && (e in f.edges ==> f.edges[e] == current.edges[e]) {
      assert EdgeFact(past, current, d, e);
    }
    assert f.nodes == current.nodes;
    assert f.edges == current.edges;
  }

  // -------------------------------------------------------------- round trip

  /** Before the node pass the focus frame is the past frame. */
  lemma NodesStart(past: Frame, current: Frame, d: Delta, ids: seq<NodeId>)
    requires WellFormed(past) && forall n :: n in ids <==> n in d.nodes
    ensures NodesMid(past, current, d, past, ids)
  {
  }

  /** Replaying a delta that describes the change from `past` to `current`
      onto `past` yields `current`. */
  lemma DescribedReplays(past: Frame, current: Frame, d: Delta)
    requires Describes(past, current, d)
    ensures Decompress(past, d) == Ok(current)
  {
    var ids := SortedNats(d.nodes.Keys);
    var es := SortedEdges(d.edges.Keys);
    NodesStart(past, current, d, ids);
    var f1 := NodesPassReplays(past, current, d, past, ids);
    NodesDone(past, current, d, f1, es);
    var f2 := EdgesPassReplays(past, current, d, f1, [], es);
    EdgesDone(past, current, d, f2);
  }

  /** `_decompress(past, compress(past, current))` rebuilds `current`. */
  lemma DecompressCompress(past: Frame, current: Frame)
    requires Consecutive(past, current)
    ensures Compress(past, current).Ok?
    ensures Decompress(past, Compress(past, current).value) == Ok(current)
  {
    CompressDescribes(past, current);
    DescribedReplays(past, current, Compress(past, current).value);
  }
}
