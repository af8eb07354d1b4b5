/**
  The frame lists of `NetworkFrames`: compressing a sequence of snapshots
  into the first snapshot followed by one delta per later snapshot,
  replaying that list back into snapshots, and the change counts read off
  a delta.
*/
module Frames {
  import opened Order
  import opened Wrappers
  import opened Graphs
  import opened Deltas
  import opened Compression
  import opened Decompression
  import opened RoundTrip

  /** A non-empty compressed list: frame 0 as it is, then the deltas. */
  datatype Compressed = Compressed(first: Frame, deltas: seq<Delta>)

  /** `len(compressedFrames)`; `None` is the empty list. */
  function Length(c: Option<Compressed>): nat
  {
    if c.None? then 0 else 1 + |c.value.deltas|
  }

  /** Frames that the compressor may pair up: well formed and all of one kind. */
  ghost predicate Sequence(frames: seq<Frame>)
  {
    forall i :: 0 <= i < |frames| ==> WellFormed(frames[i]) && frames[i].directed == frames[0].directed
  }

  /** The deltas between each frame of `frames` and the next one. */
  function DeltaList(frames: seq<Frame>): (r: Result<seq<Delta>>)
    requires |frames| >= 1 && Sequence(frames)
    ensures r.Ok? ==> |r.value| == |frames| - 1
    ensures r.Ok? ==> forall i :: 0 <= i < |r.value| ==> Compress(frames[i], frames[i + 1]) == Ok(r.value[i])
    ensures r.Err? ==> r.error == KeyError
    decreases |frames|
  {
    if |frames| == 1 then Ok([])
    else
      match Compress(frames[0], frames[1])
      case Err(e) => Err(e)
      case Ok(d) =>
        SequenceTail(frames);
        match DeltaList(frames[1..])
        case Err(e) => Err(e)
        case Ok(rest) =>
          ConsDeltas(frames, d, rest, [d] + rest);
          Ok([d] + rest)
  }

  lemma ConsDeltas(frames: seq<Frame>, d: Delta, rest: seq<Delta>, ds: seq<Delta>)
    requires |frames| > 1 && Sequence(frames) && Sequence(frames[1..]) && |rest| == |frames| - 2
    requires ds == [d] + rest && Compress(frames[0], frames[1]) == Ok(d)
    requires forall i :: 0 <= i < |rest| ==> Compress(frames[1..][i], frames[1..][i + 1]) == Ok(rest[i])
    ensures forall i :: 0 <= i < |ds| ==> Compress(frames[i], frames[i + 1]) == Ok(ds[i])
  {
    forall i | 0 < i < |ds| ensures Compress(frames[i], frames[i + 1]) == Ok(ds[i]) {
      assert frames[1..][i - 1] == frames[i] && frames[1..][i] == frames[i + 1] && ds[i] == rest[i - 1];
    }
  }

  /** The deltas are all computed exactly when no pair of frames makes the
      compressor read a missing attribute. */
  lemma {:induction false} DeltaListOk(frames: seq<Frame>)
    requires |frames| >= 1 && Sequence(frames)
    ensures DeltaList(frames).Ok? <==>
              forall i :: 0 <= i < |frames| - 1 ==> !MissingPastKey(frames[i], frames[i + 1])
    decreases |frames|
  {
    if |frames| > 1 {
      DeltaListOk(frames[1..]);
      DeltaListStep(frames);
      PairsStep(frames);
    }
  }

  /** One step of `DeltaList`: it succeeds iff the first pair compresses
      and the rest of the list does. */
  lemma DeltaListStep(frames: seq<Frame>)
    requires |frames| > 1 && Sequence(frames)
    ensures Sequence(frames[1..])
    ensures DeltaList(frames).Ok? <==> !MissingPastKey(frames[0], frames[1]) && DeltaList(frames[1..]).Ok?
  {
    SequenceTail(frames);
  }

  lemma SequenceTail(frames: seq<Frame>)
    requires |frames| > 1 && Sequence(frames)
    ensures Sequence(frames[1..])
  {
    var tail := frames[1..];
    assert forall i :: 0 <= i < |tail| ==> tail[i] == frames[i + 1];
  }

  lemma PairsStep(frames: seq<Frame>)
    requires |frames| > 1
    ensures (forall i :: 0 <= i < |frames| - 1 ==> !MissingPastKey(frames[i], frames[i + 1])) <==>
            !MissingPastKey(frames[0], frames[1]) &&
            (forall i :: 0 <= i < |frames[1..]| - 1 ==> !MissingPastKey(frames[1..][i], frames[1..][i + 1]))
  {
    var tail := frames[1..];
    assert forall i :: 0 <= i < |tail| ==> tail[i] == frames[i + 1];
  }

  /** `compressNetworkFrames`: with fewer than two frames the compressed list
      is left as it was; otherwise it is rebuilt from scratch. */
  function CompressFrames(frames: seq<Frame>, previous: Option<Compressed>): (r: Result<Option<Compressed>>)
    requires Sequence(frames)
    ensures |frames| < 2 ==> r == Ok(previous)
    ensures |frames| >= 2 && r.Ok? ==>
              r.value.Some? && r.value.value.first == frames[0] && Length(r.value) == |frames|
  {
    if |frames| < 2 then Ok(previous)
    else
      var ds :- DeltaList(frames);
      Ok(Some(Compressed(frames[0], ds)))
  }

  /** The focus frame after each delta in turn. */
  function ReplayAll(focus: Frame, deltas: seq<Delta>): (r: Result<seq<Frame>>)
    ensures r.Ok? ==> |r.value| == |deltas|
    decreases |deltas|
  {
    if deltas == [] then Ok([])
    else
      match Decompress(focus, deltas[0])
      case Err(e) => Err(e)
      case Ok(next) =>
        match ReplayAll(next, deltas[1..])
        case Err(e) => Err(e)
        case Ok(rest) => Ok([next] + rest)
  }

  /** `decrompressNetworkFrames`: with more than one compressed frame the
      decompressed list is rebuilt; otherwise it is left as it was. */
  function DecompressFrames(c: Option<Compressed>, previous: seq<Frame>): (r: Result<seq<Frame>>)
    ensures Length(c) <= 1 ==> r == Ok(previous)
    ensures Length(c) > 1 && r.Ok? ==> |r.value| == Length(c) && r.value[0] == c.value.first
  {
    if Length(c) <= 1 then Ok(previous)
    else
      match ReplayAll(c.value.first, c.value.deltas)
      case Err(e) => Err(e)
      case Ok(rest) => Ok([c.value.first] + rest)
  }

  /** Every adjacent pair satisfies the compressor's input assumptions. */
  ghost predicate Describable(frames: seq<Frame>)
  {
    Sequence(frames) && forall i :: 0 <= i < |frames| - 1 ==> Consecutive(frames[i], frames[i + 1])
  }

  lemma {:induction false} ReplayRebuilds(frames: seq<Frame>, deltas: seq<Delta>)
    requires |frames| >= 1 && |deltas| == |frames| - 1
    requires forall i :: 0 <= i < |deltas| ==> Decompress(frames[i], deltas[i]) == Ok(frames[i + 1])
    ensures ReplayAll(frames[0], deltas) == Ok(frames[1..])
    decreases |deltas|
  {
    if deltas != [] {
      assert Decompress(frames[0], deltas[0]) == Ok(frames[1]);
      var f1, d1 := frames[1..], deltas[1..];
      forall i | 0 <= i < |d1| ensures Decompress(f1[i], d1[i]) == Ok(f1[i + 1]) {
        assert f1[i] == frames[i + 1] && d1[i] == deltas[i + 1] && f1[i + 1] == frames[i + 2];
      }
      ReplayRebuilds(f1, d1);
      ConsSlice(f1);
    }
  }

  /** The round trip the repository's own test checks: compressing a run of
      describable frames and decompressing the result gives the frames
      back, as many as there were, each with the same nodes, edges and
      attribute values. */
  lemma FramesRoundTrip(frames: seq<Frame>, previous: Option<Compressed>, previousDecompressed: seq<Frame>)
    requires |frames| >= 2 && Describable(frames)
    ensures CompressFrames(frames, previous).Ok?
    ensures DecompressFrames(CompressFrames(frames, previous).value, previousDecompressed) == Ok(frames)
  {
    DeltaListOk(frames);
    var ds := DeltaList(frames).value;
    EachReplays(frames, ds);
    ReplayRebuilds(frames, ds);
    CompressFramesIs(frames, previous, ds);
    DecompressFramesIs(frames[0], ds, frames[1..], previousDecompressed);
    ConsSlice(frames);
  }

  lemma CompressFramesIs(frames: seq<Frame>, previous: Option<Compressed>, ds: seq<Delta>)
    requires |frames| >= 2 && Sequence(frames) && DeltaList(frames) == Ok(ds)
    ensures CompressFrames(frames, previous) == Ok(Some(Compressed(frames[0], ds)))
  {
  }

  lemma DecompressFramesIs(first: Frame, ds: seq<Delta>, rest: seq<Frame>, previous: seq<Frame>)
    requires |ds| >= 1 && ReplayAll(first, ds) == Ok(rest)
    ensures DecompressFrames(Some(Compressed(first, ds)), previous) == Ok([first] + rest)
  {
  }

  /** Each delta of describable frames rebuilds the next frame. */
  lemma EachReplays(frames: seq<Frame>, ds: seq<Delta>)
    requires Describable(frames) && |ds| == |frames| - 1
    requires forall i :: 0 <= i < |ds| ==> Compress(frames[i], frames[i + 1]) == Ok(ds[i])
    ensures forall i :: 0 <= i < |ds| ==> Decompress(frames[i], ds[i]) == Ok(frames[i + 1])
  {
    forall i | 0 <= i < |ds| ensures Decompress(frames[i], ds[i]) == Ok(frames[i + 1]) {
      DecompressCompress(frames[i], frames[i + 1]);
    }
  }

  // ------------------------------------------------------------- counting

  /** The entries among the keys `xs` whose tag is in `t`. */
  ghost function TaggedIn<K>(m: map<K, Marked>, xs: seq<K>, t: set<Tag>): set<K>
  {
    set x | x in xs && x in m && m[x].tag in t
  }

  lemma TaggedInStep<K>(m: map<K, Marked>, xs: seq<K>, y: K, t: set<Tag>)
    requires y !in xs && y in m
    ensures |TaggedIn(m, xs + [y], t)| == |TaggedIn(m, xs, t)| + (if m[y].tag in t then 1 else 0)
  {
    if m[y].tag in t {
      assert TaggedIn(m, xs + [y], t) == TaggedIn(m, xs, t) + {y};
    } else {
      assert TaggedIn(m, xs + [y], t) == TaggedIn(m, xs, t);
    }
  }

  /** How many entries of the dictionary `m` carry a tag in `t`, counted
      by walking its keys `keys` once each. */
  method CountTagged<K>(m: map<K, Marked>, keys: seq<K>, t: set<Tag>) returns (k: nat)
    requires forall x :: x in keys <==> x in m
    requires forall i, j :: 0 <= i < j < |keys| ==> keys[i] != keys[j]
    ensures k == |Tagged(m, t)|
  {
    k := 0;
    var i := 0;
    while i < |keys|
      invariant 0 <= i <= |keys|
      invariant k == |TaggedIn(m, keys[..i], t)|
    {
      assert keys[..i + 1] == keys[..i] + [keys[i]];
      assert keys[i] !in keys[..i];
      TaggedInStep(m, keys[..i], keys[i], t);
      if m[keys[i]].tag in t {
        k := k + 1;
      }
      i := i + 1;
    }
    assert keys[..i] == keys;
    assert TaggedIn(m, keys, t) == Tagged(m, t);
  }

  /** `getNumberOfChanges(index)`: the number of nodes and edges whose tag
      is not 'None'. Frame 0 is stored without tags, so reading a tag there
      raises KeyError unless the frame is empty. */
  method NumberOfChanges(c: Option<Compressed>, index: int) returns (r: Result<nat>)
    ensures !(0 <= index < Length(c)) ==> r == Err(KeyError)
    ensures 0 <= index < Length(c) && index == 0 ==>
              r == if c.value.first.nodes == map[] && c.value.first.edges == map[] then Ok(0) else Err(KeyError)
    ensures 0 < index < Length(c) ==>
              r == Ok(|ChangedNodes(c.value.deltas[index - 1])| + |ChangedEdges(c.value.deltas[index - 1])|)
  {
    if !(0 <= index < Length(c)) {
      return Err(KeyError);
    }
    if index == 0 {
      if c.value.first.nodes == map[] && c.value.first.edges == map[] {
        return Ok(0);
      }
      return Err(KeyError);
    }
    var k := CountChanges(c.value.deltas[index - 1]);
    r := Ok(k);
  }

  /** The count `getNumberOfChanges` makes on a delta. */
  method CountChanges(d: Delta) returns (k: nat)
    ensures k == |ChangedNodes(d)| + |ChangedEdges(d)|
  {
    var nodes := CountTagged(d.nodes, SortedNats(d.nodes.Keys), ChangeTags);
    var edges := CountTagged(d.edges, SortedEdges(d.edges.Keys), ChangeTags);
    k := nodes + edges;
  }

  /** `getNumNodesAdded`: the number of nodes tagged 'Added'. */
  method NumNodesAdded(d: Delta) returns (k: nat)
    ensures k == |AddedNodes(d)|
  {
    k := CountTagged(d.nodes, SortedNats(d.nodes.Keys), {Added});
  }

  /** `getNumEdgesAdded`: the number of edges tagged 'Added'. */
  method NumEdgesAdded(d: Delta) returns (k: nat)
    ensures k == |AddedEdges(d)|
  {
    k := CountTagged(d.edges, SortedEdges(d.edges.Keys), {Added});
  }

  lemma AddedNodeIsNew(past: Frame, current: Frame, d: Delta, n: NodeId)
    requires WellFormed(past) && WellFormed(current) && past.directed == current.directed
    requires Compress(past, current) == Ok(d)
    ensures n in d.nodes && d.nodes[n].tag == Added <==> n in current.nodes && n !in past.nodes
  {
    CompressNodeTags(past, current, n);
  }

  lemma AddedNodesPointwise(past: Frame, current: Frame, d: Delta)
    requires WellFormed(past) && WellFormed(current) && past.directed == current.directed
    requires Compress(past, current) == Ok(d)
    ensures forall n :: n in d.nodes && d.nodes[n].tag == Added <==> n in current.nodes && n !in past.nodes
  {
    forall n ensures n in d.nodes && d.nodes[n].tag == Added <==> n in current.nodes && n !in past.nodes {
      AddedNodeIsNew(past, current, d, n);
    }
  }

  /** On a compressed frame the added nodes are exactly the nodes only the
      later snapshot has. */
  lemma AddedNodesAreNew(past: Frame, current: Frame, d: Delta)
    requires WellFormed(past) && WellFormed(current) && past.directed == current.directed
    requires Compress(past, current) == Ok(d)
    ensures AddedNodes(d) == current.nodes.Keys - past.nodes.Keys
  {
    AddedNodesPointwise(past, current, d);
    AddedNodesExact(d, current.nodes.Keys - past.nodes.Keys);
  }

  lemma AddedEdgeIsNew(past: Frame, current: Frame, d: Delta, e: Edge)
    requires WellFormed(past) && WellFormed(current) && past.directed == current.directed
    requires Compress(past, current) == Ok(d)
    ensures e in d.edges && d.edges[e].tag == Added <==> e in current.edges && e !in past.edges
  {
    CompressEdgeTags(past, current, e);
  }

  lemma AddedEdgesPointwise(past: Frame, current: Frame, d: Delta)
    requires WellFormed(past) && WellFormed(current) && past.directed == current.directed
    requires Compress(past, current) == Ok(d)
    ensures forall e :: e in d.edges && d.edges[e].tag == Added <==> e in current.edges && e !in past.edges
  {
    forall e ensures e in d.edges && d.edges[e].tag == Added <==> e in current.edges && e !in past.edges {
      AddedEdgeIsNew(past, current, d, e);
    }
  }

  /** On a compressed frame the added edges are exactly the edges only the
      later snapshot has. */
  lemma AddedEdgesAreNew(past: Frame, current: Frame, d: Delta)
    requires WellFormed(past) && WellFormed(current) && past.directed == current.directed
    requires Compress(past, current) == Ok(d)
    ensures AddedEdges(d) == current.edges.Keys - past.edges.Keys
  {
    AddedEdgesPointwise(past, current, d);
    AddedEdgesExact(d, current.edges.Keys - past.edges.Keys);
  }

  /** Every added element is a change. */
  lemma AddedAreChanges(d: Delta)
    ensures |AddedNodes(d)| <= |ChangedNodes(d)|
    ensures |AddedEdges(d)| <= |ChangedEdges(d)|
  {
    SubsetCard(AddedNodes(d), ChangedNodes(d));
    SubsetCard(AddedEdges(d), ChangedEdges(d));
  }
}
