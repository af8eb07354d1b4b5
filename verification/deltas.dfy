/**
  Delta graphs. A compressed frame is a graph whose every node and edge
  carries the `compressState` tag saying what happened to it between two
  snapshots; a state change also records which attribute changed, from
  which value and to which value. The tag and the change record are kept
  apart from the element's other attributes here; `Payload` puts the
  change record back among the attributes, as the Python dictionaries
  hold it once the tag itself has been popped.
*/
module Deltas {
  import opened Order
  import opened Wrappers
  import opened Graphs

  /** The values of `compressState`: 'None', 'Added', 'Deleted', 'StateChanged'. */
  datatype Tag = Unchanged | Added | Deleted | StateChanged

  /** The 'StateChangedName', 'StateChangedFrom' and 'StateChangedTo' entries. */
  datatype Change = Change(name: Name, from: Value, to: Value)

  datatype Marked = Marked(tag: Tag, attrs: Attrs, change: Option<Change>)

  type Delta = Graph<Marked>

  const NameKey: Name := "StateChangedName"
  const FromKey: Name := "StateChangedFrom"
  const ToKey: Name := "StateChangedTo"

  /** The attribute dictionary left once the tag has been popped. */
  function Payload(m: Marked): (a: Attrs)
    ensures m.change.None? ==> a == m.attrs
    ensures m.change.Some? ==>
              a.Keys == m.attrs.Keys + {NameKey, FromKey, ToKey} &&
              a[NameKey] == StrV(m.change.value.name) &&
              a[FromKey] == m.change.value.from && a[ToKey] == m.change.value.to &&
              (forall k :: k in m.attrs && k !in {NameKey, FromKey, ToKey} ==> a[k] == m.attrs[k])
  {
    match m.change
    case None => m.attrs
    case Some(c) => m.attrs[NameKey := StrV(c.name)][FromKey := c.from][ToKey := c.to]
  }

  /** The tags `getNumberOfChanges` counts: a tag containing 'Added',
      'Deleted' or 'StateChanged'; the tag 'None' contains none of them. */
  const ChangeTags: set<Tag> := {Added, Deleted, StateChanged}

  /** The keys of `m` whose entry carries a tag in `t`. */
  ghost function Tagged<K>(m: map<K, Marked>, t: set<Tag>): set<K>
  {
    set x | x in m && m[x].tag in t
  }

  ghost function ChangedNodes(d: Delta): set<NodeId>
  {
    Tagged(d.nodes, ChangeTags)
  }

  ghost function ChangedEdges(d: Delta): set<Edge>
  {
    Tagged(d.edges, ChangeTags)
  }

  ghost function AddedNodes(d: Delta): set<NodeId>
  {
    Tagged(d.nodes, {Added})
  }

  ghost function AddedEdges(d: Delta): set<Edge>
  {
    Tagged(d.edges, {Added})
  }

  lemma AddedNodesExact(d: Delta, s: set<NodeId>)
    requires forall n :: n in d.nodes && d.nodes[n].tag == Added <==> n in s
    ensures AddedNodes(d) == s
  {
  }

  lemma AddedEdgesExact(d: Delta, s: set<Edge>)
    requires forall e :: e in d.edges && d.edges[e].tag == Added <==> e in s
    ensures AddedEdges(d) == s
  {
  }
}
