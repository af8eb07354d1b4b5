# PyGNA core, modelled in Dafny

PyGNA (Graph Network Analysis) learns how a network evolves and replays what it
learnt. It reads a run of network snapshots ("frames") and compresses them into
a first frame followed by one *delta* per later frame. Each delta records which
nodes and edges were added or deleted and which changed one attribute. From the
deltas it builds a *recipe*: *motif transitions* that pair the subgraph a change
applied to (the *extraction subgraph*) with the change itself (the *rewriting
rule*), counted by how often they were seen. To simulate, it finds where a rule's
extraction subgraph occurs in a network using a Grochow–Kellis subgraph
enumerator with symmetry breaking. It then relabels the rule onto that
occurrence. Along the way it keeps bookkeeping that stops two rules from
rewriting the same elements, and it draws choices in proportion to their counts.

This project models that core as pure Dafny functions and methods over one
small graph datatype, and proves what each operation promises.

- **Graphs** (`graphs.dfy`): `Graph<A>` has a directed flag, a map from node id
  to payload, and a map from edge pair to payload. Undirected pairs are stored
  with the smaller id first. A plain frame carries attribute maps (`Frame`). A
  delta carries `Marked` payloads: a tag (`None`/`Added`/`Deleted`/`StateChanged`),
  the attributes, and for a state change the name, from-value and to-value
  (`deltas.dfy`). The networkx operations the code relies on are modelled here:
  `remove_node`, `relabel_nodes`, `has_edge`, the degrees and neighbours.
- **Frame compression and decompression** (`compress.dfy`, `decompress.dfy`,
  `roundtrip.dfy`, `frames.dfy`): `compressNetworkFrames`, `_decompress`,
  `decrompressNetworkFrames`, and the counters `getNumberOfChanges`,
  `getNumNodesAdded` and `getNumEdgesAdded`. The round trip is proved:
  decompressing the compressed frames gives the input frames back.
- **Extraction** (`extraction.dfy`): `getExtractionSubgraphFromDelta` and
  `binaryStateOpposite`. For a compressor delta, the extraction subgraph lies
  inside the earlier frame.
- **Matching** (`matching.dfy`, `matchsound.dfy`, `symmetry.dfy`):
  `findSubgraphInstances`, `isomorphicExtensions` and `symmetryConditions`. Every
  mapping returned is proved to be a total, injective, induced, attribute- and
  state-preserving match that respects the symmetry conditions. The conditions
  themselves are proved to be ordered pairs of pattern nodes.
- **Isomorphism tests** (`isomorphism.dfy`): `isIsomorphic` and
  `isIsomorphicFast`. Both are sound, and both are exhaustive once every
  permutation has been drawn.
- **Label disjointness** (`labels.dfy`): `makeNodeLabelsDisjoint` terminates and
  renames the graph without merging nodes, so it shares no id with the kept
  graph.
- **Rewriting** (`rewriting.dfy`, `generate.dfy`): the relabel-and-assert step of
  `performRewriting` (the assertion is proved never to fail), and
  `_generateRewritingEventFromExtraction`.
- **Rule bookkeeping** (`recipebuilder.dfy`, `motif.dfy`, `recipe.dfy`,
  `usedrules.dfy`, `selection.dfy`): `construct_rhs` and the insertion loop of
  `union_method`; the transition-list counters and the proportional choice; the
  recipe's prefix-sum lookups; the used-rewriting-rule buckets; and the
  proportional-selection table with its rebalancing.

Python exceptions become a `Result` (`wrappers.dfy`). The `random` draws become
parameters:
- the draw `val` of `choose_motif_transition`;
- the sequence `tries` of permutations an isomorphism test draws;
- an `Oracle` table giving the position `random.choice` picks in
  `isomorphicExtensions` for each partial mapping.

The matcher's persistent `self.state` is an explicit argument, threaded in and
out. Python's dictionary and set iteration order is unspecified. The model visits
node ids in ascending order, edges in lexicographic order, and attribute names in
string order (so "the first key" is the least name).

## Model

| member | source | states |
|---|---|---|
| Graphs.RemoveNode | PyGNA/Utility.py:66-67 | networkx `remove_node`: exactly the node and its incident edges disappear; every other node, edge and payload is untouched |
| Graphs.RemoveNodeKeepsStructure | PyGNA/Utility.py:66-67 | removing the processed base node keeps adjacency and edge data between the remaining nodes and never raises a remaining node's degree, in-degree or out-degree |
| Graphs.RelabelCarries | PyGNA/Rewriting.py:159 | a `relabel_nodes` that merges no two nodes carries every node and every edge to its new name with its payload |
| Graphs.RelabelWellFormed | PyGNA/Rewriting.py:159 | a relabelling that merges no two nodes yields a well-formed graph (edges join existing nodes, undirected pairs normalised) |
| Graphs.RelabelHasEdge | PyGNA/Rewriting.py:159 | under a relabelling that merges no two nodes, two renamed nodes are adjacent exactly when the originals were |
| Graphs.RelabelCounts | PyGNA/Rewriting.py:159 | a relabelling that merges no two nodes keeps the node count and the edge count |
| Graphs.RelabelUntouched | PyGNA/Rewriting.py:127 | a relabelling that moves no node of the graph returns the graph itself |
| Deltas.Payload | PyGNA/NetworkFrames.py:602-606 | the dictionary a delta element holds once its tag is popped: a state change carries its name, from-value and to-value under the three reserved keys, and every other attribute keeps its value; any other element carries just its attributes |
| Compression.NodeDiffEmpty | PyGNA/NetworkFrames.py:593-600 | a node present in both frames keeps `state_same` true exactly when the current frame agrees with the past one on every non-statistic attribute; statistics and keys only the past frame holds never count |
| Compression.EdgeDiffEmpty | PyGNA/NetworkFrames.py:642-643 | a shared edge counts as changed exactly when some attribute both frames hold has different values; an attribute only one frame holds is ignored |
| Compression.StateChange | PyGNA/NetworkFrames.py:599-606 | the recorded change names one of the differing attributes, with its past value as from-value and its current value as to-value |
| Compression.WithEndpoint | PyGNA/NetworkFrames.py:626-634 | adding a missing edge endpoint inserts it with the given mark; an endpoint already in the delta, and the edges, are left alone |
| Compression.EdgeMarked | PyGNA/NetworkFrames.py:621-672 | an edge is recorded by the two edge walks exactly when one frame alone has it, or both have it with a differing attribute; an added edge carries its current attributes, a deleted one its past attributes, and a changed one its past attributes with the record of one differing attribute |
| Compression.Compress | PyGNA/NetworkFrames.py:584-689 | the delta of two frames keeps the directed flag; it fails with KeyError exactly when a shared node has a non-statistic attribute the past frame lacks |
| Compression.AddedPassKeeps | PyGNA/NetworkFrames.py:622-653 | the walk over the current frame's edges keeps the node pass intact, adds only untouched endpoints, and records exactly the marks of the edges walked |
| Compression.DeletedPassKeeps | PyGNA/NetworkFrames.py:656-672 | the walk over the past frame's edges keeps the same invariant, so that together the walks record exactly the marked edges |
| Compression.EdgePasses | PyGNA/NetworkFrames.py:622-672 | after both edge walks the delta holds exactly the marked edges, each with its mark, and every edge has both endpoints in the delta |
| Compression.UnchangedKeeps | PyGNA/NetworkFrames.py:674-684 | the last pass keeps every recorded element; it adds a shared, unrecorded edge exactly when both its endpoints are already in the delta, tagged `None` with its past attributes, and adds nothing else |
| Compression.CompressSpec | PyGNA/NetworkFrames.py:589-684 | element by element: the node pass is kept, extra nodes are untouched endpoints, every changed edge carries its mark, and any other delta edge is shared by both frames and tagged `None` |
| Compression.NodePassSpec | PyGNA/NetworkFrames.py:589-619 | the node pass records a node exactly when it is new, gone, or changed a non-statistic attribute; an added node carries its current attributes, a deleted one its past attributes, and a changed one its current attributes with the record of one differing attribute |
| Compression.UnchangedEdges | PyGNA/NetworkFrames.py:674-684 | the last pass only adds: the directed flag, every node and every recorded edge are kept; which edges it adds is stated by `Compression.UnchangedKeeps` and `Compression.CompressUnchangedEdge` |
| Compression.CompressUnchangedEdge | PyGNA/NetworkFrames.py:674-684 | in the delta of two frames, an edge both frames share and neither walk recorded is present exactly when both its endpoints are, and then it is tagged `None` with its past attributes |
| Compression.CompressNodeTags | PyGNA/NetworkFrames.py:589-619 | a node is tagged Added iff only the current frame has it, Deleted iff only the past frame has it, and StateChanged iff both have it with a differing non-statistic attribute |
| Compression.CompressEdgeTags | PyGNA/NetworkFrames.py:622-672 | an edge is tagged Added iff only the current frame has it, Deleted iff only the past frame has it, and StateChanged iff both have it with a differing attribute |
| Decompression.AddEdge | PyGNA/NetworkFrames.py:755-756 | networkx `add_edge`: a missing endpoint appears with no attributes; the edge is present afterwards; a new edge gets the given attributes and an existing edge has them merged into its dictionary; all other nodes and edges are unchanged |
| Decompression.RemoveEdge | PyGNA/NetworkFrames.py:761-762 | `remove_edge` drops exactly that edge and keeps the nodes |
| Decompression.NextFree | PyGNA/NetworkFrames.py:725-727 | the id the collision loop settles on is the first id from the start value upwards that the delta does not use |
| Decompression.ChangeFailure | PyGNA/NetworkFrames.py:737-740 | replaying a state change succeeds exactly when the element exists, carries a change record, and holds the recorded from-value |
| Decompression.NodeStep | PyGNA/NetworkFrames.py:719-740 | replaying one delta node fails exactly when the id is not in the delta, when it deletes a node the focus lacks, or when its state change does not apply; only KeyError, AssertionError and the networkx error can escape |
| Decompression.EdgeStep | PyGNA/NetworkFrames.py:744-768 | replaying one delta edge skips, changing nothing, the reverse of an edge already processed in an undirected graph, and otherwise appends it to `processed`; it fails only on a state change that does not apply (KeyError or AssertionError) |
| Decompression.NodeAdded | PyGNA/NetworkFrames.py:722-732 | an Added node appears in the focus with its payload, under its own id when that is free and otherwise under an id the focus does not use; nothing else in the focus changes |
| Decompression.NodeDeleted | PyGNA/NetworkFrames.py:734-735 | a Deleted node present in the focus is removed together with exactly its incident edges; every other node and edge keeps its payload |
| Decompression.NodeStateChanged | PyGNA/NetworkFrames.py:737-740 | a state change that holds the from-value writes the to-value into that attribute; every other attribute, node and edge is kept |
| Decompression.NodeUnchanged | PyGNA/NetworkFrames.py:719-740 | a node tagged `None` leaves the focus and the delta unchanged |
| Decompression.EdgeAdded | PyGNA/NetworkFrames.py:755-756 | an Added edge is present afterwards with both endpoints: a new edge holds the payload, an existing one has the payload merged into it; every other node and edge is kept |
| Decompression.EdgeDeleted | PyGNA/NetworkFrames.py:758-762 | a Deleted edge is removed if the focus still has it and the focus is otherwise unchanged; an edge already gone with a deleted node is not an error |
| Decompression.EdgeStateChanged | PyGNA/NetworkFrames.py:764-767 | a state change on an edge holding the from-value writes the to-value; every other attribute, edge and node is kept |
| Decompression.EdgeUnchanged | PyGNA/NetworkFrames.py:768 | an edge tagged `None` changes nothing and only joins `processed` |
| Decompression.NodesPass | PyGNA/NetworkFrames.py:719-740 | the node loop keeps the directed flag and raises only KeyError, AssertionError or the networkx error; what it computes on a compressor delta is stated by `RoundTrip.NodesPassReplays` |
| Decompression.EdgesPass | PyGNA/NetworkFrames.py:742-768 | the edge loop keeps the directed flag and raises only KeyError or AssertionError; what it computes on a compressor delta is stated by `RoundTrip.EdgesPassReplays` |
| Decompression.Decompress | PyGNA/NetworkFrames.py:714-768 | `_decompress` keeps the directed flag and raises only KeyError, AssertionError or the networkx error; that it rebuilds the later frame from a compressor delta is `RoundTrip.DecompressCompress` |
| RoundTrip.ChangeRestores | PyGNA/NetworkFrames.py:737-740 | when two attribute maps differ in one value, writing the recorded to-value over the from-value turns the old map into the new one |
| RoundTrip.CompressDescribes | PyGNA/NetworkFrames.py:584-684 | for frames with one change per element, the compressor's delta describes exactly how the current frame differs from the past one |
| RoundTrip.NodeStepReplays | PyGNA/NetworkFrames.py:719-740 | replaying one node of a describing delta succeeds and moves the focus one node closer to the current frame |
| RoundTrip.NodesPassReplays | PyGNA/NetworkFrames.py:719-740 | the node loop succeeds on a describing delta: every node gets its current attributes or is removed with its edges |
| RoundTrip.EdgeStepEffect | PyGNA/NetworkFrames.py:744-768 | replaying one unvisited delta edge gives that edge its current attributes, or removes it, and changes nothing else |
| RoundTrip.EdgesPassReplays | PyGNA/NetworkFrames.py:742-768 | the edge loop succeeds on a describing delta and ends with every delta edge as the current frame has it |
| RoundTrip.DescribedReplays | PyGNA/NetworkFrames.py:714-768 | replaying a describing delta onto the past frame gives exactly the current frame |
| RoundTrip.DecompressCompress | PyGNA/NetworkFrames.py:714-768 | for two consecutive frames that change at most one attribute per element, `_decompress(past, compress(past, current))` rebuilds `current` |
| Frames.DeltaList | PyGNA/NetworkFrames.py:584-689 | one delta per adjacent pair of frames, each the compression of that pair; the only failure is KeyError |
| Frames.DeltaListOk | PyGNA/NetworkFrames.py:584-689 | all deltas are computed iff no adjacent pair makes the compressor read a missing attribute |
| Frames.CompressFrames | PyGNA/NetworkFrames.py:577-689 | with fewer than two frames the compressed list is left as it was; otherwise it is rebuilt as frame 0 followed by the deltas, as long as the input |
| Frames.ReplayAll | PyGNA/NetworkFrames.py:703-712 | replaying the deltas one after another gives one frame per delta |
| Frames.DecompressFrames | PyGNA/NetworkFrames.py:696-712 | with at most one compressed frame the decompressed list is untouched; otherwise it has one frame per compressed frame and starts with frame 0 |
| Frames.ReplayRebuilds | PyGNA/NetworkFrames.py:703-712 | when each delta rebuilds the next frame from the previous one, the replay loop rebuilds all later frames in order |
| Frames.FramesRoundTrip | PyGNA/NetworkFrames.py:577-712 | compressing frames that change at most one attribute per element per step, then decompressing, gives exactly the input frames back: the same count, nodes, edges and attribute values |
| Frames.CountTagged | PyGNA/NetworkFrames.py:478-493 | the counting loop returns exactly the number of entries whose tag is in the requested set |
| Frames.NumberOfChanges | PyGNA/NetworkFrames.py:468-493 | a bad index raises KeyError; frame 0 has no tags, so it raises KeyError unless it is empty; otherwise the result is the number of nodes plus edges whose tag is not `None` |
| Frames.CountChanges | PyGNA/NetworkFrames.py:478-493 | the number of nodes and edges tagged Added, Deleted or StateChanged |
| Frames.NumNodesAdded | PyGNA/NetworkFrames.py:810-818 | the number of nodes tagged Added |
| Frames.NumEdgesAdded | PyGNA/NetworkFrames.py:820-831 | the number of edges tagged Added |
| Frames.AddedNodesAreNew | PyGNA/NetworkFrames.py:608-612 | on a compressed frame, the Added nodes are exactly the nodes only the later snapshot has |
| Frames.AddedEdgesAreNew | PyGNA/NetworkFrames.py:622-638 | on a compressed frame, the Added edges are exactly the edges only the later snapshot has |
| Frames.AddedAreChanges | PyGNA/NetworkFrames.py:476-493 | the added nodes and edges never outnumber the changes `getNumberOfChanges` counts |
| Extraction.ExtractNodes | PyGNA/Extraction.py:231-244 | the node loop keeps exactly the nodes not tagged Added, each with the attributes it had before the change; a state change without its record raises KeyError |
| Extraction.KeepEdge | PyGNA/Extraction.py:248-256 | one edge turn adds the edge, without attributes, exactly when it is tagged Deleted or `None`, and adds any missing endpoint with an empty dictionary |
| Extraction.KeepEdges | PyGNA/Extraction.py:248-256 | the edge loop adds exactly the Deleted and `None` edges, without attributes, plus the endpoints they need |
| Extraction.ExtractionSubgraph | PyGNA/Extraction.py:228-258 | the extraction subgraph has the delta's directed flag; it fails with KeyError exactly when a state-changed node lacks its change record |
| Extraction.ExtractionEdges | PyGNA/Extraction.py:248-256 | the subgraph's edges are exactly the delta's Deleted and `None` edges, all without attributes, and the subgraph is well formed |
| Extraction.AddedEndpoints | PyGNA/Extraction.py:254-256 | an Added node enters the subgraph only as an endpoint of a kept edge |
| Extraction.BinaryStateOpposite | PyGNA/Extraction.py:260-263 | the result is 0 exactly for the value 1, and 1 for anything else |
| Extraction.CompressedFacts | PyGNA/NetworkFrames.py:589-672 | every compressor delta element has its change record; its non-Added nodes and its Deleted or `None` edges exist in the past frame; its Deleted nodes hold their past attributes |
| Extraction.ExtractionInside | PyGNA/Extraction.py:228-258 | the extraction subgraph lies inside any frame that holds its delta's prior nodes and edges |
| Extraction.ExtractionOfCompressed | PyGNA/Extraction.py:213-258 | for a delta the compressor produced, the extraction subgraph exists and is a subgraph of the earlier frame: every node and edge is in it, and deleted nodes keep their old attributes |
| RecipeBuilder.CountInto | PyGNA/RecipeBuilder.py:73-89 | one loop of `construct_rhs` raises the added, deleted and state-change entries by the number of elements with that tag; `None` elements count nowhere |
| RecipeBuilder.ConstructRhs | PyGNA/RecipeBuilder.py:70-91 | the right-hand side holds the delta and its six change counts, laid out by the `ChangeData` indices |
| RecipeBuilder.CountsSumToChanges | PyGNA/RecipeBuilder.py:70-91 | the six counts add up to the number of changes `getNumberOfChanges` reports for the same delta |
| RecipeBuilder.InsertFromDeltas | PyGNA/RecipeBuilder.py:106-115 | after inserting one more delta's pair, every transition still comes from one of the deltas seen so far |
| RecipeBuilder.InsertDelta | PyGNA/RecipeBuilder.py:106-115 | one pass records exactly one more occurrence, built from that delta's extraction subgraph and right-hand side; a delta whose extraction fails raises KeyError |
| RecipeBuilder.InsertAll | PyGNA/RecipeBuilder.py:102-115 | the loop records one occurrence per delta index 1..n-1, and every such delta's pair (extraction subgraph, right-hand side) is held by some transition, as created or as compared equal by `eqL`/`eqR`; it succeeds iff every such delta exists and can be extracted; a missing delta raises KeyError, as `_getCompressedNetworkAt` does (NetworkFrames.py lines 468-474), and so does a failed extraction |
| RecipeBuilder.UnionMethod | PyGNA/RecipeBuilder.py:95-118 | the recipe holds one transition list, which runs for n iterations (the number of input frames), holds the pair of every delta 1..n-1, and the recipe total is consistent with it; any failure is KeyError |
| RecipeBuilder.InsertHolds | PyGNA/Motif.py:258-272 | an insertion never changes the left- or right-hand side of a transition already present, and afterwards some transition holds the inserted pair |
| RecipeBuilder.InsertCovers | PyGNA/RecipeBuilder.py:106-115 | if the deltas before `m` each have their pair held by some transition, inserting delta `m`'s pair extends this to the deltas up to and including `m` |
| Motifs.SetNumIterations | PyGNA/Motif.py:192-194 | `num_iterations` becomes the given value; the transitions and both totals are kept |
| Motifs.NumTransitions | PyGNA/Motif.py:207-209 | the number of transitions is the length of the list |
| Motifs.LeftHandSides | PyGNA/Motif.py:248-250 | the left-hand sides, in list order |
| Motifs.SetNumChanges | PyGNA/Motif.py:212-215 | `total_changes` becomes the sum of all occurrence counts; nothing else changes |
| Motifs.AddTransition | PyGNA/Motif.py:229-232 | the transition is appended and its count added to `total_occurances` |
| Motifs.AddKeepsCounted | PyGNA/Motif.py:229-232 | appending keeps `total_occurances` equal to the sum of the counts |
| Motifs.FindMatch | PyGNA/Motif.py:260-268 | finds the first transition whose left- and right-hand sides both compare equal, or reports that none does |
| Motifs.InsertTransition | PyGNA/Motif.py:258-272 | the first matching transition is incremented and the length is kept iff a match exists; otherwise a count-1 transition is appended and `total_occurances` grows by one |
| Motifs.InsertAddsOne | PyGNA/Motif.py:258-272 | each insertion raises the sum of the occurrence counts by exactly one |
| Motifs.IncrementLeavesTotal | PyGNA/Motif.py:258-268 | incrementing an existing transition leaves `total_occurances` unchanged, so it falls behind the counts |
| Motifs.AppendKeepsCounted | PyGNA/Motif.py:270-272 | an insertion that appends keeps `total_occurances` in step with the counts |
| Motifs.CheckOptions | PyGNA/Motif.py:238 | the option list is accepted iff every option is a valid Python index into the transition list |
| Motifs.PickFirst | PyGNA/Motif.py:241-245 | returns the option whose running count first reaches the draw, present iff some running count does |
| Motifs.ChooseTransition | PyGNA/Motif.py:235-245 | `total_changes` is set first; an invalid option raises IndexError; otherwise, when the draw is at most the options' total, the result is the first option whose running count reaches the draw, paired with its transition |
| Recipes.SetTotalIterations | PyGNA/Recipe.py:49-53 | `total_iterations` becomes the sum of the lists' iteration counts |
| Recipes.AddTransitionList | PyGNA/Recipe.py:56-59 | the list is appended and its iteration count added to the total |
| Recipes.AddKeepsConsistent | PyGNA/Recipe.py:49-59 | adding lists one at a time keeps the total that `set_total_iterations` would recompute |
| Recipes.SelectList | PyGNA/Recipe.py:65-69 | the loop picks the first list whose cumulative iteration count reaches the iteration, or reports that none does |
| Recipes.SelectionExists | PyGNA/Recipe.py:64-69 | below a consistent total, some list's cumulative count always reaches the iteration |
| Recipes.ChooseMotifTransition | PyGNA/Recipe.py:62-71 | at or beyond the total, IndexError with nothing changed; below a consistent total, the first list whose cumulative count reaches the iteration makes the choice, and only that list is updated |
| Recipes.TransitionListForIteration | PyGNA/Recipe.py:74-83 | at or beyond the total it returns nothing (the `else` belongs to the loop); below a consistent total it returns the first list whose cumulative count reaches the iteration |
| Recipes.FloorDiv | PyGNA/Recipe.py:92 | Python 2 integer division: the quotient rounded towards minus infinity |
| Recipes.NumChangesThisIteration | PyGNA/Recipe.py:85-94 | IndexError at or beyond the total; otherwise the selected list's total changes divided by its iteration count, or ZeroDivisionError when that count is zero |
| Recipes.LhsForIteration | PyGNA/Recipe.py:97-106 | IndexError at or beyond the total; otherwise the left-hand sides of the first list whose cumulative count reaches the iteration |
| Recipes.IsNewIteration | PyGNA/Recipe.py:109-123 | nothing at or beyond the total; below a consistent total it never indexes past the lists and answers as the prefix-sum walk does |
| Recipes.NewMeansPrefix | PyGNA/Recipe.py:109-123 | with non-negative counts, `is_new_iteration` is True iff iteration-1 is a prefix sum of the lists' iteration counts |
| UsedRules.Clear | PyGNA/MotifExtraction.py:83-95 | exactly three buckets (Added, Deleted, StateChanged), each with empty node and edge lists |
| UsedRules.AddNodes | PyGNA/MotifExtraction.py:98-101 | the node loop only appends: a node is in a bucket's list afterwards iff it was before or it is a node of the rule with that tag; `None` nodes are ignored |
| UsedRules.AddEdges | PyGNA/MotifExtraction.py:103-108 | the edge loop only appends: an edge is in a bucket's list afterwards iff it was before or it is an edge of the rule with that tag |
| UsedRules.AddUsed | PyGNA/MotifExtraction.py:97-108 | adding a rule extends every list at its end with exactly the rule's changed nodes and edges, by tag; before a clear, a changed element raises KeyError |
| UsedRules.NodeHit | PyGNA/MotifExtraction.py:112-117 | the node loop finds a conflict iff some changed node already appears in its own tag's node list |
| UsedRules.EdgeConflictTest | PyGNA/MotifExtraction.py:125-141 | the `or` chain holds iff an endpoint was deleted, or the edge is already in a used-edge list (in either orientation when undirected) |
| UsedRules.EdgeHit | PyGNA/MotifExtraction.py:119-143 | the edge loop finds a conflict iff some changed edge meets that test |
| UsedRules.InUse | PyGNA/MotifExtraction.py:110-145 | a rule is in use iff a changed node conflicts or a changed edge conflicts |
| UsedRules.ClearedNothingUsed | PyGNA/MotifExtraction.py:83-145 | right after a clear, no rule is in use |
| UsedRules.AddedIsInUse | PyGNA/MotifExtraction.py:97-145 | once a rule that changes something has been added, it is in use |
| UsedRules.InUseStays | PyGNA/MotifExtraction.py:97-145 | adding a rule never takes another rule out of use |
| Selection.GenerateSelection | PyGNA/MotifExtraction.py:618-625 | entry i holds the extraction graph, a zero counter, and a bound that exceeds the previous one by exactly entry i's number of samples |
| Selection.TableSorted | PyGNA/MotifExtraction.py:618-625 | the cumulative bounds never decrease, and the last one is the total number of samples |
| Selection.Rebalance | PyGNA/MotifExtraction.py:627-633 | entries before k are kept, and every entry from k on loses entry k's sample count; an index past the extraction map raises IndexError |
| Selection.RebalanceClosesSlot | PyGNA/MotifExtraction.py:618-633 | rebalancing a fresh table at k gives the table entry k would have had with no samples, so its slot closes |
| Selection.MatchCount | PyGNA/MotifExtraction.py:771-776 | the number of matches in all pool lists together |
| Selection.RemoveMatch | PyGNA/MotifExtraction.py:766-769 | pops exactly the chosen match from that key's list, touches no other key, and rebalances only when that list becomes empty; a missing key raises KeyError and a bad position IndexError |
| Selection.RemoveShrinksPool | PyGNA/MotifExtraction.py:766-776 | a successful removal shrinks the pool size by exactly one |
| Selection.ResetExclusions | PyGNA/MotifExtraction.py:224-226 | each exclusion list becomes 0, 1, …, n-1 for an entry with n samples; graphs and samples are unchanged |
| Selection.ResetListsEverySample | PyGNA/MotifExtraction.py:224-226 | after a reset an index is in an entry's exclusion list iff it names one of that entry's samples |
| Labels.RelabelRenames | PyGNA/Rewriting.py:159 | `relabel_nodes` with a map that merges no nodes renames the graph: every node and every edge is carried with its payload, and nothing else appears |
| Labels.MoveRenames | PyGNA/Rewriting.py:157-159 | moving a node to an unused id is such a renaming |
| Labels.Fresh | PyGNA/Rewriting.py:158 | `max(nodes) + 1` is unused and above every id |
| Labels.Step | PyGNA/Rewriting.py:155-162 | one rename keeps node and edge counts and either removes a clash or keeps the clash count while lowering the distance to the largest kept id, so the loop terminates |
| Labels.MakeDisjoint | PyGNA/Rewriting.py:153-164 | the result shares no id with the kept ids; node and edge counts are kept; ids that were not kept stay with their attributes; with no overlap the graph is returned unchanged |
| Labels.DisjointMap | PyGNA/Rewriting.py:155-162 | the overall renaming moves each clashing id above the largest original id and leaves every other id in place |
| Labels.DisjointRenames | PyGNA/Utility.py:456-466 | the result is the input renamed by that map without merging nodes, with adjacency and payloads carried over |
| Isomorphism.IndexOf | PyGNA/Rewriting.py:232 | `list.index` returns the first position holding the value |
| Isomorphism.Pairing | PyGNA/Rewriting.py:210-211 | a draw sends the i-th node of the permutation to the i-th node of the second graph |
| Isomorphism.PairingBijection | PyGNA/Rewriting.py:205-211 | pairing two node lists that each list every node once gives a bijection between the node sets |
| Isomorphism.NodesIff | PyGNA/Rewriting.py:209-213 | the node check passes iff the pairing keeps every node's attribute dictionary |
| Isomorphism.AdjacencyIff | PyGNA/Rewriting.py:216-244 | the edge check passes iff the pairing keeps adjacency in both directions |
| Isomorphism.DataIff | PyGNA/Utility.py:406-422 | the fast variant's attribute comparison passes iff the pairing keeps every edge's attributes |
| Isomorphism.WorksIff | PyGNA/Rewriting.py:208-244 | a draw passes both checks iff the mapping it stands for is an isomorphism |
| Isomorphism.Search | PyGNA/Rewriting.py:206-250 | the draw loop returns a draw only if its pairing is an isomorphism, and returns none only if no drawn pairing is |
| Isomorphism.Check | PyGNA/Rewriting.py:193-255 | differing degree multisets give False; True always comes with a witness whose pairing is an isomorphism |
| Isomorphism.IsIsomorphic | PyGNA/Rewriting.py:178-255 | the same for `isIsomorphic`, which compares node attributes and adjacency but not edge attributes |
| Isomorphism.IsIsomorphicFast | PyGNA/Utility.py:356-437 | the same for `isIsomorphicFast`, which also compares edge attributes |
| Isomorphism.IsomorphismIsDrawable | PyGNA/Rewriting.py:205 | every isomorphism is the pairing of some permutation of the first graph's nodes |
| Isomorphism.CheckSound | PyGNA/Rewriting.py:193-255 | a True answer means the degree multisets agree and the graphs are isomorphic |
| Isomorphism.CheckComplete | PyGNA/Rewriting.py:204-255 | once every permutation has been drawn, an isomorphism between graphs with equal degree multisets is found |
| Isomorphism.CheckExhaustive | PyGNA/Rewriting.py:204-255 | once every permutation has been drawn, the test says True iff the degree multisets agree and an isomorphism exists |
| Isomorphism.SelfIsomorphic | PyGNA/Utility.py:383-431 | both tests find every graph isomorphic to itself |
| Symmetry.Moved | PyGNA/Utility.py:80 | the ids some listed automorphism moves |
| Symmetry.Fixing | PyGNA/Utility.py:83 | the automorphisms that fix the chosen id; strictly fewer whenever one moves it, which is why the loop terminates |
| Symmetry.Images | PyGNA/Utility.py:81 | every recorded image is a different id that some automorphism sends the chosen id to |
| Symmetry.Pairs | PyGNA/Utility.py:81-82 | the conditions recorded for an id pair it with each of its images, in order |
| Symmetry.PairsWitnessed | PyGNA/Utility.py:80-82 | every recorded condition (a, b) has b ≠ a and an automorphism sending a to b |
| Symmetry.Prune | PyGNA/Utility.py:79-84 | at most one automorphism gives no conditions; `min` of an empty list raises ValueError; every condition is witnessed by an automorphism |
| Symmetry.MovedUpwards | PyGNA/Utility.py:80-81 | a permutation that moves the least moved id sends it higher |
| Symmetry.MovedHeld | PyGNA/Utility.py:80-81 | every listed automorphism maps the least moved id |
| Symmetry.ImageAbove | PyGNA/Utility.py:81 | every image of the least moved id lies above it |
| Symmetry.PruneOrdered | PyGNA/Utility.py:79-84 | on permutations the loop never raises KeyError, and every condition (a, b) has a < b |
| Matching.StartState | PyGNA/Utility.py:32-41 | AttributeError exactly when the target's first node has attributes and the pattern's first node differs in count or first name; a new state is a name both first nodes carry |
| Matching.StateMatch | PyGNA/Utility.py:57 | the state test passes iff no state is in force or both nodes hold the same value for it; a missing value raises KeyError |
| Matching.DegreeCovers | PyGNA/Utility.py:58-59 | the top-level degree test fails with AttributeError exactly for a directed target and an undirected pattern; a pass means the node has room for the pattern node |
| Matching.DegreeShort | PyGNA/Utility.py:141-142 | the extension's degree skip fails the same way; a node it keeps has room for the pattern node |
| Matching.Linked | PyGNA/Utility.py:100-105 | the unmapped pattern nodes with a neighbour already in the mapping |
| Matching.FirstMax | PyGNA/Utility.py:106-110 | the head of a stable descending sort by degree: the first node of largest degree |
| Matching.Near | PyGNA/Utility.py:116-118 | the free pattern nodes that some mapped node has an edge to |
| Matching.Constrained | PyGNA/Utility.py:97-121 | the pattern node chosen next is always one not yet mapped |
| Matching.Around | PyGNA/Utility.py:124-130 | the unmapped target nodes adjacent to the range: successors, and predecessors too in a digraph |
| Matching.Reach | PyGNA/Utility.py:124-134 | the candidate target nodes are target nodes outside the range |
| Matching.Candidates | PyGNA/Utility.py:137 | every candidate tried is a target node outside the range, so the mapping stays injective |
| Matching.Scan | PyGNA/Utility.py:54-67 | a target with fewer nodes than the pattern yields no match; only KeyError or AttributeError can escape |
| Matching.DegreeOrder | PyGNA/Utility.py:47-48 | each target node appears once, in ascending degree order, ties broken by id |
| Matching.FindInstances | PyGNA/Utility.py:24-69 | incompatible first nodes raise AttributeError; a pattern larger than the target yields no match; only KeyError, AttributeError or ValueError can escape |
| Matching.SymmetryConditions | PyGNA/Utility.py:71-84 | `symmetryConditions` raises only KeyError, AttributeError or ValueError; that its conditions are ordered pairs of pattern nodes is `MatchSoundness.SymmetryOrdered` |
| MatchSoundness.StepInjective | PyGNA/Utility.py:173-174 | extending the mapping with a target node outside its range keeps it injective |
| MatchSoundness.StepRespects | PyGNA/Utility.py:158-165 | a candidate that breaks no condition keeps every symmetry condition respected |
| MatchSoundness.Step | PyGNA/Utility.py:136-175 | an accepted candidate extends a good partial match to a good partial match |
| MatchSoundness.ExtensionsSound | PyGNA/Utility.py:86-178 | every mapping `isomorphicExtensions` returns from a good partial match is a complete match |
| MatchSoundness.ExtendEachSound | PyGNA/Utility.py:137-175 | the same for the loop over candidate target nodes |
| MatchSoundness.DescendSound | PyGNA/Utility.py:140-175 | the same for one candidate tested and recursed on |
| MatchSoundness.TryQueriesSound | PyGNA/Utility.py:56-64 | every mapping started from a base node and a query node is a complete match |
| MatchSoundness.WithinDegrees | PyGNA/Utility.py:66-67 | no node of the shrunken graph has more edges than in the original |
| MatchSoundness.Transfer | PyGNA/Utility.py:54-67 | a match found in the shrunken graph is a match in the original graph |
| MatchSoundness.ScanSound | PyGNA/Utility.py:54-67 | every mapping the main loop returns is a complete match in the original graph |
| MatchSoundness.FindSound | PyGNA/Utility.py:24-69 | every mapping returned is total on the pattern, injective, induced, agrees on edge attributes and state, and passes the degree filters; with symmetry breaking it respects every condition |
| MatchSoundness.AutomorphismsPermute | PyGNA/Utility.py:77 | every mapping found of a pattern into itself permutes its nodes |
| MatchSoundness.SymmetryOrdered | PyGNA/Utility.py:71-84 | `symmetryConditions` never raises KeyError, and every condition (a, b) names two pattern nodes with a < b |
| Rewriting.RenamedAddedEdges | PyGNA/NetworkFrames.py:820-831 | renaming a delta's edges without merging nodes keeps the number tagged Added |
| Rewriting.RelabelAddedEdges | PyGNA/Rewriting.py:127-130 | `getNumEdgesAdded` is the same before and after a `relabel_nodes` that merges no nodes |
| Rewriting.MatchInjective | PyGNA/Rewriting.py:121-127 | a match of the disjoint rule's extraction subgraph merges no two ids of the rule |
| Rewriting.MatchedEvent | PyGNA/Rewriting.py:121-130 | relabelling the disjoint rule by such a match keeps its Added edges, renames it without merging, and lands every matched id on a node of the extraction subgraph |
| Rewriting.PlaceRenames | PyGNA/Rewriting.py:127 | placing the rule by its first match, or leaving it as it is when there is none, renames it without merging and keeps its Added-edge count |
| Rewriting.Event | PyGNA/Rewriting.py:120-127 | the event is the disjoint rule relabelled by the first match of its extraction subgraph; only KeyError, AttributeError or ValueError can escape |
| Rewriting.EventRenames | PyGNA/Rewriting.py:120-130 | the event renames the disjoint rule without merging, onto nodes of the extraction subgraph, and adds as many edges |
| Rewriting.RewriteEvent | PyGNA/Rewriting.py:120-130 | the `getNumEdgesAdded` assertion of `performRewriting` never fails: the step never returns AssertionError, and on success returns the event |
| Generate.Positions | PyGNA/Rewriting.py:169-173 | `mapDict` has a key for exactly the listed ids |
| Generate.PositionMap | PyGNA/Rewriting.py:169-173 | IndexError exactly when there are more listed ids than extraction nodes; otherwise a key for exactly the listed ids |
| Generate.PositionsLast | PyGNA/Rewriting.py:171-173 | a listed id goes to the extraction node at its last position, since later assignments override earlier ones |
| Generate.PositionsAt | PyGNA/Rewriting.py:171-173 | with distinct ids, the i-th listed id goes to the i-th extraction node |
| Generate.GenerateEvent | PyGNA/Rewriting.py:166-175 | fails with IndexError exactly when the mapping is longer than the extraction's node list; keeps the rule's directed flag |
| Generate.GenerateRenames | PyGNA/Rewriting.py:166-175 | with distinct ids covering the rule, the event renames the rule without merging, the i-th listed id becoming the extraction's i-th node |

## Left out

- Floating-point statistics are not modelled. This covers the Bhattacharyya distance, the cumulative degree distributions, the `Models` centralities and log-likelihoods, `calculate_distance`, `calculateAvgChanges` and `get_transition_probabilities`: they need floats, square roots and logarithms.
- `processNetworkFrames` is not modelled: it calls into networkx centrality and clustering code. So `compressNetworkFrames` is modelled on a given list of frames, without the `processed` switch between input and processed frames.
- File input and output is not modelled: graphML reading and writing, the recipe pickling, `write_lhs_to_disk`, and the debug graphML write at the top of `performRewriting`.
- The `print` statements and plotting (`display_transitions`, pie charts, the experimental value recorded for `dataDisplay`) produce output only and are not modelled.
- GTrie is not part of this model. Its matches appear only as an opaque pool of samples.
- The randomised drivers are orchestration around the modelled steps and are left out: `performExtraction`, `chooseExtractionSubgraph*`, `selectRewritingRule*`, `Recipe.select_rewriting_rule`, and `sampleNetwork*`. The same goes for the loop of `performRewriting` over the unique extraction subgraphs: its `isIsomorphic` test, its `random.choice` of a rule index and `_getCompressedNetworkAt`. The model takes the chosen rule as an argument.
- `UserExtractions.py` (an `exec`-based DSL) and the random test-network generators are not modelled.
- `sys.setrecursionlimit` is dropped. The persistent `self.state` field is an explicit argument and result.
- The reserved `compressState` keys are fields of `Marked`, not dictionary entries. A user attribute named like a reserved key is not modelled.
- Python's `random` module is not modelled. Its draws are parameters, and `Motifs.ChooseTransition` and `Recipes.ChooseMotifTransition` take the value `random.randint` returns.
- `isomorphicExtensions` draws a pattern node with `random.choice` when no free pattern node touches the mapping. The model reads that position from an `Oracle` table keyed by the partial mapping (position 0 where the table is silent), reduced modulo the list length.
- Python dictionary and set iteration order is unspecified. The model fixes ascending ids and names. So the node that `G.nodes()[0]` names, the first attribute key, the element `list(neighbors)[0]` picks and the order of returned matches are the model's choices; networkx may produce different ones.
- `Compression.StateChange`: when several attributes of one element change in one step, the source records whichever its dictionary loop meets last. The contract says only that the recorded name is one of the differing attributes, and the round trip assumes at most one change per element and step, as the source's own docstring does.
- `Decompression.NodeStep`: when an Added node's id is taken, the node moves to a fresh id and the rest of the delta is relabelled. `Decompression.NodeAdded` states the effect on the focus frame, but no contract states how the remaining delta is relabelled. Compressor deltas never collide, since an Added node is absent from the past frame, and the round trip proves this.
- `Frames.CompressFrames`: with two or more frames the source clears `compressedFrames` and appends frame 0 before its loop, then appends each delta as it is built. So a KeyError raised by `_compress` part-way leaves frame 0 and the earlier deltas behind. The model returns only the error and does not model that partial state.
- `Generate.GenerateEvent`: when the mapping sends two ids of the rule to one node, `relabel_nodes(copy=True)` merges the attribute dictionaries of the colliding nodes and of the colliding edges key by key (`add_nodes_from` and `add_edges_from` update an existing entry). `Graphs.Relabel` instead keeps one whole payload: for edges, that of the smallest colliding edge. For example, with undirected rule edges (1,2) and (2,3), mapping `[1]` and extraction nodes `[3]`, the source's edge (2,3) holds both edges' keys and the model's holds only edge (1,2)'s payload. The exact result is stated only for mappings that merge nothing (`Generate.GenerateRenames`).
- Node ids are natural numbers (`Order.NodeId`). The source reads graphML with `node_type=int` (graphMLRead.py line 29), so a file may hold negative ids, which the model cannot represent. The fresh id `max(nodes) + 1` and the ascending orders behave on naturals as they do on integers.
- `Frames.DecompressFrames`: the source clears `decompressedFrames` and refills it frame by frame, so an error in `_decompress` leaves a partly rebuilt list behind. The model returns only the error and does not model that partial state.
- `Selection.RemoveMatch`: the source pops the match before `rebalanceProportionalSelectionData` can raise IndexError, so the pool has already shrunk when the error escapes. The model returns only the error and does not model that partial state.
- Attribute values are integers or strings (`Graphs.Value`). Floats and booleans are not modelled, so Python's cross-type equality (`1 == 1.0 == True`) is lost. For example, `binaryStateOpposite(1.0)` returns 0 in the source, and no model value stands for 1.0.
- `Matching.Extensions`, `Matching.ExtendEach`, `Matching.Descend` and `Matching.Accept` state only which errors they can raise. What they compute is stated by the soundness lemmas in `MatchSoundness`. Completeness, meaning that every match is found, is not proved.
- `Matching.DegreeShort`: in a digraph, `isomorphicExtensions` skips a target node only when both its in-degree and its out-degree fall short. A kept node is therefore guaranteed only in-degree ≥ or out-degree ≥, not both. The soundness lemmas state that weaker guarantee.
- `MatchSoundness.FindSound`: `AdjacencyMatches` compares a pattern node with the nodes already mapped, so a self-loop on a pattern node is never compared with its image. Induced adjacency is proved for distinct pattern nodes.
- `Matching.FindInstances`: the filter at Utility.py line 178 drops empty mappings, but a mapping returned by the search always holds at least the base pair, so the model drops nothing.
- `Isomorphism.Check`: two sorted degree lists are compared as degree multisets, which is equal exactly when the sorted lists are. The permutations come from `tries`, the order the random draws produce. Exhaustiveness is proved for `tries` holding every permutation, as `itertools.permutations` does.
- `Generate.Positions`: when an id is listed twice, only the last position counts (`Generate.PositionsLast`). `Generate.GenerateRenames` assumes distinct ids.
- `RecipeBuilder.InsertDelta`: the left-hand side is the extraction subgraph itself. The `LHS` local data that `construct_lhs` computes through `Models` is floating-point and is not modelled, and the isomorphism comparison of left- and right-hand sides is a parameter (`eqL`, `eqR`).
