# gdwg::graph in Dafny

A model of `gdwg::graph<N, E>` (include/gdwg/graph.hpp) with `N = E = int`.
It is a directed weighted multigraph: a set of node values plus a set of
edges `(from, to, weight)`. No two edges share all three fields.

The model follows the container's two structures:

- The **node store** `nodes_rep_` is the field `nodes: seq<int>`, kept
  strictly ascending.
- The **adjacency index** `edges_rep_` is the field `adj: seq<Bucket>`.
  - It holds one bucket per source that has at least one outgoing edge, in
    ascending order of source.
  - Each bucket holds its `(dst, weight)` entries, strictly ascending by
    destination and then by weight.

The class `Gdwg.Graph` carries both fields. Its methods update them in place,
with loops where the C++ loops.

Iteration order is `Flatten(adj)`: every bucket's edges, bucket after bucket.
An iterator is a class `Gdwg.Iterator` over a position `Pos(outer, inner)`:
`outer` is the bucket and `inner` the entry within it. The `end()` sentinel is
`Pos(|adj|, 0)`.

What the model proves:

- Every mutator keeps the representation invariant `ValidState`: sorted,
  duplicate-free, non-empty buckets whose endpoints are all nodes.
- Each mutator states its effect on the abstract view: `NodeSet()` (the node
  set) and `EdgeSet()` (the edge set).
- Canonicity: two valid states are equal field for field exactly when their
  node sets and edge sets are equal. This is why `operator==` and the copy
  constructor mean what they should.
- `replace_node` and `merge_replace_node` rename `old` to `new` in every edge:
  - `RenameAll` is that renaming.
  - `replace_node` moves `old`'s bucket first and then re-points the
    destinations.
  - `merge_replace_node` re-points the destinations first and then moves
    `old`'s entries into `new`'s bucket.
  - Two lemmas show that both orders give `RenameAll`.
- The iterator's `++` and `--` are inverse to each other, and walking from
  `begin()` visits `Flatten(adj)`. That sequence is strictly ascending in
  `(from, to, weight)` order and holds exactly the edge set.
- `operator<<` produces the string `Render(nodes, adj)`. That text has two
  lines per node and one line per edge, and each integer it writes reads back
  to its value.

Modules:

- `Ordering`: sorted sequences with insertion and removal, and the fact that
  a sorted duplicate-free sequence is determined by its elements.
- `Results`: `Option`, and `Result` with the error `NodeMissing`. `NodeMissing`
  stands for the `std::runtime_error` thrown when an operation references an
  absent node.
- `Adjacency`: buckets and the orders `node_compare` and `edge_compare`. It
  also holds `edges_rep_.find`, bucket insertion and removal, and the
  flattening into iteration order.
- `Positions`: iterator positions with `begin`, `end`, `++`, `--` and `find`,
  and erasing one entry.
- `GraphState`: the representation invariant, canonicity, renaming, and the
  proof steps of the node operations.
- `Printing`: the text of `operator<<`.
- `Gdwg`: the classes `Graph` and `Iterator`.

## Model

| member | source | states |
|---|---|---|
| Gdwg.Graph.constructor | include/gdwg/graph.hpp:202-203 | the default graph is valid and has no nodes and no edges |
| Gdwg.Graph.FromNodes | include/gdwg/graph.hpp:209-215 | the range constructor inserts each value: the node set is the set of the values, with no edges |
| Gdwg.Graph.Copy | include/gdwg/graph.hpp:236-248 | the copy has the same node store and the same adjacency index as the original, proved from equal node and edge sets via canonicity |
| Gdwg.Graph.CopyBucket | include/gdwg/graph.hpp:241-247 | inserting one bucket's edges adds exactly that bucket's edges and keeps the nodes |
| Gdwg.Graph.InsertNode | include/gdwg/graph.hpp:270-277 | returns true iff the value was absent; afterwards the node set is the old one plus the value; edges untouched |
| Ordering.Insert | include/gdwg/graph.hpp:270-277 | inserting into a sorted set keeps it strictly ascending, adds exactly the value, leaves the sequence as it was when the value is present and grows it by one otherwise |
| Gdwg.Graph.IsNode | include/gdwg/graph.hpp:280-282 | true iff the value is a node |
| Gdwg.Graph.IsEmpty | include/gdwg/graph.hpp:285-287 | true iff there are no nodes, and then there are no edges |
| Gdwg.Graph.InsertEdge | include/gdwg/graph.hpp:290-311 | NodeMissing and no change when an endpoint is absent; otherwise Ok(true) iff the edge was new, the edge set gains exactly that edge, nodes unchanged, every bucket stays sorted and duplicate-free |
| Adjacency.OpenBucket | include/gdwg/graph.hpp:296-302 | creating the missing bucket of a source at its ordered place keeps the keys ascending and adds no edge |
| Adjacency.AddToBucket | include/gdwg/graph.hpp:304-309 | a bucket whose entries gain one entry, kept sorted, gives a valid index whose edges are the old ones plus that edge |
| Adjacency.FindBucket | include/gdwg/graph.hpp:610-614 | `edges_rep_.find(src)`: a found index holds that source's bucket; not found means no bucket has that source |
| Adjacency.FindOut | include/gdwg/graph.hpp:305-306 | a found entry index holds the entry; not found means the entry is absent |
| Gdwg.Graph.IsConnected | include/gdwg/graph.hpp:314-333 | NodeMissing when an endpoint is absent; otherwise true iff some edge goes from src to dst, whatever its weight |
| Gdwg.Graph.Nodes | include/gdwg/graph.hpp:336-342 | the nodes in strictly ascending order, each node exactly once |
| Ordering.DistinctCount | include/gdwg/graph.hpp:336-342 | a strictly ascending sequence has as many elements as its set: `nodes()` lists no value twice |
| Gdwg.Graph.ReplaceNode | include/gdwg/graph.hpp:345-388 | NodeMissing and no change when old is absent; Ok(false) and no change when new is a node; otherwise Ok(true), the node set loses old and gains new, the node count is kept, and the edge set is the old one with old renamed to new in every field |
| GraphState.MoveBucket | include/gdwg/graph.hpp:357-362 | re-keying old's bucket to new at new's ordered place keeps the index valid and renames the sources of exactly old's edges |
| Gdwg.RetargetBucket | include/gdwg/graph.hpp:366-379 | re-pointing one bucket's entries from old to new yields a sorted bucket whose entries are the old ones re-pointed, with duplicates collapsed |
| Gdwg.Graph.RetargetEdges | include/gdwg/graph.hpp:366-379 | the re-pointing loop over all buckets keeps the keys and renames old to new in the destination of every edge |
| GraphState.RetargetedEdges | include/gdwg/graph.hpp:366-379 | buckets each re-pointed as above form a valid index whose edge set has old renamed to new as destination |
| GraphState.SourcesThenTargets | include/gdwg/graph.hpp:357-379 | moving old's bucket first and then re-pointing destinations renames old to new everywhere |
| GraphState.ReplacedState | include/gdwg/graph.hpp:354-380 | inserting new, renaming the edges and erasing old leaves a valid state with the same node count |
| Gdwg.Graph.MergeReplaceNode | include/gdwg/graph.hpp:391-441 | NodeMissing and no change when either node is absent; otherwise Ok, old is no longer a node, and the edge set is the old one with old renamed to new in every field, equal triples collapsing |
| Gdwg.Graph.MoveEntries | include/gdwg/graph.hpp:415-433 | inserting each of old's entries under new and erasing old's bucket renames old to new as source and keeps the nodes |
| GraphState.MergeSources | include/gdwg/graph.hpp:415-433 | the edges after copying old's entries under new and dropping old's bucket are the edge set with old renamed to new as source |
| GraphState.TargetsThenSources | include/gdwg/graph.hpp:400-433 | re-pointing destinations first and then moving old's entries renames old to new everywhere |
| GraphState.MergedState | include/gdwg/graph.hpp:391-441 | after the merge and erasing old from the node store the state is valid |
| Gdwg.Graph.EraseNode | include/gdwg/graph.hpp:444-479 | true iff the value was a node; false changes nothing; the node set loses the value, and the edge set keeps exactly the edges that neither start nor end at it |
| Gdwg.FilterBucket | include/gdwg/graph.hpp:456-463 | erasing the entries aimed at v leaves a sorted bucket of exactly the other entries; an emptied bucket had only entries aimed at v |
| Gdwg.Graph.SweepTargets | include/gdwg/graph.hpp:454-470 | the sweep keeps the index valid (emptied buckets are dropped) and keeps exactly the edges not ending at v |
| GraphState.SweepKeep | include/gdwg/graph.hpp:464-468 | a bucket that keeps entries after filtering stays, and the swept prefix holds exactly the kept edges |
| GraphState.SweepDrop | include/gdwg/graph.hpp:464-466 | a bucket emptied by filtering is erased without losing a kept edge |
| GraphState.SweepDone | include/gdwg/graph.hpp:454-470 | once every bucket is swept, the index is valid and holds exactly the edges not ending at v |
| GraphState.ErasedNodeState | include/gdwg/graph.hpp:444-479 | removing v and every edge touching it leaves a valid state |
| Gdwg.Graph.EraseEdge | include/gdwg/graph.hpp:482-493 | NodeMissing and no change when an endpoint is absent; otherwise Ok(true) iff the edge existed, and the edge set loses exactly that edge |
| Gdwg.Graph.Clear | include/gdwg/graph.hpp:496-500 | no nodes and no edges remain, and the state is valid |
| Gdwg.Graph.Weights | include/gdwg/graph.hpp:503-525 | NodeMissing when an endpoint is absent; otherwise the weights in ascending order of weight, a weight listed iff that src-to-dst edge exists |
| Gdwg.Graph.Connections | include/gdwg/graph.hpp:528-557 | NodeMissing when src is absent; otherwise the destinations in strictly ascending order (so each once), a node listed iff some edge goes from src to it |
| Gdwg.Graph.Equals | include/gdwg/graph.hpp:560-595 | true iff both fields are equal, and also iff the node sets and the edge sets are equal |
| GraphState.Canonicity | include/gdwg/graph.hpp:560-595 | two valid states are identical exactly when they have the same node set and the same edge set |
| Ordering.Canonical | include/gdwg/graph.hpp:560-595 | two strictly ascending sequences with the same elements are equal |
| GraphState.SourcesAreNodes | include/gdwg/graph.hpp:296-302 | every bucket's source is a node |
| Adjacency.OrdersAreStrictTotal | include/gdwg/graph.hpp:78-93 | `node_compare`, the weight order, `edge_compare` (destination then weight) and the edge order are strict total orders |
| Adjacency.FlattenAscending | include/gdwg/graph.hpp:119-132 | iteration order is strictly ascending in (from, to, weight) |
| Adjacency.RemoveBucket | include/gdwg/graph.hpp:640-642 | erasing a bucket keeps the keys ascending and drops exactly that source's edges |
| Positions.BeginIsEnd | include/gdwg/graph.hpp:174-182 | `begin()` is at offset 0 and equals `end()` iff there are no edges |
| Gdwg.Graph.Begin | include/gdwg/graph.hpp:598-600 | a valid iterator at offset 0, equal to `end()` iff there are no edges |
| Gdwg.Graph.End | include/gdwg/graph.hpp:603-605 | a valid iterator just past the last edge |
| Positions.Next | include/gdwg/graph.hpp:119-132 | `++` moves to the next offset in iteration order |
| Positions.Prev | include/gdwg/graph.hpp:138-156 | `--` moves to the previous offset and stays put at offset 0 |
| Positions.PrevUndoesNext | include/gdwg/graph.hpp:119-156 | `--` after `++` returns to the same position |
| Positions.NextUndoesPrev | include/gdwg/graph.hpp:119-156 | `++` after `--` from any position past `begin()` returns to it |
| Positions.PrevOfEndIsLast | include/gdwg/graph.hpp:139-143 | `--end()` dereferences to the last edge in iteration order |
| Positions.WalkIsSuffix | include/gdwg/graph.hpp:119-132 | stepping `++` from a position to `end()` visits the rest of iteration order from that offset |
| Positions.Traversal | include/gdwg/graph.hpp:119-132 | stepping `++` from `begin()` to `end()` visits each edge once, in strictly ascending order, and visits all of them |
| Positions.IndexInjective | include/gdwg/graph.hpp:163-165 | two positions are equal iff they are at the same offset, so comparing positions compares places in iteration order |
| Gdwg.Iterator.At | include/gdwg/graph.hpp:174-198 | the iterator constructors used by `begin`, `end` and `find`: an iterator of that graph at the given position, made over the current adjacency index |
| Gdwg.Iterator.Deref | include/gdwg/graph.hpp:113-117 | the edge at the iterator's offset in iteration order, which is in the edge set |
| Gdwg.Iterator.Increment | include/gdwg/graph.hpp:119-132 | the iterator advances by one offset |
| Gdwg.Iterator.Decrement | include/gdwg/graph.hpp:138-156 | the iterator moves back one offset, and stays where it is at `begin()` |
| Gdwg.Iterator.Equals | include/gdwg/graph.hpp:163-165 | true iff the two iterators are at the same offset |
| Positions.Locate | include/gdwg/graph.hpp:608-629 | the position of an edge: `end()` iff the edge is absent, otherwise a position that dereferences to it |
| Gdwg.Graph.Find | include/gdwg/graph.hpp:608-629 | an iterator equal to `end()` iff the edge is absent, otherwise one that dereferences to that edge |
| Positions.EraseEntryValid | include/gdwg/graph.hpp:639-642 | erasing one entry, and its bucket if that empties, keeps the index valid |
| Positions.EraseEntryFlatten | include/gdwg/graph.hpp:632-644 | erasing one entry removes exactly its place from iteration order |
| Positions.Relocate | include/gdwg/graph.hpp:636-637 | a later position, advanced before the erase, lands one offset earlier afterwards |
| GraphState.EraseEntryState | include/gdwg/graph.hpp:632-644 | erasing one entry keeps the state valid and removes exactly that edge |
| Gdwg.Graph.EraseAt | include/gdwg/graph.hpp:632-644 | erasing at a position removes exactly that place from iteration order and returns the successor, at the same offset |
| Gdwg.Graph.EraseEdgeAt | include/gdwg/graph.hpp:632-644 | `erase_edge(it)` removes exactly the edge under `it` and returns an iterator at the same offset, the successor or `end()` |
| Gdwg.Graph.EraseBefore | include/gdwg/graph.hpp:649-651 | one round of `iter = erase_edge(iter)`: one more edge of the range is cut from iteration order, the returned position is still at the range start, and the position of `last` moves one offset back |
| Gdwg.Graph.EraseBetween | include/gdwg/graph.hpp:647-653 | the loop erases exactly the places between the two positions in iteration order |
| GraphState.EraseSliceEdges | include/gdwg/graph.hpp:647-653 | removing a slice of iteration order removes exactly the edges in that slice |
| Gdwg.Graph.EraseRange | include/gdwg/graph.hpp:647-653 | `erase_edge(first, last)` removes exactly the edges in `[first, last)` and returns an iterator at first's offset |
| Gdwg.Graph.Print | include/gdwg/graph.hpp:56-74 | the text written is `Render(nodes, adj)`: per node in order, its block |
| Gdwg.Graph.PrintBlock | include/gdwg/graph.hpp:61-70 | one node's block: the node, ` (`, its bucket's lines and `)` |
| Gdwg.Graph.BucketLines | include/gdwg/graph.hpp:62-69 | the lines of the node's bucket, or none when it has no bucket |
| Gdwg.Graph.PrintEntries | include/gdwg/graph.hpp:65-68 | one line holding destination and weight per entry, in bucket order |
| Gdwg.PrintedLines | include/gdwg/graph.hpp:56-74 | the text has two lines per node and one line per edge |
| Printing.RenderCount | include/gdwg/graph.hpp:60-71 | the text has two lines per node plus one line per bucket entry printed for those nodes |
| Printing.EntryCountFlatten | include/gdwg/graph.hpp:60-69 | when the nodes are ascending and own every bucket, the entries printed are exactly as many as the edges |
| Printing.RenderLines | include/gdwg/graph.hpp:56-74 | for ascending nodes owning all buckets, the text has two lines per node and one per edge |
| Printing.EntriesAt | include/gdwg/graph.hpp:62-64 | the entries printed for a node with a bucket are that bucket's |
| Printing.EntriesAbsent | include/gdwg/graph.hpp:62-63 | a node without a bucket prints no entries |
| Printing.IntToString | include/gdwg/graph.hpp:61 | an integer is written as a non-empty line-free string that starts with `-` iff it is negative |
| Printing.IntToStringValue | include/gdwg/graph.hpp:67 | the decimal text of an integer reads back to that integer |

## Left out

- Element types: `N` and `E` are fixed to `int`, compared by their natural
  order. Nodes are values. The `unique_ptr` store `node_u_ptrs_` is not
  modelled: it is the owning storage behind `nodes_rep_` and is never
  observable.
- The same goes for the raw address keys and the search that deletes a node's
  `unique_ptr`.
- The move constructor and move assignment are storage transfer with nothing
  observable beyond "the source becomes empty".
- Copy assignment is not modelled. It inserts into the target without
  clearing it first, so it yields a union rather than a copy.
- Gdwg.Graph.MergeReplaceNode: requires `old != new`. With equal arguments the
  C++ erases the node and its bucket while other buckets' entries still point
  at it.
- Gdwg.Graph.MergeReplaceNode: the C++ creates `new`'s empty bucket
  explicitly before copying `old`'s entries. It also skips entries that are
  already present. Both are folded into `InsertEdge`, which creates a missing
  bucket and ignores a present entry, so the resulting state is the same.
- Gdwg.RetargetBucket: the loop walks a snapshot of the bucket's entries,
  while the C++ walks the live set it is extracting from and re-inserting
  into. Each entry aimed at `old` is still removed and re-inserted aimed at
  `new`, one at a time, and the resulting bucket is the same sorted set.
- Exception texts: a missing node is the `NodeMissing` result, without the
  message.
- Undefined behaviour is excluded by preconditions:
  - dereferencing or incrementing `end()`;
  - `--` on a graph without edges.
- Gdwg.Iterator.Valid: an iterator is usable only while the adjacency index
  equals the one it was made over (the ghost field `made`). After any change
  to the index, only the iterator an erase returns is usable. In the C++ an
  iterator into `edges_rep_` also survives an insertion or an erasure
  elsewhere, because `std::map` and `std::set` are node-based; the model does
  not capture that survival. Conversely, erasing an edge and inserting it
  again restores the same index, so there the model accepts an old iterator
  that the C++ has invalidated.
- Positions are read against the current adjacency index. The
  `edges_map_begin_` and `edges_map_end_` snapshots that an iterator keeps
  are not modelled.
- Gdwg.Iterator.Decrement: at `begin()` the iterator stays where it is, as
  the code does (include/gdwg/graph.hpp:145-151) and as
  test/graph/graph_iterator_tests.cpp:432-435 expects.
- Postfix `++` and `--` are not modelled separately: each copies the iterator
  and then applies the prefix operator.
- `operator<<` returns its text as a string. Stream state and formatting flags
  are not modelled.
- The initializer-list constructor is not modelled separately: it forwards to
  the range constructor `FromNodes`.
