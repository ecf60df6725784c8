# A verified model of gdwg::Graph

`gdwg::Graph<N, E>` is a generic directed weighted graph. Its nodes are
values of N, held in an ordered set of owning `shared_ptr<Node>`. Each Node
keeps an ordered map `edges_out_` from a `weak_ptr` to the destination node
to an ordered set of weights of E. Between any two nodes, in either
direction, there may be several edges, one per distinct weight. The graph
offers:

- node and edge mutators: InsertNode, InsertEdge, DeleteNode, Replace,
  MergeReplace, Clear, erase;
- queries: IsNode, IsConnected, GetNodes, GetConnected, GetWeights, find;
- a bidirectional `const_iterator` over all `(src, dst, weight)` triples,
  in ascending order of source, then destination, then weight;
- `operator==` and `operator!=`, written as a walk with two such iterators.

This project models that core in Dafny and proves what each operation does.

**Values.** N and E are `int`. The test scenarios use strings and doubles,
which become integers: node names keep their order ("A" < "B" < "C" < "D"
becomes 1 < 2 < 3 < 4), doubles are scaled (5.6 becomes 56), and a string
weight becomes the number it spells ("three" becomes 3). That keeps the
order wherever a test depends on it, namely among values held in one
container. It does not keep the order of strings across a whole test: "four"
sorts below "three" as a string but 4 is above 3. Errors that the code
reports by throwing are the `NotFound` case of a `Result`.

**Arena.** The storage is an arena (`Graphs.Graph`):

- `slots: seq<Node>` holds every Node ever allocated;
- `nodes: set<nat>` is the set of slots the graph owns (the `shared_ptr`s in
  `nodes_`);
- a destination in a Node's table is a slot id (the `weak_ptr`). It resolves
  to a node only while its slot is owned; an entry whose slot is no longer
  owned is invisible to every query and to iteration.

So DeleteNode drops only the slot from `nodes`, and Replace changes only the
value held in the slot. MergeReplace rewrites the tables of the owned nodes.
Every ordered read (GetNodes, GetConnected, the iterator's View) sorts by
the values the slots hold at the time of the read. This is the intended
behaviour, not what the C++ containers do after such a change; see
"## Left out" for Graphs.Graph.EntriesOf and Graphs.Graph.Replace.

**Abstract graph.** An arena denotes an abstract graph
`AbstractGraph.AbsGraph(nodes: set<int>, edges: set<Triple>)`. Every mutator
is proved against a function on that abstract graph:
`Abs() == AbstractGraph.X(old(Abs()), …)`. Properties of those functions are
proved as lemmas: renaming, round trip, and what a merge keeps.

**Iteration.** Iteration is modelled as a `View`: the nodes in ascending
order, each with its destination entries in ascending order, each with its
ordered weights. `Iteration.ConstIterator` is a three-level cursor
(node, destination, weight) into a View, like the iterator's
`node_from_itr_`, `node_to_itr_` and `weight_itr_`. Its position `Pos()` is
an index into `Flatten(view)`, the triple sequence. `Graph.Triples()` is that
sequence, and it is proved to be the ascending listing of the graph's edges.
Entries whose destination slot is no longer owned are dropped when the View
is built (Graphs.Graph.EntriesOf); the cursor's own loops only skip entries
and nodes that have no weights.

**Tests.** The scenarios of `graph_test.cpp` are methods and lemmas that
build the test's graphs and prove the outcomes the test expects.

## Model

| member | source | states |
|---|---|---|
| Ordered.Insert | graph.h:57 | inserting into an ordered weight set keeps it strictly increasing and adds exactly x; a weight already present changes nothing |
| Ordered.Remove | graph.h:57 | removing from an ordered weight set keeps it strictly increasing and removes exactly x; an absent weight changes nothing |
| Ordered.Sorted | graph.h:141 | the result is strictly increasing and holds exactly the input's values |
| Ordered.IncreasingUnique | graph.h:141-143 | two strictly increasing sequences with the same elements are equal, so the vectors GetNodes, GetConnected and GetWeights return are determined by their contents |
| Ordered.LexIncreasingUnique | graph.h:60-119 | two lexicographically increasing triple sequences with the same elements are equal |
| Ordered.RemoveAt | graph.h:146 | dropping index p from an increasing triple sequence keeps it increasing and removes exactly that triple |
| Ordered.Listing | graph.h:60-119 | the listing of a set of triples is lexicographically increasing and holds exactly the set's members |
| Ordered.ListingLength | graph.h:60-119 | a listing has one element per member of the set |
| Ordered.Least | graph.h:149-150 | the least triple of a nonempty set is a member and is below every other member |
| Ordered.Reversed | graph.h:154-159 | a reversed triple sequence has the same length, with element m equal to element len-1-m of the input |
| AbstractGraph.Empty | graph.h:121 | the graph with no nodes and no edges is well formed |
| AbstractGraph.InsertNode | graph.h:133 | adding a node keeps the graph well formed |
| AbstractGraph.InsertEdge | graph.h:134 | adding an edge between two present nodes keeps the graph well formed |
| AbstractGraph.EraseEdge | graph.h:144 | removing an edge keeps the graph well formed |
| AbstractGraph.DeleteNode | graph.h:135 | deleting a node leaves a well-formed graph without that node |
| AbstractGraph.Substitute | graph.h:136-137 | after a substitution the new value is a node and the old one, if different, is not; the graph stays well formed |
| AbstractGraph.ReplaceRenames | graph.h:136 | Replace with a fresh value is a renaming: an edge a -> b survives exactly when its renamed image is an edge afterwards |
| AbstractGraph.ReplaceForgetsOld | graph.h:136 | after Replace no edge mentions the old value |
| AbstractGraph.ReplaceRoundTrip | graph.h:136 | replacing old by a fresh value and back again gives the original graph |
| AbstractGraph.MergeEdges | graph.h:137 | after MergeReplace(old, new) an edge a -> b exists exactly when an edge into or out of old, redirected to new, gives it |
| AbstractGraph.MergeSelfLoop | graph.h:137 | the self-loop on new after the merge carries the union of the weights of old->old, old->new, new->old and new->new |
| Graphs.AddEdgeTo | graph.h:46 | Node::AddEdgeTo adds exactly weight w to the entry for y, keeps the table ordered, and reports true exactly when w was new; when not new the node is unchanged |
| Graphs.DeleteEdge | graph.h:48 | Node::DeleteEdge removes exactly weight w from the entry for y and reports true exactly when it was there; when absent the node is unchanged |
| Graphs.Redirect | graph.h:137 | moving a table's entry from the old node's slot to the new one's: the new entry is the union of both, the old entry is gone, and other entries are untouched |
| Graphs.Absorb | graph.h:137 | merging the old node's outgoing table into the new node's: each entry is the union of the two entries |
| Graphs.SlotFrom | graph.h:229 | finds an owned slot holding v if one exists at or after i; returns None exactly when none does |
| Graphs.AbsWellFormed | graph.h:57 | every edge the arena denotes joins two nodes |
| Graphs.NodeIff | graph.h:229 | a value is a node exactly when an owned slot holds it |
| Graphs.EdgeSlots | graph.h:57 | every denoted edge comes from a weight in one owned slot's entry for another owned slot |
| Graphs.EdgeIff | graph.h:57 | the weights from owned slot x to owned slot y are exactly the edges between their values |
| Graphs.InsertNodeAbs | graph.h:133 | appending a fresh slot implements AbstractGraph.InsertNode |
| Graphs.InsertEdgeAbs | graph.h:134 | AddEdgeTo on an owned slot implements AbstractGraph.InsertEdge |
| Graphs.EraseEdgeAbs | graph.h:144 | DeleteEdge on an owned slot implements AbstractGraph.EraseEdge |
| Graphs.DeleteNodeAbs | graph.h:135 | dropping a slot from the owned set, leaving dangling references in place, implements AbstractGraph.DeleteNode |
| Graphs.ReplaceAbs | graph.h:136 | overwriting the value in a slot, with the tables untouched, implements AbstractGraph.Substitute |
| Graphs.SubstituteSelf | graph.h:137 | substituting a node by itself changes nothing |
| Graphs.MergedWeights | graph.h:137 | after the two merge passes, the weights from x to y are the old weights with old redirected to new |
| Graphs.MergeAbs | graph.h:137 | the two merge passes, followed by releasing the old slot, implement AbstractGraph.Substitute |
| Graphs.Graph.constructor | graph.h:121 | Graph() denotes the empty graph |
| Graphs.Graph.CompareByValueOrder | graph.h:25-29 | CompareByValue on weak references is irreflexive, asymmetric and transitive, and on owned slots two distinct references always compare one way: a strict total order by value; an expired reference compares below nothing and above nothing |
| Graphs.Graph.CompareByValue | graph.h:25-29 | the weak-reference comparator: true only when both references resolve and the first node's value is below the second's; its order properties are Graphs.Graph.CompareByValueOrder |
| Graphs.Graph.SlotOf | graph.h:229 | a slot is found exactly when v is a node, and it is an owned slot holding v |
| Graphs.Graph.IsNode | graph.h:139 | true exactly when v is a node |
| Graphs.Graph.GetNodes | graph.h:141 | strictly ascending, holding exactly the nodes |
| Graphs.Graph.IsConnected | graph.h:140 | NotFound exactly when an endpoint is missing; otherwise true exactly when some edge src -> dst exists |
| Graphs.Graph.GetConnected | graph.h:142 | NotFound exactly when src is missing; otherwise strictly ascending, holding exactly the destinations of src's edges |
| Graphs.Graph.GetWeights | graph.h:143 | NotFound exactly when an endpoint is missing; otherwise strictly ascending, holding exactly the weights of src -> dst |
| Graphs.Graph.EntriesOf | graph.h:51 | a node's live destination entries in ascending order; their triples are exactly the node's edges |
| Graphs.Graph.RowsOf | graph.h:60-119 | one row per given node, each that node's entries |
| Graphs.Graph.View | graph.h:60-119 | the iterator's view is ordered at all three levels, and its triples are exactly the edges |
| Graphs.Graph.Triples | graph.h:149-152 | the iteration sequence is lexicographically increasing and holds exactly the edges |
| Graphs.Graph.InsertNode | graph.h:133 | true exactly when v was absent; the new graph is AbstractGraph.InsertNode of the old one |
| Graphs.Graph.InsertEdge | graph.h:134 | NotFound, with nothing changed, exactly when an endpoint is missing; otherwise adds the edge and returns true exactly when it was new |
| Graphs.Graph.DeleteNode | graph.h:135 | true exactly when v was a node; removes it and every edge at it; otherwise changes nothing |
| Graphs.Graph.Replace | graph.h:136 | NotFound exactly when old is absent; true exactly when new is absent, and then the graph is the substitution; otherwise nothing changes |
| Graphs.Graph.MergeReplace | graph.h:137 | NotFound, with nothing changed, exactly when either node is missing; otherwise the graph is the substitution of old by new |
| Graphs.Graph.Clear | graph.h:138 | afterwards there are no nodes and no edges |
| Graphs.Graph.Erase | graph.h:144 | true exactly when the edge was present; the graph loses exactly that edge |
| Graphs.Graph.Begin | graph.h:149-150 | the iterator is at position 0 of the graph's view |
| Graphs.Graph.End | graph.h:151-152 | the iterator is at the end, one past the last triple |
| Graphs.Graph.Find | graph.h:147 | at the triple when it is an edge, at the end otherwise |
| Graphs.Graph.EraseAt | graph.h:146 | removes exactly the triple at the iterator; the iteration sequence loses exactly that index; the result is at the same index, so it denotes the old next triple, or the end when the erased one was last |
| Graphs.RemoveAtIndex | graph.h:146 | an increasing sequence of the edges minus the p-th triple is the old one without index p |
| Graphs.TriplesDetermined | graph.h:161-177 | graphs with the same edges iterate the same triples in the same order |
| Graphs.TriplesListing | graph.h:60-119 | the iteration sequence is the ascending listing of the edges |
| Graphs.TriplesCount | graph.h:60-119 | iteration visits one triple per edge |
| Iteration.RowConcat | graph.h:69-72 | a row's triples split at any entry boundary |
| Iteration.FlattenConcat | graph.h:69-72 | a view's triples split at any row boundary |
| Iteration.DerefPosition | graph.h:68 | a cursor at a triple has a position inside the flattened sequence, and the element there is that triple |
| Iteration.FlattenMember | graph.h:60-119 | every flattened triple is denoted by a cursor |
| Iteration.FlattenMemberIff | graph.h:60-119 | a triple is flattened exactly when some cursor denotes it |
| Iteration.FlattenOrdered | graph.h:60-119 | an ordered view flattens to a lexicographically increasing sequence |
| Iteration.PositionStrict | graph.h:69-72 | a cursor earlier in the nesting order has a smaller position |
| Iteration.PositionInjective | graph.h:78-81 | two cursors with the same position are at the same node and, when not at the end, the same entry and weight |
| Iteration.SameCursorIffSamePosition | graph.h:78-81 | the source's three-level cursor comparison holds exactly when the two positions are equal |
| Iteration.EndPosition | graph.h:78-81 | a cursor is at the end node exactly when its position is the sequence's length |
| Iteration.Locate | graph.h:147 | the cursor denotes the triple when it is present, and is the end exactly when it is not |
| Iteration.ConstIterator.Pos | graph.h:94-105 | an iterator's position is at most the number of triples |
| Iteration.ConstIterator.constructor | graph.h:107-119 | the iterator holds the given view and cursors |
| Iteration.ConstIterator.Deref | graph.h:68 | operator* is the triple at the iterator's position in the flattened sequence |
| Iteration.ConstIterator.Equals | graph.h:74-86 | operator== holds exactly when the two positions are equal, so operator!= holds exactly when they differ |
| Iteration.ConstIterator.SeekForward | graph.h:91 | skipping empty entries and nodes without edges reaches the first triple at or after the cursor |
| Iteration.ConstIterator.Next | graph.h:69-70 | operator++ moves to the next position; after the last triple it reaches the end |
| Iteration.ConstIterator.Prev | graph.h:71-72 | operator-- moves to the previous position, including from the end to the last triple |
| Traversal.Span | graph.h:149-152 | begin() and end() share one view, whose triples are the listing of the edges |
| Traversal.Collect | graph.h:69-70 | stepping with operator++ up to end() collects the rest of the sequence |
| Traversal.Traverse | graph.h:149-152 | begin() to end() visits every edge once, in ascending order |
| Traversal.Forward | graph.h:149-152 | from position 0 to the end, the steps yield the whole flattened sequence |
| Traversal.CollectBackward | graph.h:71-72 | stepping with operator-- down to begin() collects the earlier triples, back to front |
| Traversal.TraverseBackward | graph.h:154-159 | rbegin() to rend() visits every edge once, in descending order |
| Traversal.Backward | graph.h:154-159 | from the end down to position 0, the steps yield the flattened sequence reversed |
| Equality.Walk | graph.h:163-170 | the lock-step loop returns exactly the outcome of Agree: equal length, and no pair rejected by the pair test |
| Equality.Round | graph.h:164-169 | one round rejects exactly when the pair test rejects the two triples; otherwise both iterators move up by one |
| Equality.LockStep | graph.h:161-170 | operator== on two graphs is Agree on their ascending edge listings |
| Equality.EqualAsWritten | graph.h:161-170 | operator== as written: graphs with the same edges are equal, and graphs with different numbers of edges are not |
| Equality.AgreeBySize | graph.h:164-170 | under a pair test that accepts equal triples, equal sets agree and sets of different size do not |
| Equality.AsWrittenAcceptsDifferentWeights | graph.h:166 | the pair test as written accepts the one-edge graphs 1->2 weighing 3 and 1->2 weighing 4; the intended test rejects them |
| Equality.AgreeIffSameEdges | graph.h:161-170 | with the intended pair test, two listings agree exactly when the edge sets are equal |
| Equality.Equal | graph.h:161-170 | corrected operator==: true exactly when the two graphs have the same edges |
| Equality.NotEqual | graph.h:179-181 | operator!=: true exactly when the edges differ |
| Construction.FromNodes | graph.h:122 | Graph(first, last) over values, and Graph(initializer_list), hold exactly the given values as nodes, with no edges |
| Construction.AddEdges | graph.h:134 | inserting edges between present nodes adds exactly those edges |
| Construction.FromEdges | graph.h:123-124 | Graph(first, last) over tuples has exactly the tuples' ends as nodes and the tuples as edges |
| Construction.AddTuple | graph.h:123-124 | one tuple adds both ends as nodes and the tuple as an edge |
| Scenarios.DefaultIsEmpty | graph_test.cpp:24-31 | a default graph has no nodes |
| Scenarios.NodesConstructed | graph_test.cpp:33-45 | the node-range constructor makes every value a node |
| Scenarios.BuildFromTuples | graph_test.cpp:47-53 | the tuple constructor gives nodes 1, 2, 3 and edges 1->2 (54) and 2->3 (76) |
| Scenarios.TupleNodes | graph_test.cpp:55-60 | GetNodes of that graph is [1, 2, 3] |
| Scenarios.TupleEdges | graph_test.cpp:62-67 | both tuples are connected edges with their single weights |
| Scenarios.IsNodeOfList | graph_test.cpp:71-80 | both values of the initializer list are nodes |
| Scenarios.IsNodeOfOne | graph_test.cpp:174-191 | IsNode is true for the graph's node and false for another value |
| Scenarios.GetNodesSorted | graph_test.cpp:193-205 | GetNodes of a graph built from 3, 1, 2 is [1, 2, 3]: ascending whatever the insertion order; the test's own values are already in order |
| Scenarios.InsertNodeTwice | graph_test.cpp:207-229 | the second InsertNode of a value reports false and the graph keeps one node |
| Scenarios.InsertEdgeDirected | graph_test.cpp:231-249 | an edge A->B is not an edge B->A, and inserting it again reports false and keeps the single weight |
| Scenarios.InsertEdgeNewWeight | graph_test.cpp:251-255 | weight 4 inserted on the fresh edge A->B is its only weight |
| Scenarios.BuildThreeFive | graph_test.cpp:262-265 | the graph of nodes 3, 5, 15 with edges 3->5 (9) and 3->15 (-2) |
| Scenarios.ConnectedOfThree | graph_test.cpp:266-272 | GetConnected(3) is [5, 15] |
| Scenarios.ConnectedOfFifteen | graph_test.cpp:274-279 | a node with no outgoing edges has no neighbours |
| Scenarios.WeightsOfThreeFive | graph_test.cpp:288-294 | GetWeights(3, 5) is [9] |
| Scenarios.WeightsAfterSecondEdge | graph_test.cpp:296-303 | a second weight on 3->5 joins the first in ascending order |
| Scenarios.DeleteNodeQueries | graph_test.cpp:307-327 | after DeleteNode(B), B is not a node and queries about it report NotFound |
| Scenarios.ReplaceCarriesEdges | graph_test.cpp:329-338 | Replace(B, D) succeeds and D takes over B's incoming and outgoing edges |
| Scenarios.ReplaceIncoming | graph_test.cpp:340-345 | A->D weighs 2 |
| Scenarios.ReplaceOutgoing | graph_test.cpp:347-352 | D->C weighs 4 |
| Scenarios.BuildMergeGraph | graph_test.cpp:356-366 | the merge test graph: A->B (2), B->C (9), B->A (359), C->A (99) |
| Scenarios.MergeReplaceEdges | graph_test.cpp:368-378 | MergeReplace(A, B) leaves nodes B, C with edges B->B (2, 359), B->C (9), C->B (99) |
| Scenarios.MergeReplaceOutgoing | graph_test.cpp:368-378 | A is gone; B's neighbours are B and C; B->B weighs 2 and 359; B->C weighs 9 |
| Scenarios.MergeReplaceIncoming | graph_test.cpp:380-383 | C->A became C->B with weight 99 |
| Scenarios.MergeReplaceCollapses | graph_test.cpp:385-389 | a weight already on B->B is not duplicated by the merge |
| Scenarios.MergeReplaceCollapsedWeights | graph_test.cpp:390-392 | after that merge B's neighbours are B and C and B->B weighs 2 and 359 |
| Scenarios.ClearEmpties | graph_test.cpp:397-410 | after Clear there are no nodes |
| Scenarios.ClearThenInsertNode | graph_test.cpp:412-419 | a node inserted after Clear is the only node |
| Scenarios.ClearedEdgeWeights | graph_test.cpp:421-430 | an edge inserted after Clear carries only its own weight |
| Scenarios.BuildParallel | graph_test.cpp:434-441 | the find test graph: A->B weighing 2 and 4 |
| Scenarios.FindExisting | graph_test.cpp:442-446 | find of an edge denotes that edge |
| Scenarios.FindMissingWeight | graph_test.cpp:448-457 | find of a missing weight is end() |
| Scenarios.FindMissingEdge | graph_test.cpp:448-457 | find of a missing edge is end() |
| Scenarios.FindMissingNode | graph_test.cpp:448-457 | find with a missing node is end() |
| Scenarios.BuildErase | graph_test.cpp:461-469 | the erase test graph: A->B weighing 2 and 4, B->A weighing 9 |
| Scenarios.EraseOneWeight | graph_test.cpp:471-478 | erase(A, B, 2) reports true and A->B keeps weight 4 |
| Scenarios.EraseGraphTriples | graph_test.cpp:480-484 | that graph iterates A->B 2, A->B 4, B->A 9 |
| Scenarios.SecondOfErase | graph_test.cpp:480-484 | the second triple is A->B weighing 4 |
| Scenarios.EraseAtSecond | graph_test.cpp:486-494 | erase(it) at A->B 4 leaves A->B 2 and B->A 9, and returns an iterator at B->A 9 |
| Scenarios.EraseMiddle | graph_test.cpp:486-494 | erase(it) at the second of three triples removes it and returns an iterator at the old third one, the last |
| Scenarios.EraseAtKeepsOtherWeight | graph_test.cpp:486-494 | after that erase, A->B still weighs 2 |
| Scenarios.EraseAtLast | graph_test.cpp:496-499 | erasing the last triple returns end() |
| IterationScenarios.Advance | graph_test.cpp:599-606 | n steps of operator++ move the position up by n |
| IterationScenarios.SpanOf | graph_test.cpp:538-547 | a graph built from nodes and then edges has begin() and end() over the given sequence |
| IterationScenarios.SpanFirstEmpty | graph_test.cpp:538-547 | the first test graph iterates B->B 5, C->A 3, D->B 2, D->C 4, D->C 9 |
| IterationScenarios.IterateFirstEmpty | graph_test.cpp:538-607 | begin() to end() of that graph visits those triples in that order, skipping A, which has no edges |
| IterationScenarios.StepFirstEmpty | graph_test.cpp:548-577 | *begin() is B->B 5, ++ gives C->A 3, and -- gives B->B 5 back |
| IterationScenarios.ForthAndBack | graph_test.cpp:558-597 | dereference, ++, dereference, --, dereference gives elements 0, 1 and 0 |
| IterationScenarios.PastLastFirstEmpty | graph_test.cpp:599-606 | five ++ from begin() reach end() |
| IterationScenarios.ReverseFirstEmpty | graph_test.cpp:666-735 | rbegin() to rend() visits the same triples back to front |
| IterationScenarios.SpanLastEmpty | graph_test.cpp:611-619 | the second test graph iterates A->C 8, A->C 90, B->B 50, C->A 2 |
| IterationScenarios.IterateLastEmpty | graph_test.cpp:620-634 | the fourth triple is C->A 2 and the next step is end(): D, which has no edges, is skipped |
| IterationScenarios.ReverseLastEmpty | graph_test.cpp:737-761 | backwards, the fourth triple is A->C 8 |
| IterationScenarios.SpanMiddleEmpty | graph_test.cpp:636-646 | the third test graph iterates 1->2 3, 1->4 5, 2->1 3, 2->2 4, 4->2 6, 4->3 7 |
| IterationScenarios.IterateMiddleEmpty | graph_test.cpp:647-664 | the fourth and fifth triples are 2->2 and 4->2: node 3, which has no edges, is skipped |
| IterationScenarios.ReverseMiddleEmpty | graph_test.cpp:763-791 | backwards, node 3 is skipped between 4->2 and 2->2 |
| IterationScenarios.BuildEqualPair | graph_test.cpp:506-513 | g1 and g2 get the same edges, inserted in different orders |
| IterationScenarios.BuildDifferentPair | graph_test.cpp:506-514 | g1 has two edges and g3 has one |
| IterationScenarios.EqualityOfReordered | graph_test.cpp:516-524 | operator== as written holds for g1 and g2, and operator!=, its negation, does not |
| IterationScenarios.EqualityOfDifferent | graph_test.cpp:526-534 | operator== as written fails for g1 and g3, and operator!=, its negation, holds |

## Left out

- operator<< (graph.h:183-226): it only formats text for a stream.
- Copy and move construction and assignment (graph.h:126-131): they copy or move the containers. Sharing of nodes between copies is not modelled.
- The const_reverse_iterator adaptors (graph.h:154-159): std::reverse_iterator is not modelled. Its traversal is Traversal.TraverseBackward, built on operator--.
- The post-increment and post-decrement forms (graph.h:70, 72): they step like the prefix forms and return the old copy, which is not modelled.
- cbegin and cend (graph.h:149-150): they are the same as begin and end.
- CompareByValue on shared_ptrs (graph.h:21-23): it is the order by value, which is how `nodes_` is modelled as a set ordered by value. The weak_ptr form is Graphs.Graph.CompareByValue.
- The exception messages of the throwing operations: every throw is the single error `NotFound`.
- Generic N and E: nodes and weights are integers, so floating-point and string weights are not modelled.
- Graphs.Graph.MergeReplace: with old == new and both present, graph.tpp is not part of this model. The model makes the call a no-op (SubstituteSelf).
- Iterator invalidation: an iterator walks a snapshot View of the graph taken when it was made. Only erase(it), which returns a fresh iterator, is modelled as a mutation during iteration.
- Iteration.ConstIterator.Next and Prev require a dereferenceable or decrementable iterator. Stepping past end() or before begin() is undefined in the code and not modelled.
- Graphs.Graph.EntriesOf: an entry whose destination node was deleted is skipped by every read. In the code such an entry stays in `edges_out_`, and the comparator at graph.h:25-29 treats an expired key as equivalent to every key. A later AddEdgeTo, DeleteEdge or GetWeights on that table can then land on the dead entry, which breaks the ordering rule std::map needs. The model promises the intended behaviour instead: dead entries are invisible.
- Graphs.Graph.Replace: the model changes the value in the slot and sorts by current values on every read. In the code `nodes_` and every referring `edges_out_` are ordered by CompareByValue, and nothing at graph.h:136 re-sorts them when a key's value changes. The model does not capture that stale order; it promises that after Replace everything reads as if the node had always had the new value.
- Equality.NotEqual: it negates the corrected Equality.Equal, not the as-written comparison. The as-written `==` is kept as Equality.EqualAsWritten (see Findings).
- Graph equality compares edges only: isolated nodes do not take part. The documented behaviour says two graphs are equal when nodes and edges are equal, but the code at graph.h:161-177 walks edge iterators only, and the model follows the code.
- The internals of graph.tpp: the bodies of the operations are not part of this model. The model follows the declared behaviour, the iterator fields at graph.h:94-105, and the tests.

## Findings

| source | as written | input that shows it | evidently intended | confidence | as-written member | corrected member |
|---|---|---|---|---|---|---|
| graph.h:166 | a pair of triples is rejected only when source, destination and weight all differ (`&&`), so graphs whose triples share any component compare equal | a graph with the single edge 1->2 weighing 3, against one with the single edge 1->2 weighing 4: operator== returns true | reject the pair when any component differs (`\|\|`), so that equality means the same edges | not executed | Equality.EqualAsWritten, Equality.AsWrittenAcceptsDifferentWeights | Equality.Equal, Equality.AgreeIffSameEdges |
