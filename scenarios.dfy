/** The scenarios of graph_test.cpp, with integer nodes and weights
    (A, B, C, D become 1, 2, 3, 4). Each method replays one scenario and
    states the outcomes the test expects as postconditions. */
module Scenarios {
  import opened Ordered
  import opened Results
  import opened Iteration
  import opened Graphs
  import opened Equality
  import opened Traversal
  import opened Construction
  import AbstractGraph

  /** The weights src -> dst are determined by the abstract graph. */
  lemma PinWeights(g: Graph, a: AbstractGraph.AbsGraph, src: int, dst: int, ws: seq<int>)
    requires g.Valid() && g.Abs() == a && src in a.nodes && dst in a.nodes
    requires Increasing(ws) && forall w :: w in ws <==> (src, dst, w) in a.edges
    ensures g.GetWeights(src, dst) == Ok(ws)
  {
    IncreasingUnique(g.GetWeights(src, dst).value, ws);
  }

  /** The destinations of src are determined by the abstract graph. */
  lemma PinConnected(g: Graph, a: AbstractGraph.AbsGraph, src: int, cs: seq<int>)
    requires g.Valid() && g.Abs() == a && src in a.nodes
    requires Increasing(cs) && forall d :: d in cs <==> exists w :: (src, d, w) in a.edges
    ensures g.GetConnected(src) == Ok(cs)
  {
    IncreasingUnique(g.GetConnected(src).value, cs);
  }

  /** The ascending listing of a set of edges, given explicitly. */
  lemma PinListing(e: set<Triple>, s: seq<Triple>)
    requires LexIncreasing(s) && forall t :: t in s <==> t in e
    ensures Listing(e) == s
  {
    LexIncreasingUnique(Listing(e), s);
  }

  /** graph_test.cpp:24-31: a default-constructed graph has no nodes. */
  method DefaultIsEmpty() returns (ns: seq<int>)
    ensures ns == []
  {
    var g := new Graph();
    ns := g.GetNodes();
    IncreasingUnique(ns, []);
  }

  /** graph_test.cpp:33-45: the node-range constructor makes every value
      a node. */
  method NodesConstructed() returns (a: bool, b: bool, c: bool)
    ensures a && b && c
  {
    var g := FromNodes([1, 2, 3]);
    assert 1 in [1, 2, 3] && 2 in [1, 2, 3] && 3 in [1, 2, 3];
    a := g.IsNode(1);
    b := g.IsNode(2);
    c := g.IsNode(3);
  }

  /** The graph of graph_test.cpp:47-53, built with the edge-tuple
      constructor: s1, s2, s3 become 1, 2, 3 and the weights 5.4 and 7.6
      become 54 and 76. */
  method BuildFromTuples() returns (g: Graph)
    ensures fresh(g) && g.Valid()
    ensures g.Abs() == AbstractGraph.AbsGraph({1, 2, 3}, {(1, 2, 54), (2, 3, 76)})
  {
    g := FromEdges([(1, 2, 54), (2, 3, 76)]);
    TupleEnds();
    TupleElements();
  }

  lemma TupleEnds()
    ensures Endpoints([(1, 2, 54), (2, 3, 76)]) == {1, 2, 3}
  {
    assert (1, 2, 54) in [(1, 2, 54), (2, 3, 76)] && (2, 3, 76) in [(1, 2, 54), (2, 3, 76)];
  }

  lemma TupleElements()
    ensures Elements([(1, 2, 54), (2, 3, 76)]) == {(1, 2, 54), (2, 3, 76)}
  {
    assert (1, 2, 54) in [(1, 2, 54), (2, 3, 76)] && (2, 3, 76) in [(1, 2, 54), (2, 3, 76)];
  }

  /** graph_test.cpp:55-60: every end of a tuple is a node, once. */
  method TupleNodes() returns (ns: seq<int>)
    ensures ns == [1, 2, 3]
  {
    var g := BuildFromTuples();
    ns := g.GetNodes();
    IncreasingUnique(ns, [1, 2, 3]);
  }

  /** graph_test.cpp:62-67: every tuple is an edge with its weight. */
  method TupleEdges() returns (c12: Result<bool>, w12: Result<seq<int>>, c23: Result<bool>, w23: Result<seq<int>>)
    ensures c12 == Ok(true) && w12 == Ok([54]) && c23 == Ok(true) && w23 == Ok([76])
  {
    var g := BuildFromTuples();
    assert (1, 2, 54) in g.Abs().edges && (2, 3, 76) in g.Abs().edges;
    c12 := g.IsConnected(1, 2);
    c23 := g.IsConnected(2, 3);
    TupleWeights(g);
    w12 := g.GetWeights(1, 2);
    w23 := g.GetWeights(2, 3);
  }

  lemma TupleWeights(g: Graph)
    requires g.Valid() && g.Abs() == AbstractGraph.AbsGraph({1, 2, 3}, {(1, 2, 54), (2, 3, 76)})
    ensures g.GetWeights(1, 2) == Ok([54]) && g.GetWeights(2, 3) == Ok([76])
  {
    PinWeights(g, g.Abs(), 1, 2, [54]);
    PinWeights(g, g.Abs(), 2, 3, [76]);
  }

  /** graph_test.cpp:71-80: a graph built from an initializer list holds
      every listed value. */
  method IsNodeOfList() returns (a: bool, b: bool)
    ensures a && b
  {
    var g := FromNodes([1, 2]);
    assert 1 in [1, 2] && 2 in [1, 2];
    a := g.IsNode(1);
    b := g.IsNode(2);
  }

  /** graph_test.cpp:174-191: IsNode is true for the graph's node and false
      for another value. */
  method IsNodeOfOne() returns (a: bool, b: bool)
    ensures a && !b
  {
    var g := FromNodes([1]);
    assert 1 in [1] && 2 !in [1];
    a := g.IsNode(1);
    b := g.IsNode(2);
  }

  /** graph_test.cpp:193-205: GetNodes is ascending whatever the insertion order. */
  method GetNodesSorted() returns (ns: seq<int>)
    ensures ns == [1, 2, 3]
  {
    var g := FromNodes([3, 1, 2]);
    ns := g.GetNodes();
    IncreasingUnique(ns, [1, 2, 3]);
  }

  /** graph_test.cpp:207-229: a duplicate InsertNode reports false and
      changes nothing. */
  method InsertNodeTwice() returns (first: bool, second: bool, ns: seq<int>)
    ensures first && !second && ns == [1]
  {
    var g := new Graph();
    first := g.InsertNode(1);
    second := g.InsertNode(1);
    ns := g.GetNodes();
    IncreasingUnique(ns, [1]);
  }

  /** graph_test.cpp:231-249: edges are directed, and inserting the same
      weight twice keeps one copy. */
  method InsertEdgeDirected() returns (ab: Result<bool>, wab: Result<seq<int>>, wba: Result<seq<int>>, again: Result<bool>)
    ensures ab == Ok(true) && wab == Ok([2]) && wba == Ok([])
    ensures again == Ok(false)
  {
    var g := new Graph();
    var b := g.InsertNode(1);
    b := g.InsertNode(2);
    var r := g.InsertEdge(1, 2, 2);
    ab := g.IsConnected(1, 2);
    again := g.InsertEdge(1, 2, 2);
    wab := g.GetWeights(1, 2);
    wba := g.GetWeights(2, 1);
    IncreasingUnique(wab.value, [2]);
    IncreasingUnique(wba.value, []);
  }

  /** graph_test.cpp:251-255: a weight inserted on a fresh edge A -> B is its
      only weight. */
  method InsertEdgeNewWeight() returns (w: Result<seq<int>>)
    ensures w == Ok([4])
  {
    var g := FromNodes([1, 2]);
    assert 1 in [1, 2] && 2 in [1, 2];
    var r := g.InsertEdge(1, 2, 4);
    w := g.GetWeights(1, 2);
    IncreasingUnique(w.value, [4]);
  }

  /** The graph of graph_test.cpp:262-305: nodes 3, 5 and 15, edges
      3 -> 5 weighing 9 and 3 -> 15 weighing -2. */
  method BuildThreeFive() returns (g: Graph)
    ensures fresh(g) && g.Valid()
    ensures g.Abs() == AbstractGraph.AbsGraph({3, 5, 15}, {(3, 5, 9), (3, 15, -2)})
  {
    g := new Graph();
    var b := g.InsertNode(3);
    b := g.InsertNode(5);
    b := g.InsertNode(15);
    var r := g.InsertEdge(3, 5, 9);
    r := g.InsertEdge(3, 15, -2);
  }

  /** graph_test.cpp:266-272: the neighbours of 3 in ascending order. */
  method ConnectedOfThree() returns (c: Result<seq<int>>)
    ensures c == Ok([5, 15])
  {
    var g := BuildThreeFive();
    PinConnected(g, g.Abs(), 3, [5, 15]);
    c := g.GetConnected(3);
  }

  /** graph_test.cpp:274-279: a node with no outgoing edges has no
      neighbours, and that is not an error. */
  method ConnectedOfFifteen() returns (c: Result<seq<int>>)
    ensures c == Ok([])
  {
    var g := BuildThreeFive();
    PinConnected(g, g.Abs(), 15, []);
    c := g.GetConnected(15);
  }

  /** graph_test.cpp:288-294: the single weight of 3 -> 5. */
  method WeightsOfThreeFive() returns (w: Result<seq<int>>)
    ensures w == Ok([9])
  {
    var g := BuildThreeFive();
    PinWeights(g, g.Abs(), 3, 5, [9]);
    w := g.GetWeights(3, 5);
  }

  /** graph_test.cpp:296-303: a second weight on 3 -> 5. */
  method BuildThreeFiveTwice() returns (g: Graph)
    ensures fresh(g) && g.Valid()
    ensures g.Abs() == AbstractGraph.AbsGraph({3, 5, 15}, {(3, 5, 9), (3, 15, -2), (3, 5, 999)})
  {
    g := BuildThreeFive();
    var r := g.InsertEdge(3, 5, 999);
  }

  /** graph_test.cpp:296-303: the second weight joins the first, in
      ascending order. */
  method WeightsAfterSecondEdge() returns (w: Result<seq<int>>)
    ensures w == Ok([9, 999])
  {
    var g := BuildThreeFiveTwice();
    TwoWeights(g);
    w := g.GetWeights(3, 5);
  }

  lemma TwoWeights(g: Graph)
    requires g.Valid() && g.Abs() == AbstractGraph.AbsGraph({3, 5, 15}, {(3, 5, 9), (3, 15, -2), (3, 5, 999)})
    ensures g.GetWeights(3, 5) == Ok([9, 999])
  {
    assert forall w :: w in [9, 999] <==> (3, 5, w) in g.Abs().edges;
    PinWeights(g, g.Abs(), 3, 5, [9, 999]);
  }

  /** graph_test.cpp:307-327: after DeleteNode(B), B is gone and queries
      naming it fail. */
  method DeleteNodeQueries() returns (present: bool, w: Result<seq<int>>, c: Result<bool>)
    ensures !present && w == NotFound && c == NotFound
  {
    var g := BuildChain();
    var b := g.DeleteNode(2);
    present := g.IsNode(2);
    w := g.GetWeights(2, 3);
    c := g.IsConnected(2, 3);
  }

  /** The graph of graph_test.cpp:307-354: A -> B weighing 2, B -> C
      weighing 4. */
  method BuildChain() returns (g: Graph)
    ensures fresh(g) && g.Valid()
    ensures g.Abs() == AbstractGraph.AbsGraph({1, 2, 3}, {(1, 2, 2), (2, 3, 4)})
  {
    g := new Graph();
    var b := g.InsertNode(1);
    b := g.InsertNode(2);
    b := g.InsertNode(3);
    var r := g.InsertEdge(1, 2, 2);
    r := g.InsertEdge(2, 3, 4);
  }

  /** graph_test.cpp:329-354: Replace(B, D) renames B to D and carries its
      incoming and outgoing edges over: A -> D weighing 2, D -> C weighing 4. */
  method ReplaceCarriesEdges() returns (g: Graph, r: Result<bool>)
    ensures fresh(g) && g.Valid() && r == Ok(true)
    ensures g.Abs() == AbstractGraph.AbsGraph({1, 3, 4}, {(1, 4, 2), (4, 3, 4)})
  {
    g := BuildChain();
    ghost var before := g.Abs();
    r := g.Replace(2, 4);
    ReplaceImage(before);
  }

  lemma ReplaceImage(before: AbstractGraph.AbsGraph)
    requires before == AbstractGraph.AbsGraph({1, 2, 3}, {(1, 2, 2), (2, 3, 4)})
    ensures AbstractGraph.Substitute(before, 2, 4) == AbstractGraph.AbsGraph({1, 3, 4}, {(1, 4, 2), (4, 3, 4)})
  {
    var r := AbstractGraph.Substitute(before, 2, 4);
    assert (AbstractGraph.Rename(1, 2, 4), AbstractGraph.Rename(2, 2, 4), 2) in r.edges;
    assert (AbstractGraph.Rename(2, 2, 4), AbstractGraph.Rename(3, 2, 4), 4) in r.edges;
  }

  /** graph_test.cpp:340-345: D has B's incoming edge. */
  method ReplaceIncoming() returns (w: Result<seq<int>>)
    ensures w == Ok([2])
  {
    var g, r := ReplaceCarriesEdges();
    PinWeights(g, g.Abs(), 1, 4, [2]);
    w := g.GetWeights(1, 4);
  }

  /** graph_test.cpp:347-352: D has B's outgoing edge. */
  method ReplaceOutgoing() returns (w: Result<seq<int>>)
    ensures w == Ok([4])
  {
    var g, r := ReplaceCarriesEdges();
    PinWeights(g, g.Abs(), 4, 3, [4]);
    w := g.GetWeights(4, 3);
  }

  /** The graph of graph_test.cpp:356-366: A -> B weighing 2, B -> C
      weighing 9, B -> A weighing 359, C -> A weighing 99. */
  method BuildMergeGraph() returns (g: Graph)
    ensures fresh(g) && g.Valid()
    ensures g.Abs() == AbstractGraph.AbsGraph({1, 2, 3}, {(1, 2, 2), (2, 3, 9), (2, 1, 359), (3, 1, 99)})
  {
    g := NodesOneTwoThree();
    AddEdges(g, [(1, 2, 2), (2, 3, 9), (2, 1, 359), (3, 1, 99)]);
    MergeGraphEdges();
  }

  lemma MergeGraphEdges()
    ensures {} + Elements([(1, 2, 2), (2, 3, 9), (2, 1, 359), (3, 1, 99)]) == {(1, 2, 2), (2, 3, 9), (2, 1, 359), (3, 1, 99)}
  {
    assert forall t :: t in [(1, 2, 2), (2, 3, 9), (2, 1, 359), (3, 1, 99)] <==>
                       t in {(1, 2, 2), (2, 3, 9), (2, 1, 359), (3, 1, 99)};
  }

  /** A graph with the nodes 1, 2 and 3 and no edges. */
  method NodesOneTwoThree() returns (g: Graph)
    ensures fresh(g) && g.Valid()
    ensures g.Abs() == AbstractGraph.AbsGraph({1, 2, 3}, {})
  {
    g := new Graph();
    var b := g.InsertNode(1);
    b := g.InsertNode(2);
    b := g.InsertNode(3);
  }

  /** graph_test.cpp:368-383: MergeReplace(A, B) removes A; A -> B and
      B -> A become the self-loop B -> B with both weights, and C -> A
      becomes C -> B. */
  method MergeReplaceEdges() returns (g: Graph, r: Result<()>)
    ensures fresh(g) && g.Valid() && r.Ok?
    ensures g.Abs() == AbstractGraph.AbsGraph({2, 3}, {(2, 2, 2), (2, 2, 359), (2, 3, 9), (3, 2, 99)})
  {
    g := BuildMergeGraph();
    ghost var before := g.Abs();
    r := g.MergeReplace(1, 2);
    MergeImage(before);
    assert g.Abs() == AbstractGraph.Substitute(before, 1, 2);
  }

  /** The graph after MergeReplace(A, B) in graph_test.cpp:368-393. */
  const Merged := AbstractGraph.AbsGraph({2, 3}, {(2, 2, 2), (2, 2, 359), (2, 3, 9), (3, 2, 99)})

  lemma MergeImage(before: AbstractGraph.AbsGraph)
    requires before == AbstractGraph.AbsGraph({1, 2, 3}, {(1, 2, 2), (2, 3, 9), (2, 1, 359), (3, 1, 99)})
    ensures AbstractGraph.Substitute(before, 1, 2) == Merged
  {
    var r := AbstractGraph.Substitute(before, 1, 2);
    assert (AbstractGraph.Rename(1, 1, 2), AbstractGraph.Rename(2, 1, 2), 2) in r.edges;
    assert (AbstractGraph.Rename(2, 1, 2), AbstractGraph.Rename(1, 1, 2), 359) in r.edges;
    assert (AbstractGraph.Rename(2, 1, 2), AbstractGraph.Rename(3, 1, 2), 9) in r.edges;
    assert (AbstractGraph.Rename(3, 1, 2), AbstractGraph.Rename(1, 1, 2), 99) in r.edges;
  }

  /** The same image when B -> B weighing 2 is already present. */
  lemma CollapseImage(before: AbstractGraph.AbsGraph)
    requires before == AbstractGraph.AbsGraph({1, 2, 3}, {(1, 2, 2), (2, 3, 9), (2, 1, 359), (3, 1, 99), (2, 2, 2)})
    ensures AbstractGraph.Substitute(before, 1, 2) == Merged
  {
    var r := AbstractGraph.Substitute(before, 1, 2);
    assert (AbstractGraph.Rename(1, 1, 2), AbstractGraph.Rename(2, 1, 2), 2) in r.edges;
    assert (AbstractGraph.Rename(2, 1, 2), AbstractGraph.Rename(1, 1, 2), 359) in r.edges;
    assert (AbstractGraph.Rename(2, 1, 2), AbstractGraph.Rename(3, 1, 2), 9) in r.edges;
    assert (AbstractGraph.Rename(3, 1, 2), AbstractGraph.Rename(1, 1, 2), 99) in r.edges;
  }

  lemma MergedNeighbours(g: Graph)
    requires g.Valid() && g.Abs() == Merged
    ensures g.GetConnected(2) == Ok([2, 3])
  {
    assert forall d :: d in [2, 3] <==> exists w :: (2, d, w) in g.Abs().edges by {
      assert (2, 2, 2) in g.Abs().edges && (2, 3, 9) in g.Abs().edges;
    }
    PinConnected(g, g.Abs(), 2, [2, 3]);
  }

  lemma MergedSelfLoop(g: Graph)
    requires g.Valid() && g.Abs() == Merged
    ensures g.GetWeights(2, 2) == Ok([2, 359])
  {
    assert forall w :: w in [2, 359] <==> (2, 2, w) in g.Abs().edges;
    PinWeights(g, g.Abs(), 2, 2, [2, 359]);
  }

  lemma MergedOutgoing(g: Graph)
    requires g.Valid() && g.Abs() == Merged
    ensures g.GetWeights(2, 3) == Ok([9])
  {
    assert forall w :: w in [9] <==> (2, 3, w) in g.Abs().edges;
    PinWeights(g, g.Abs(), 2, 3, [9]);
  }

  lemma MergedIncoming(g: Graph)
    requires g.Valid() && g.Abs() == Merged
    ensures g.GetWeights(3, 2) == Ok([99])
  {
    assert forall w :: w in [99] <==> (3, 2, w) in g.Abs().edges;
    PinWeights(g, g.Abs(), 3, 2, [99]);
  }

  /** graph_test.cpp:368-378: A is gone; B's neighbours are B itself and C;
      the self-loop on B carries 2 (from A -> B) and 359 (from B -> A); B -> C
      keeps 9. */
  method MergeReplaceOutgoing() returns (present: bool, c: Result<seq<int>>, bb: Result<seq<int>>, bc: Result<seq<int>>)
    ensures !present && c == Ok([2, 3]) && bb == Ok([2, 359]) && bc == Ok([9])
  {
    var g, r := MergeReplaceEdges();
    present := g.IsNode(1);
    MergedNeighbours(g);
    c := g.GetConnected(2);
    MergedSelfLoop(g);
    bb := g.GetWeights(2, 2);
    MergedOutgoing(g);
    bc := g.GetWeights(2, 3);
  }

  /** graph_test.cpp:380-383: C -> A became C -> B. */
  method MergeReplaceIncoming() returns (bb: Result<seq<int>>, cb: Result<seq<int>>)
    ensures bb == Ok([2, 359]) && cb == Ok([99])
  {
    var g, r := MergeReplaceEdges();
    MergedSelfLoop(g);
    bb := g.GetWeights(2, 2);
    MergedIncoming(g);
    cb := g.GetWeights(3, 2);
  }

  /** graph_test.cpp:385-386: the graph of graph_test.cpp:356-366 with
      B -> B weighing 2 added. */
  method BuildCollapseGraph() returns (g: Graph)
    ensures fresh(g) && g.Valid()
    ensures g.Abs() == AbstractGraph.AbsGraph({1, 2, 3}, {(1, 2, 2), (2, 3, 9), (2, 1, 359), (3, 1, 99), (2, 2, 2)})
  {
    g := BuildMergeGraph();
    var e := g.InsertEdge(2, 2, 2);
  }

  /** graph_test.cpp:385-393: a weight already on B -> B is not duplicated
      when A -> B merges into it. */
  method MergeReplaceCollapses() returns (g: Graph)
    ensures fresh(g) && g.Valid()
    ensures g.Abs() == Merged
  {
    g := BuildCollapseGraph();
    ghost var before := g.Abs();
    var r := g.MergeReplace(1, 2);
    CollapseImage(before);
  }

  /** graph_test.cpp:390-392: B's neighbours are still B and C, and the
      self-loop carries 2 once. */
  method MergeReplaceCollapsedWeights() returns (c: Result<seq<int>>, w: Result<seq<int>>)
    ensures c == Ok([2, 3]) && w == Ok([2, 359])
  {
    var g := MergeReplaceCollapses();
    MergedNeighbours(g);
    c := g.GetConnected(2);
    MergedSelfLoop(g);
    w := g.GetWeights(2, 2);
  }

  /** graph_test.cpp:397-410: after Clear there are no nodes. */
  method ClearEmpties() returns (ns: seq<int>)
    ensures ns == []
  {
    var g := BuildChain();
    g.Clear();
    ns := g.GetNodes();
    IncreasingUnique(ns, []);
  }

  /** graph_test.cpp:412-419: a node inserted after Clear is the only one. */
  method ClearThenInsertNode() returns (ns: seq<int>)
    ensures ns == [1]
  {
    var g := BuildChain();
    g.Clear();
    var b := g.InsertNode(1);
    ns := g.GetNodes();
    IncreasingUnique(ns, [1]);
  }

  /** graph_test.cpp:421-430: an edge inserted after Clear carries no weight
      from before. */
  method ClearThenInsertEdge() returns (g: Graph)
    ensures fresh(g) && g.Valid()
    ensures g.Abs() == AbstractGraph.AbsGraph({2, 3}, {(2, 3, 6)})
  {
    g := BuildChain();
    g.Clear();
    AddTuple(g, (2, 3, 6));
  }

  method ClearedEdgeWeights() returns (w: Result<seq<int>>)
    ensures w == Ok([6])
  {
    var g := ClearThenInsertEdge();
    ClearedWeights(g);
    w := g.GetWeights(2, 3);
  }

  lemma ClearedWeights(g: Graph)
    requires g.Valid() && g.Abs() == AbstractGraph.AbsGraph({2, 3}, {(2, 3, 6)})
    ensures g.GetWeights(2, 3) == Ok([6])
  {
    assert forall w :: w in [6] <==> (2, 3, w) in g.Abs().edges;
    PinWeights(g, g.Abs(), 2, 3, [6]);
  }

  /** The graph of graph_test.cpp:434-441: A -> B weighing 2 and 4. */
  method BuildParallel() returns (g: Graph)
    ensures fresh(g) && g.Valid()
    ensures g.Abs() == AbstractGraph.AbsGraph({1, 2}, {(1, 2, 2), (1, 2, 4)})
  {
    g := new Graph();
    var b := g.InsertNode(1);
    b := g.InsertNode(2);
    var r := g.InsertEdge(1, 2, 2);
    r := g.InsertEdge(1, 2, 4);
  }

  /** graph_test.cpp:442-446: find of an edge denotes that edge. */
  method FindExisting() returns (t: Triple)
    ensures t == (1, 2, 4)
  {
    var g := BuildParallel();
    var it := g.Find(1, 2, 4);
    t := it.Deref();
  }

  /** graph_test.cpp:448-457: find of a missing weight, a missing edge, or
      a missing node gives end(). */
  method FindMissingWeight() returns (atEnd: bool)
    ensures atEnd
  {
    var g := BuildParallel();
    assert (1, 2, 8) !in g.Abs().edges;
    var it := g.Find(1, 2, 8);
    assert it.AtEnd();
    EndPosition(it.view, it.node, it.dest, it.weight);
    var end := g.End();
    EndPosition(end.view, end.node, end.dest, end.weight);
    atEnd := it.Equals(end);
  }

  method FindMissingEdge() returns (atEnd: bool)
    ensures atEnd
  {
    var g := BuildParallel();
    assert (2, 1, 5) !in g.Abs().edges;
    var it := g.Find(2, 1, 5);
    assert it.AtEnd();
    atEnd := it.AtEnd();
  }

  method FindMissingNode() returns (atEnd: bool)
    ensures atEnd
  {
    var g := BuildParallel();
    assert (3, 2, 1) !in g.Abs().edges;
    var it := g.Find(3, 2, 1);
    assert it.AtEnd();
    atEnd := it.AtEnd();
  }

  /** The graph of graph_test.cpp:461-469: A -> B weighing 2 and 4, B -> A
      weighing 9. */
  method BuildErase() returns (g: Graph)
    ensures fresh(g) && g.Valid()
    ensures g.Abs() == AbstractGraph.AbsGraph({1, 2}, {(1, 2, 2), (2, 1, 9), (1, 2, 4)})
  {
    g := new Graph();
    var b := g.InsertNode(1);
    b := g.InsertNode(2);
    var r := g.InsertEdge(1, 2, 2);
    r := g.InsertEdge(2, 1, 9);
    r := g.InsertEdge(1, 2, 4);
  }

  /** graph_test.cpp:471-478: erasing one weight of A -> B keeps the other. */
  method EraseOneWeight() returns (b: bool, w: Result<seq<int>>)
    ensures b && w == Ok([4])
  {
    var g := BuildErase();
    ghost var before := g.Abs();
    b := g.Erase(1, 2, 2);
    ErasedWeights(before, g);
    w := g.GetWeights(1, 2);
  }

  lemma ErasedWeights(before: AbstractGraph.AbsGraph, g: Graph)
    requires before == AbstractGraph.AbsGraph({1, 2}, {(1, 2, 2), (2, 1, 9), (1, 2, 4)})
    requires g.Valid() && g.Abs() == AbstractGraph.EraseEdge(before, (1, 2, 2))
    ensures g.GetWeights(1, 2) == Ok([4])
  {
    assert forall w :: w in [4] <==> (1, 2, w) in g.Abs().edges;
    PinWeights(g, g.Abs(), 1, 2, [4]);
  }

  /** The triples of the graph of graph_test.cpp:461-469, in iteration order. */
  lemma EraseGraphTriples(g: Graph)
    requires g.Valid() && g.Abs() == AbstractGraph.AbsGraph({1, 2}, {(1, 2, 2), (2, 1, 9), (1, 2, 4)})
    ensures g.Triples() == [(1, 2, 2), (1, 2, 4), (2, 1, 9)]
  {
    TriplesListing(g);
    ListingOfErase();
  }

  lemma ListingOfErase()
    ensures Listing({(1, 2, 2), (2, 1, 9), (1, 2, 4)}) == [(1, 2, 2), (1, 2, 4), (2, 1, 9)]
  {
    var s := [(1, 2, 2), (1, 2, 4), (2, 1, 9)];
    assert LexIncreasing(s);
    assert forall t :: t in s <==> t in {(1, 2, 2), (2, 1, 9), (1, 2, 4)};
    PinListing({(1, 2, 2), (2, 1, 9), (1, 2, 4)}, s);
  }

  /** graph_test.cpp:480-484: the second triple is A -> B weighing 4. */
  method SecondOfErase() returns (g: Graph, it: ConstIterator)
    ensures fresh(g) && g.Valid() && g.Abs() == AbstractGraph.AbsGraph({1, 2}, {(1, 2, 2), (2, 1, 9), (1, 2, 4)})
    ensures fresh(it) && it.Valid() && it.view == g.View() && it.Pos() == 1 && !it.AtEnd()
    ensures g.Triples() == [(1, 2, 2), (1, 2, 4), (2, 1, 9)]
    ensures it.Deref() == (1, 2, 4)
  {
    g := BuildErase();
    EraseGraphTriples(g);
    it := SecondIterator(g);
  }

  /** begin() followed by one ++ on a graph with three triples. */
  method SecondIterator(g: Graph) returns (it: ConstIterator)
    requires g.Valid() && |g.Triples()| == 3
    ensures fresh(it) && it.Valid() && it.view == g.View() && it.Pos() == 1 && !it.AtEnd()
    ensures it.Deref() == g.Triples()[1]
  {
    ghost var ts := g.Triples();
    assert ts == Flatten(g.View());
    it := g.Begin();
    ghost var v := it.view;
    StepToSecond(it);
    assert it.view == v;
    assert g.Triples() == ts;
  }

  /** One ++ from the first of three triples. */
  method StepToSecond(it: ConstIterator)
    requires it.Valid() && it.Pos() == 0 && |Flatten(it.view)| == 3
    modifies it
    ensures it.Valid() && it.Pos() == 1 && !it.AtEnd() && it.Deref() == Flatten(it.view)[1]
  {
    EndPosition(it.view, it.node, it.dest, it.weight);
    it.Next();
    EndPosition(it.view, it.node, it.dest, it.weight);
  }

  /** graph_test.cpp:486-494: erase(it) removes A -> B weighing 4 only and
      returns an iterator at the next triple, B -> A weighing 9. */
  method EraseAtSecond() returns (g: Graph, next: ConstIterator)
    ensures fresh(g) && g.Valid() && g.Abs() == AbstractGraph.AbsGraph({1, 2}, {(1, 2, 2), (2, 1, 9)})
    ensures fresh(next) && next.Valid() && next.view == g.View() && !next.AtEnd()
    ensures next.Deref() == (2, 1, 9)
    ensures next.Pos() + 1 == |g.Triples()|
  {
    var it;
    g, it := SecondOfErase();
    next := EraseMiddle(g, it);
    EraseOfErase();
  }

  lemma EraseOfErase()
    ensures AbstractGraph.EraseEdge(AbstractGraph.AbsGraph({1, 2}, {(1, 2, 2), (2, 1, 9), (1, 2, 4)}), (1, 2, 4))
         == AbstractGraph.AbsGraph({1, 2}, {(1, 2, 2), (2, 1, 9)})
  {
    assert {(1, 2, 2), (2, 1, 9), (1, 2, 4)} - {(1, 2, 4)} == {(1, 2, 2), (2, 1, 9)};
  }

  /** erase(it) at the middle of three triples. */
  method EraseMiddle(g: Graph, it: ConstIterator) returns (next: ConstIterator)
    requires g.Valid() && it.Valid() && it.view == g.View() && it.Pos() == 1 && |g.Triples()| == 3
    modifies g
    ensures g.Valid() && g.Abs() == AbstractGraph.EraseEdge(old(g.Abs()), old(g.Triples()[1]))
    ensures fresh(next) && next.Valid() && next.view == g.View() && !next.AtEnd()
    ensures next.Deref() == old(g.Triples()[2]) && next.Pos() + 1 == |g.Triples()|
  {
    EndPosition(it.view, it.node, it.dest, it.weight);
    next := g.EraseAt(it);
  }

  /** graph_test.cpp:486-494: the other weight of A -> B survives erase(it). */
  method EraseAtKeepsOtherWeight() returns (w: Result<seq<int>>)
    ensures w == Ok([2])
  {
    var g, next := EraseAtSecond();
    WeightsAfterEraseAt(g);
    w := g.GetWeights(1, 2);
  }

  lemma WeightsAfterEraseAt(g: Graph)
    requires g.Valid() && g.Abs() == AbstractGraph.AbsGraph({1, 2}, {(1, 2, 2), (2, 1, 9)})
    ensures g.GetWeights(1, 2) == Ok([2])
  {
    assert forall w :: w in [2] <==> (1, 2, w) in g.Abs().edges;
    PinWeights(g, g.Abs(), 1, 2, [2]);
  }

  /** graph_test.cpp:496-499: erasing the last triple returns end(). */
  method EraseAtLast() returns (atEnd: bool)
    ensures atEnd
  {
    var g, next := EraseAtSecond();
    var last := g.EraseAt(next);
    var end := g.End();
    atEnd := last.Equals(end);
  }
}
