/** The iteration and equality scenarios of graph_test.cpp:505-791, with
    integer nodes and weights: A, B, C, D become 1, 2, 3, 4; the node values
    5.6, 2.1, 3.3, 9.9, 2.2, 1.1 become 56, 21, 33, 99, 22, 11; each string
    weight becomes the number it spells, which keeps the order wherever the
    order matters. */
module IterationScenarios {
  import opened Ordered
  import opened Iteration
  import opened Graphs
  import opened Equality
  import opened Traversal
  import opened Construction

  /** The ascending listing of a set of edges, given explicitly. */
  lemma ListingIs(es: seq<Triple>, s: seq<Triple>)
    requires LexIncreasing(s) && forall t :: t in s <==> t in es
    ensures Listing(Elements(es)) == s
  {
    LexIncreasingUnique(Listing(Elements(es)), s);
  }

  /** A sequence back to front, given explicitly. */
  lemma ReversedIs(s: seq<Triple>, r: seq<Triple>)
    requires |r| == |s| && forall m :: 0 <= m < |s| ==> r[m] == s[|s| - 1 - m]
    ensures Reversed(s) == r
  {
  }

  /** n steps of operator++. */
  method Advance(it: ConstIterator, n: nat)
    requires it.Valid() && it.Pos() + n <= |Flatten(it.view)|
    modifies it
    ensures it.Valid() && it.Pos() == old(it.Pos()) + n
  {
    var k := 0;
    while k < n
      invariant 0 <= k <= n
      invariant it.Valid() && it.Pos() == old(it.Pos()) + k
    {
      EndPosition(it.view, it.node, it.dest, it.weight);
      it.Next();
      k := k + 1;
    }
  }

  /** begin() and end() of the graph with the nodes `ns` and then the
      edges `es` inserted, whose ascending listing is `s`. */
  method SpanOf(ns: seq<int>, es: seq<Triple>, s: seq<Triple>) returns (it: ConstIterator, last: ConstIterator)
    requires forall t :: t in es ==> t.0 in ns && t.1 in ns
    requires Listing(Elements(es)) == s
    ensures fresh(it) && fresh(last) && it != last
    ensures it.Valid() && it.Pos() == 0 && last.Valid() && last.view == it.view && last.AtEnd()
    ensures Flatten(it.view) == s
  {
    var g := BuildOf(ns, es);
    it, last := Span(g);
  }

  /** The graph with the nodes `ns` and then the edges `es` inserted: its
      edges are exactly the elements of `es`. */
  method BuildOf(ns: seq<int>, es: seq<Triple>) returns (g: Graph)
    requires forall t :: t in es ==> t.0 in ns && t.1 in ns
    ensures fresh(g) && g.Valid() && g.Abs().edges == Elements(es)
  {
    g := FromNodes(ns);
    assert forall t :: t in es ==> t.0 in Elements(ns) && t.1 in Elements(ns);
    AddEdges(g, es);
    assert g.Abs().edges == Elements(es);
  }

  // --- graph_test.cpp:538-607 and 666-735: the first node has no edges ---

  const FirstEmptyNodes: seq<int> := [1, 3, 2, 4]
  const FirstEmptyEdges: seq<Triple> := [(4, 2, 2), (3, 1, 3), (4, 3, 4), (4, 3, 9), (2, 2, 5)]
  const FirstEmptyOrder: seq<Triple> := [(2, 2, 5), (3, 1, 3), (4, 2, 2), (4, 3, 4), (4, 3, 9)]

  lemma FirstEmptyListing()
    ensures Listing(Elements(FirstEmptyEdges)) == FirstEmptyOrder
  {
    ListingIs(FirstEmptyEdges, FirstEmptyOrder);
  }

  lemma FirstEmptyEnds()
    ensures forall t :: t in FirstEmptyEdges ==> t.0 in FirstEmptyNodes && t.1 in FirstEmptyNodes
  {
  }

  method SpanFirstEmpty() returns (it: ConstIterator, last: ConstIterator)
    ensures fresh(it) && fresh(last) && it != last
    ensures it.Valid() && it.Pos() == 0 && last.Valid() && last.view == it.view && last.AtEnd()
    ensures Flatten(it.view) == FirstEmptyOrder
  {
    FirstEmptyListing();
    FirstEmptyEnds();
    it, last := SpanOf(FirstEmptyNodes, FirstEmptyEdges, FirstEmptyOrder);
  }

  /** From begin() to end(): B -> B, then C -> A, then the edges of D by
      destination and weight; A, which has no edges, is skipped. */
  method IterateFirstEmpty() returns (ts: seq<Triple>)
    ensures ts == [(2, 2, 5), (3, 1, 3), (4, 2, 2), (4, 3, 4), (4, 3, 9)]
  {
    var it, last := SpanFirstEmpty();
    ts := Forward(it, last);
  }

  /** *begin() is B -> B weighing 5; ++ gives C -> A weighing 3; -- gives
      B -> B again. */
  method StepFirstEmpty() returns (first: Triple, second: Triple, back: Triple)
    ensures first == (2, 2, 5) && second == (3, 1, 3) && back == (2, 2, 5)
  {
    var it, last := SpanFirstEmpty();
    first, second, back := ForthAndBack(it);
  }

  /** Dereference, ++, dereference, --, dereference. */
  method ForthAndBack(it: ConstIterator) returns (first: Triple, second: Triple, back: Triple)
    requires it.Valid() && it.Pos() == 0 && |Flatten(it.view)| >= 2
    modifies it
    ensures first == Flatten(it.view)[0] && second == Flatten(it.view)[1] && back == first
  {
    EndPosition(it.view, it.node, it.dest, it.weight);
    first := it.Deref();
    it.Next();
    EndPosition(it.view, it.node, it.dest, it.weight);
    second := it.Deref();
    it.Prev();
    EndPosition(it.view, it.node, it.dest, it.weight);
    back := it.Deref();
  }

  /** Five ++ from begin() reach end(). */
  method PastLastFirstEmpty() returns (atEnd: bool)
    ensures atEnd
  {
    var it, last := SpanFirstEmpty();
    Advance(it, 5);
    EndPosition(last.view, last.node, last.dest, last.weight);
    atEnd := it.Equals(last);
  }

  /** From rbegin() to rend(): the same triples back to front. */
  method ReverseFirstEmpty() returns (ts: seq<Triple>)
    ensures ts == [(4, 3, 9), (4, 3, 4), (4, 2, 2), (3, 1, 3), (2, 2, 5)]
  {
    var it, last := SpanFirstEmpty();
    ts := Backward(it, last);
    ReversedIs(FirstEmptyOrder, [(4, 3, 9), (4, 3, 4), (4, 2, 2), (3, 1, 3), (2, 2, 5)]);
  }

  // --- graph_test.cpp:611-634 and 737-761: the last node has no edges ---

  const LastEmptyNodes: seq<int> := [1, 3, 2, 4]
  const LastEmptyEdges: seq<Triple> := [(3, 1, 2), (1, 3, 8), (1, 3, 90), (2, 2, 50)]
  const LastEmptyOrder: seq<Triple> := [(1, 3, 8), (1, 3, 90), (2, 2, 50), (3, 1, 2)]

  lemma LastEmptyListing()
    ensures Listing(Elements(LastEmptyEdges)) == LastEmptyOrder
  {
    ListingIs(LastEmptyEdges, LastEmptyOrder);
  }

  lemma LastEmptyEnds()
    ensures forall t :: t in LastEmptyEdges ==> t.0 in LastEmptyNodes && t.1 in LastEmptyNodes
  {
  }

  method SpanLastEmpty() returns (it: ConstIterator, last: ConstIterator)
    ensures fresh(it) && fresh(last) && it != last
    ensures it.Valid() && it.Pos() == 0 && last.Valid() && last.view == it.view && last.AtEnd()
    ensures Flatten(it.view) == LastEmptyOrder
  {
    LastEmptyListing();
    LastEmptyEnds();
    it, last := SpanOf(LastEmptyNodes, LastEmptyEdges, LastEmptyOrder);
  }

  /** The fourth triple is C -> A weighing 2, and the next step is end():
      D, which has no edges, is not visited. */
  method IterateLastEmpty() returns (ts: seq<Triple>)
    ensures ts == [(1, 3, 8), (1, 3, 90), (2, 2, 50), (3, 1, 2)]
  {
    var it, last := SpanLastEmpty();
    ts := Forward(it, last);
  }

  /** Backwards, the fourth triple is A -> C weighing 8. */
  method ReverseLastEmpty() returns (ts: seq<Triple>)
    ensures ts == [(3, 1, 2), (2, 2, 50), (1, 3, 90), (1, 3, 8)]
  {
    var it, last := SpanLastEmpty();
    ts := Backward(it, last);
    ReversedIs(LastEmptyOrder, [(3, 1, 2), (2, 2, 50), (1, 3, 90), (1, 3, 8)]);
  }

  // --- graph_test.cpp:636-664 and 763-791: a middle node has no edges ---

  const MiddleEmptyNodes: seq<int> := [4, 1, 3, 2]
  const MiddleEmptyEdges: seq<Triple> := [(1, 2, 3), (4, 2, 6), (4, 3, 7), (2, 2, 4), (2, 1, 3), (1, 4, 5)]
  const MiddleEmptyOrder: seq<Triple> := [(1, 2, 3), (1, 4, 5), (2, 1, 3), (2, 2, 4), (4, 2, 6), (4, 3, 7)]

  lemma MiddleEmptyListing()
    ensures Listing(Elements(MiddleEmptyEdges)) == MiddleEmptyOrder
  {
    ListingIs(MiddleEmptyEdges, MiddleEmptyOrder);
  }

  lemma MiddleEmptyEnds()
    ensures forall t :: t in MiddleEmptyEdges ==> t.0 in MiddleEmptyNodes && t.1 in MiddleEmptyNodes
  {
  }

  method SpanMiddleEmpty() returns (it: ConstIterator, last: ConstIterator)
    ensures fresh(it) && fresh(last) && it != last
    ensures it.Valid() && it.Pos() == 0 && last.Valid() && last.view == it.view && last.AtEnd()
    ensures Flatten(it.view) == MiddleEmptyOrder
  {
    MiddleEmptyListing();
    MiddleEmptyEnds();
    it, last := SpanOf(MiddleEmptyNodes, MiddleEmptyEdges, MiddleEmptyOrder);
  }

  /** The fourth and fifth triples are 2 -> 2 and 4 -> 2: node 3, which has
      no edges, lies between them and is skipped. */
  method IterateMiddleEmpty() returns (ts: seq<Triple>)
    ensures ts == [(1, 2, 3), (1, 4, 5), (2, 1, 3), (2, 2, 4), (4, 2, 6), (4, 3, 7)]
  {
    var it, last := SpanMiddleEmpty();
    ts := Forward(it, last);
  }

  /** Backwards, the fourth and fifth triples are 2 -> 1 and 1 -> 4. */
  method ReverseMiddleEmpty() returns (ts: seq<Triple>)
    ensures ts == [(4, 3, 7), (4, 2, 6), (2, 2, 4), (2, 1, 3), (1, 4, 5), (1, 2, 3)]
  {
    var it, last := SpanMiddleEmpty();
    ts := Backward(it, last);
    ReversedIs(MiddleEmptyOrder, [(4, 3, 7), (4, 2, 6), (2, 2, 4), (2, 1, 3), (1, 4, 5), (1, 2, 3)]);
  }

  // --- graph_test.cpp:505-536: graph equality ---

  method BuildEqualPair() returns (g1: Graph, g2: Graph)
    ensures fresh(g1) && fresh(g2) && g1.Valid() && g2.Valid()
    ensures g1.Abs().edges == g2.Abs().edges
  {
    g1 := BuildOf([56, 21, 33], [(33, 33, 66), (56, 21, 77)]);
    g2 := BuildOf([33, 56, 21], [(56, 21, 77), (33, 33, 66)]);
    SameEdgesReordered();
  }

  lemma SameEdgesReordered()
    ensures Elements([(33, 33, 66), (56, 21, 77)]) == Elements([(56, 21, 77), (33, 33, 66)])
  {
    ElementsOfTwo((33, 33, 66), (56, 21, 77));
    ElementsOfTwo((56, 21, 77), (33, 33, 66));
  }

  lemma ElementsOfTwo(a: Triple, b: Triple)
    ensures Elements([a, b]) == {a, b}
  {
    assert forall t :: t in [a, b] <==> t == a || t == b;
  }

  method BuildDifferentPair() returns (g1: Graph, g3: Graph)
    ensures fresh(g1) && fresh(g3) && g1.Valid() && g3.Valid()
    ensures |g1.Abs().edges| == 2 && |g3.Abs().edges| == 1
  {
    g1 := BuildFirstOfPair();
    g3 := BuildThird();
  }

  method BuildFirstOfPair() returns (g: Graph)
    ensures fresh(g) && g.Valid() && |g.Abs().edges| == 2
  {
    g := BuildOf([56, 21, 33], [(33, 33, 66), (56, 21, 77)]);
    ElementsOfTwo((33, 33, 66), (56, 21, 77));
  }

  method BuildThird() returns (g: Graph)
    ensures fresh(g) && g.Valid() && |g.Abs().edges| == 1
  {
    g := BuildOf([99, 22, 11], [(99, 11, 110)]);
    assert Elements([(99, 11, 110)]) == {(99, 11, 110)};
  }

  /** Graphs built with the same edges in a different order are equal, by
      operator== as written; operator!= is its negation (graph.h:179-181). */
  method EqualityOfReordered() returns (eq: bool, ne: bool)
    ensures eq && !ne
  {
    var g1, g2 := BuildEqualPair();
    eq := EqualAsWritten(g1, g2);
    ne := !eq;
  }

  /** A graph with two edges and one with one edge are unequal. */
  method EqualityOfDifferent() returns (eq: bool, ne: bool)
    ensures !eq && ne
  {
    var g1, g3 := BuildDifferentPair();
    eq := EqualAsWritten(g1, g3);
    ne := !eq;
  }
}
