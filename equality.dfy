/** Graph equality (operator== and operator!= of graph.h): a lock-step walk
    of two iterators that compares the triples they denote pair by pair, and
    succeeds when both reach their end together. */
module Equality {
  import opened Ordered
  import opened Iteration
  import opened Graphs
  import opened Traversal

  /** The pair test as graph.h:166 writes it: a pair of triples is rejected
      only when all three components differ. */
  predicate AllDiffer(a: Triple, b: Triple) {
    a.0 != b.0 && a.1 != b.1 && a.2 != b.2
  }

  /** The pair test evidently intended: a pair is rejected when any
      component differs. */
  predicate AnyDiffers(a: Triple, b: Triple) {
    a.0 != b.0 || a.1 != b.1 || a.2 != b.2
  }

  /** What the walk decides for a pair test `differ`: the sequences have the
      same length and no pair at the same index is rejected. */
  predicate Agree(t1: seq<Triple>, t2: seq<Triple>, differ: (Triple, Triple) -> bool) {
    |t1| == |t2| && forall m :: 0 <= m < |t1| ==> !differ(t1[m], t2[m])
  }

  /** The loop of operator==: advance both iterators while neither is at
      its end, stop with false at the first rejected pair, and at the end
      report whether both iterators stand at their end. */
  method Walk(it1: ConstIterator, end1: ConstIterator, it2: ConstIterator, end2: ConstIterator,
              differ: (Triple, Triple) -> bool) returns (eq: bool)
    requires it1.Valid() && it1.Pos() == 0 && end1.Valid() && end1.view == it1.view && end1.AtEnd()
    requires it2.Valid() && it2.Pos() == 0 && end2.Valid() && end2.view == it2.view && end2.AtEnd()
    requires it1 != it2 && it1 != end1 && it1 != end2 && it2 != end1 && it2 != end2
    modifies it1, it2
    ensures eq == Agree(Flatten(it1.view), Flatten(it2.view), differ)
  {
    ghost var t1, t2 := Flatten(it1.view), Flatten(it2.view);
    EndPosition(end1.view, end1.node, end1.dest, end1.weight);
    EndPosition(end2.view, end2.node, end2.dest, end2.weight);
    while !it1.Equals(end1) && !it2.Equals(end2)
      invariant it1.Valid() && it2.Valid()
      invariant it1.Pos() == it2.Pos() <= |t1| && it2.Pos() <= |t2|
      invariant end1.Pos() == |t1| && end2.Pos() == |t2|
      invariant forall m :: 0 <= m < it1.Pos() ==> !differ(t1[m], t2[m])
      decreases |t1| - it1.Pos()
    {
      var rejected := Round(it1, it2, differ);
      if rejected {
        return false;
      }
    }
    eq := it1.Equals(end1) && it2.Equals(end2);
  }

  /** One round of the loop: dereference both iterators, and advance both
      when the pair is accepted. */
  method Round(it1: ConstIterator, it2: ConstIterator, differ: (Triple, Triple) -> bool) returns (rejected: bool)
    requires it1.Valid() && it2.Valid() && it1 != it2
    requires it1.Pos() < |Flatten(it1.view)| && it2.Pos() < |Flatten(it2.view)|
    modifies it1, it2
    ensures rejected == differ(Flatten(it1.view)[old(it1.Pos())], Flatten(it2.view)[old(it2.Pos())])
    ensures !rejected ==> it1.Valid() && it2.Valid() && it1.Pos() == old(it1.Pos()) + 1 && it2.Pos() == old(it2.Pos()) + 1
  {
    EndPosition(it1.view, it1.node, it1.dest, it1.weight);
    EndPosition(it2.view, it2.node, it2.dest, it2.weight);
    var a := it1.Deref();
    var b := it2.Deref();
    rejected := differ(a, b);
    if !rejected {
      it1.Next();
      it2.Next();
    }
  }

  /** operator== for a pair test `differ`: from begin() of both graphs up
      to end() of either, comparing the edges of each graph in ascending
      order. */
  method LockStep(g1: Graph, g2: Graph, differ: (Triple, Triple) -> bool) returns (eq: bool)
    requires g1.Valid() && g2.Valid()
    ensures eq == Agree(Listing(g1.Abs().edges), Listing(g2.Abs().edges), differ)
  {
    var it1, end1 := Span(g1);
    var it2, end2 := Span(g2);
    eq := Walk(it1, end1, it2, end2, differ);
  }

  /** operator== as written. Graphs with the same edges compare equal,
      however they were built, and graphs with different numbers of edges
      compare unequal. */
  method EqualAsWritten(g1: Graph, g2: Graph) returns (eq: bool)
    requires g1.Valid() && g2.Valid()
    ensures eq == Agree(Listing(g1.Abs().edges), Listing(g2.Abs().edges), AllDiffer)
    ensures g1.Abs().edges == g2.Abs().edges ==> eq
    ensures |g1.Abs().edges| != |g2.Abs().edges| ==> !eq
  {
    eq := LockStep(g1, g2, AllDiffer);
    AgreeBySize(g1.Abs().edges, g2.Abs().edges, AllDiffer);
  }

  /** Graphs with the same edges agree under any pair test that accepts
      equal triples; edge sets of different sizes never agree. */
  lemma AgreeBySize(e1: set<Triple>, e2: set<Triple>, differ: (Triple, Triple) -> bool)
    requires forall a :: !differ(a, a)
    ensures e1 == e2 ==> Agree(Listing(e1), Listing(e2), differ)
    ensures |e1| != |e2| ==> !Agree(Listing(e1), Listing(e2), differ)
  {
    ListingLength(e1);
    ListingLength(e2);
  }

  /** The pair test as written accepts two different one-edge graphs: the
      weights differ but the source and destination do not. */
  lemma AsWrittenAcceptsDifferentWeights()
    ensures Listing({(1, 2, 3)}) == [(1, 2, 3)] && Listing({(1, 2, 4)}) == [(1, 2, 4)]
    ensures Agree(Listing({(1, 2, 3)}), Listing({(1, 2, 4)}), AllDiffer)
    ensures !Agree(Listing({(1, 2, 3)}), Listing({(1, 2, 4)}), AnyDiffers)
  {
    LexIncreasingUnique(Listing({(1, 2, 3)}), [(1, 2, 3)]);
    LexIncreasingUnique(Listing({(1, 2, 4)}), [(1, 2, 4)]);
  }

  /** With the intended pair test, two listings agree exactly when the sets
      are equal. */
  lemma AgreeIffSameEdges(e1: set<Triple>, e2: set<Triple>)
    ensures Agree(Listing(e1), Listing(e2), AnyDiffers) <==> e1 == e2
  {
    var t1, t2 := Listing(e1), Listing(e2);
    if Agree(t1, t2, AnyDiffers) {
      assert forall m :: 0 <= m < |t1| ==> t1[m] == t2[m];
      assert t1 == t2;
      assert forall t :: t in e1 <==> t in e2;
    }
  }

  /** operator== with the intended pair test: true exactly when the two
      graphs have the same edges. */
  method Equal(g1: Graph, g2: Graph) returns (eq: bool)
    requires g1.Valid() && g2.Valid()
    ensures eq <==> g1.Abs().edges == g2.Abs().edges
  {
    eq := LockStep(g1, g2, AnyDiffers);
    AgreeIffSameEdges(g1.Abs().edges, g2.Abs().edges);
  }

  /** operator!=: the negation of operator==. */
  method NotEqual(g1: Graph, g2: Graph) returns (ne: bool)
    requires g1.Valid() && g2.Valid()
    ensures ne <==> g1.Abs().edges != g2.Abs().edges
  {
    var eq := Equal(g1, g2);
    ne := !eq;
  }
}
