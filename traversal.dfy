/** Walking a graph with its iterators: from begin() to end() with
    operator++, and from end() back to begin() with operator--, which is what
    the reverse iterators of graph.h do. */
module Traversal {
  import opened Ordered
  import opened Iteration
  import opened Graphs

  /** begin() and end() of one graph. */
  method Span(g: Graph) returns (first: ConstIterator, last: ConstIterator)
    requires g.Valid()
    ensures fresh(first) && fresh(last) && first != last
    ensures first.Valid() && first.Pos() == 0 && last.Valid() && last.view == first.view && last.AtEnd()
    ensures Flatten(first.view) == Listing(g.Abs().edges)
  {
    first := g.Begin();
    last := g.End();
    TriplesListing(g);
  }

  /** The triples from `it` up to `last`, stepping with operator++. */
  method Collect(it: ConstIterator, last: ConstIterator) returns (ts: seq<Triple>)
    requires it.Valid() && last.Valid() && last.view == it.view && last.AtEnd() && it != last
    modifies it
    ensures ts == Flatten(it.view)[old(it.Pos())..]
  {
    ghost var f, p0 := Flatten(it.view), it.Pos();
    EndPosition(last.view, last.node, last.dest, last.weight);
    ts := [];
    while !it.Equals(last)
      invariant it.Valid() && p0 <= it.Pos() <= |f|
      invariant ts == f[p0..it.Pos()]
      decreases |f| - it.Pos()
    {
      EndPosition(it.view, it.node, it.dest, it.weight);
      ghost var q := it.Pos();
      var t := it.Deref();
      ts := ts + [t];
      it.Next();
      assert f[p0..q + 1] == f[p0..q] + [f[q]];
    }
  }

  /** Iterating from begin() to end() visits every edge once, in ascending
      (src, dst, weight) order. */
  method Traverse(g: Graph) returns (ts: seq<Triple>)
    requires g.Valid()
    ensures ts == Listing(g.Abs().edges)
  {
    var first, last := Span(g);
    ts := Forward(first, last);
  }

  /** From begin() to end(): every triple of the view, in order. */
  method Forward(first: ConstIterator, last: ConstIterator) returns (ts: seq<Triple>)
    requires first.Valid() && first.Pos() == 0 && last.Valid() && last.view == first.view && last.AtEnd()
    requires first != last
    modifies first
    ensures ts == Flatten(first.view)
  {
    ts := Collect(first, last);
    assert Flatten(first.view)[0..] == Flatten(first.view);
  }

  /** The triples before `it` down to `first`, stepping with operator--,
      nearest first. */
  method CollectBackward(it: ConstIterator, first: ConstIterator) returns (ts: seq<Triple>)
    requires it.Valid() && first.Valid() && first.view == it.view && first.Pos() == 0 && it != first
    modifies it
    ensures ts == Reversed(Flatten(it.view)[..old(it.Pos())])
  {
    ghost var f, p0 := Flatten(it.view), it.Pos();
    ts := [];
    while !it.Equals(first)
      invariant it.Valid() && it.Pos() <= p0 <= |f|
      invariant |ts| == p0 - it.Pos()
      invariant forall m :: 0 <= m < |ts| ==> ts[m] == f[p0 - 1 - m]
      decreases it.Pos()
    {
      it.Prev();
      var t := it.Deref();
      ts := ts + [t];
    }
    BackToFront(ts, f, p0);
  }

  /** A sequence holding the first p elements of f, last first, is their
      reversal. */
  lemma BackToFront(ts: seq<Triple>, f: seq<Triple>, p: nat)
    requires p <= |f| && |ts| == p
    requires forall m :: 0 <= m < |ts| ==> ts[m] == f[p - 1 - m]
    ensures ts == Reversed(f[..p])
  {
    var r := Reversed(f[..p]);
    assert forall m :: 0 <= m < p ==> r[m] == f[p - 1 - m];
  }

  /** Iterating from end() back to begin() (rbegin() to rend()) visits the
      edges in descending order: the forward sequence reversed. */
  method TraverseBackward(g: Graph) returns (ts: seq<Triple>)
    requires g.Valid()
    ensures ts == Reversed(Listing(g.Abs().edges))
  {
    var first, last := Span(g);
    ts := Backward(first, last);
  }

  /** From end() back to begin(): every triple of the view, last first. */
  method Backward(first: ConstIterator, last: ConstIterator) returns (ts: seq<Triple>)
    requires first.Valid() && first.Pos() == 0 && last.Valid() && last.view == first.view && last.AtEnd()
    requires first != last
    modifies last
    ensures ts == Reversed(Flatten(first.view))
  {
    EndPosition(last.view, last.node, last.dest, last.weight);
    ts := CollectBackward(last, first);
    assert Flatten(last.view)[..|Flatten(last.view)|] == Flatten(last.view);
  }
}
