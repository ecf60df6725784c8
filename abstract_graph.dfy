/** The graph as a plain value: the set of node values and the set of
    (src, dst, weight) edges. Every mutator of the arena-based graph is
    specified by one of the functions below, and the lemmas state what the
    source promises of them. */
module AbstractGraph {
  import opened Ordered

  datatype AbsGraph = AbsGraph(nodes: set<int>, edges: set<Triple>)

  /** Every edge joins two nodes of the graph. */
  ghost predicate WellFormed(g: AbsGraph) {
    forall t :: t in g.edges ==> t.0 in g.nodes && t.1 in g.nodes
  }

  /** The weights on the edge src -> dst. */
  ghost function WeightsOf(g: AbsGraph, src: int, dst: int): set<int> {
    set t | t in g.edges && t.0 == src && t.1 == dst :: t.2
  }

  ghost function Empty(): (r: AbsGraph)
    ensures WellFormed(r)
  {
    AbsGraph({}, {})
  }

  ghost function InsertNode(g: AbsGraph, v: int): (r: AbsGraph)
    requires WellFormed(g)
    ensures WellFormed(r)
  {
    AbsGraph(g.nodes + {v}, g.edges)
  }

  ghost function InsertEdge(g: AbsGraph, t: Triple): (r: AbsGraph)
    requires WellFormed(g) && t.0 in g.nodes && t.1 in g.nodes
    ensures WellFormed(r)
  {
    AbsGraph(g.nodes, g.edges + {t})
  }

  ghost function EraseEdge(g: AbsGraph, t: Triple): (r: AbsGraph)
    requires WellFormed(g)
    ensures WellFormed(r)
  {
    AbsGraph(g.nodes, g.edges - {t})
  }

  /** Deleting a node removes it and every edge that starts or ends at it. */
  ghost function DeleteNode(g: AbsGraph, v: int): (r: AbsGraph)
    requires WellFormed(g)
    ensures WellFormed(r)
    ensures v !in r.nodes
  {
    AbsGraph(g.nodes - {v}, set t | t in g.edges && t.0 != v && t.1 != v)
  }

  function Rename(x: int, oldValue: int, newValue: int): int {
    if x == oldValue then newValue else x
  }

  /** The common effect of Replace and MergeReplace: the node `oldValue` takes
      the value `newValue`, and every edge at `oldValue` is carried over to `newValue`.
      Parallel edges that become equal collapse, because edges form a set. */
  ghost function Substitute(g: AbsGraph, oldValue: int, newValue: int): (r: AbsGraph)
    requires WellFormed(g) && oldValue in g.nodes
    ensures WellFormed(r)
    ensures newValue in r.nodes && (oldValue != newValue ==> oldValue !in r.nodes)
  {
    AbsGraph((g.nodes - {oldValue}) + {newValue},
             set t | t in g.edges :: (Rename(t.0, oldValue, newValue), Rename(t.1, oldValue, newValue), t.2))
  }

  /** Replace with a fresh value is a renaming: every edge y -> old becomes
      y -> new, every edge old -> x becomes new -> x, with the same weights,
      and nothing else changes. */
  lemma ReplaceRenames(g: AbsGraph, oldValue: int, newValue: int, a: int, b: int, w: int)
    requires WellFormed(g) && oldValue in g.nodes && newValue !in g.nodes
    requires a in g.nodes && b in g.nodes
    ensures (a, b, w) in g.edges <==>
            (Rename(a, oldValue, newValue), Rename(b, oldValue, newValue), w) in Substitute(g, oldValue, newValue).edges
  {
    var r := Substitute(g, oldValue, newValue);
    var t' := (Rename(a, oldValue, newValue), Rename(b, oldValue, newValue), w);
    if t' in r.edges {
      var t :| t in g.edges && (Rename(t.0, oldValue, newValue), Rename(t.1, oldValue, newValue), t.2) == t';
      assert t == (a, b, w);
    }
  }

  /** After Replace, no edge mentions the old value. */
  lemma ReplaceForgetsOld(g: AbsGraph, oldValue: int, newValue: int, t: Triple)
    requires WellFormed(g) && oldValue in g.nodes && oldValue != newValue
    requires t in Substitute(g, oldValue, newValue).edges
    ensures t.0 != oldValue && t.1 != oldValue
  {
    var s :| s in g.edges && (Rename(s.0, oldValue, newValue), Rename(s.1, oldValue, newValue), s.2) == t;
  }

  /** Replacing old by a fresh value and then back gives the original graph. */
  lemma ReplaceRoundTrip(g: AbsGraph, oldValue: int, newValue: int)
    requires WellFormed(g) && oldValue in g.nodes && newValue !in g.nodes
    ensures Substitute(Substitute(g, oldValue, newValue), newValue, oldValue) == g
  {
    var r := Substitute(g, oldValue, newValue);
    var back := Substitute(r, newValue, oldValue);
    assert back.nodes == g.nodes;
    forall t | t in back.edges ensures t in g.edges {
      var s :| s in r.edges && (Rename(s.0, newValue, oldValue), Rename(s.1, newValue, oldValue), s.2) == t;
      var u :| u in g.edges && (Rename(u.0, oldValue, newValue), Rename(u.1, oldValue, newValue), u.2) == s;
      assert u == t;
    }
    forall t | t in g.edges ensures t in back.edges {
      var s := (Rename(t.0, oldValue, newValue), Rename(t.1, oldValue, newValue), t.2);
      assert s in r.edges;
      assert (Rename(s.0, newValue, oldValue), Rename(s.1, newValue, oldValue), s.2) == t;
    }
  }

  /** MergeReplace(old, new) with both present: an edge a -> b survives iff
      neither end is old and it is an old edge a -> b, or an edge old -> b
      with a == new, or an edge a -> old with b == new, or a self-loop on old
      with a == b == new. */
  lemma MergeEdges(g: AbsGraph, oldValue: int, newValue: int, a: int, b: int, w: int)
    requires WellFormed(g) && oldValue in g.nodes && newValue in g.nodes && oldValue != newValue
    ensures (a, b, w) in Substitute(g, oldValue, newValue).edges <==>
            a != oldValue && b != oldValue &&
            ((a, b, w) in g.edges
             || (a == newValue && (oldValue, b, w) in g.edges)
             || (b == newValue && (a, oldValue, w) in g.edges)
             || (a == newValue && b == newValue && (oldValue, oldValue, w) in g.edges))
  {
    var r := Substitute(g, oldValue, newValue);
    if (a, b, w) in r.edges {
      var s :| s in g.edges && (Rename(s.0, oldValue, newValue), Rename(s.1, oldValue, newValue), s.2) == (a, b, w);
    }
    if a != oldValue && b != oldValue {
      if (a, b, w) in g.edges {
        assert (Rename(a, oldValue, newValue), Rename(b, oldValue, newValue), w) == (a, b, w);
      }
      if a == newValue && (oldValue, b, w) in g.edges {
        assert (Rename(oldValue, oldValue, newValue), Rename(b, oldValue, newValue), w) == (a, b, w);
      }
      if b == newValue && (a, oldValue, w) in g.edges {
        assert (Rename(a, oldValue, newValue), Rename(oldValue, oldValue, newValue), w) == (a, b, w);
      }
      if a == newValue && b == newValue && (oldValue, oldValue, w) in g.edges {
        assert (Rename(oldValue, oldValue, newValue), Rename(oldValue, oldValue, newValue), w) == (a, b, w);
      }
    }
  }

  /** The self-loop on new after MergeReplace(old, new) carries the union of
      the weights of old -> old, old -> new, new -> old and new -> new. */
  lemma MergeSelfLoop(g: AbsGraph, oldValue: int, newValue: int)
    requires WellFormed(g) && oldValue in g.nodes && newValue in g.nodes && oldValue != newValue
    ensures WeightsOf(Substitute(g, oldValue, newValue), newValue, newValue) ==
            WeightsOf(g, oldValue, oldValue) + WeightsOf(g, oldValue, newValue) + WeightsOf(g, newValue, oldValue) + WeightsOf(g, newValue, newValue)
  {
    var r := Substitute(g, oldValue, newValue);
    forall w ensures w in WeightsOf(r, newValue, newValue) <==>
      w in WeightsOf(g, oldValue, oldValue) + WeightsOf(g, oldValue, newValue) + WeightsOf(g, newValue, oldValue) + WeightsOf(g, newValue, newValue)
    {
      MergeEdges(g, oldValue, newValue, newValue, newValue, w);
      assert w in WeightsOf(r, newValue, newValue) <==> (newValue, newValue, w) in r.edges;
      assert w in WeightsOf(g, oldValue, oldValue) <==> (oldValue, oldValue, w) in g.edges;
      assert w in WeightsOf(g, oldValue, newValue) <==> (oldValue, newValue, w) in g.edges;
      assert w in WeightsOf(g, newValue, oldValue) <==> (newValue, oldValue, w) in g.edges;
      assert w in WeightsOf(g, newValue, newValue) <==> (newValue, newValue, w) in g.edges;
    }
  }
}
