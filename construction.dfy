/** The converting constructors of the graph (graph.h:121-124), written as
    folds of InsertNode and InsertEdge over their input. */
module Construction {
  import opened Ordered
  import opened Results
  import opened Graphs
  import AbstractGraph

  /** The node values a sequence of edge tuples mentions. */
  ghost function Endpoints(es: seq<Triple>): set<int> {
    (set t | t in es :: t.0) + (set t | t in es :: t.1)
  }

  /** The elements of a sequence, as a set. */
  ghost function Elements<T>(s: seq<T>): set<T> {
    set x | x in s
  }

  lemma ElementsSnoc<T>(s: seq<T>, x: T)
    ensures Elements(s + [x]) == Elements(s) + {x}
  {
    assert forall y :: y in s + [x] <==> y in s || y == x;
  }

  lemma ElementsStep<T>(s: seq<T>, i: nat)
    requires i < |s|
    ensures Elements(s[..i]) + {s[i]} == Elements(s[..i + 1])
  {
    assert s[..i + 1] == s[..i] + [s[i]];
    ElementsSnoc(s[..i], s[i]);
  }

  lemma ElementsAdd<T>(e: set<T>, s: seq<T>, i: nat)
    requires i < |s|
    ensures e + Elements(s[..i]) + {s[i]} == e + Elements(s[..i + 1])
  {
    ElementsStep(s, i);
  }

  lemma EndpointsStep(s: seq<Triple>, i: nat)
    requires i < |s|
    ensures Endpoints(s[..i]) + {s[i].0} + {s[i].1} == Endpoints(s[..i + 1])
  {
    assert s[..i + 1] == s[..i] + [s[i]];
    assert forall u :: u in s[..i + 1] <==> u in s[..i] || u == s[i];
  }

  /** Graph(first, last) over node values, and Graph(initializer_list): the
      graph with those values as nodes, duplicates once, and no edges. */
  method FromNodes(ns: seq<int>) returns (g: Graph)
    ensures fresh(g) && g.Valid()
    ensures g.Abs() == AbstractGraph.AbsGraph(Elements(ns), {})
  {
    g := new Graph();
    var i := 0;
    while i < |ns|
      invariant 0 <= i <= |ns|
      invariant fresh(g) && g.Valid()
      invariant g.Abs() == AbstractGraph.AbsGraph(Elements(ns[..i]), {})
    {
      var b := g.InsertNode(ns[i]);
      assert ns[..i + 1] == ns[..i] + [ns[i]];
      ElementsSnoc(ns[..i], ns[i]);
      i := i + 1;
    }
    assert ns[..|ns|] == ns;
  }

  /** Inserting a sequence of edges between existing nodes adds exactly
      those edges. */
  method AddEdges(g: Graph, es: seq<Triple>)
    requires g.Valid()
    requires forall t :: t in es ==> t.0 in g.Abs().nodes && t.1 in g.Abs().nodes
    modifies g
    ensures g.Valid()
    ensures g.Abs() == AbstractGraph.AbsGraph(old(g.Abs()).nodes, old(g.Abs()).edges + Elements(es))
  {
    ghost var a := g.Abs();
    var i := 0;
    while i < |es|
      invariant 0 <= i <= |es|
      invariant g.Valid()
      invariant g.Abs() == AbstractGraph.AbsGraph(a.nodes, a.edges + Elements(es[..i]))
    {
      assert es[i] in es;
      AddPresent(g, es[i]);
      ElementsAdd(a.edges, es, i);
      assert g.Abs() == AbstractGraph.AbsGraph(a.nodes, a.edges + Elements(es[..i + 1]));
      i := i + 1;
    }
    assert es[..|es|] == es;
  }

  /** Graph(first, last) over edge tuples: every source and destination
      becomes a node, once, and every tuple an edge. */
  method FromEdges(es: seq<Triple>) returns (g: Graph)
    ensures fresh(g) && g.Valid()
    ensures g.Abs() == AbstractGraph.AbsGraph(Endpoints(es), Elements(es))
  {
    g := new Graph();
    var i := 0;
    while i < |es|
      invariant 0 <= i <= |es|
      invariant fresh(g) && g.Valid()
      invariant g.Abs() == AbstractGraph.AbsGraph(Endpoints(es[..i]), Elements(es[..i]))
    {
      AddTuple(g, es[i]);
      EndpointsStep(es, i);
      ElementsStep(es, i);
      assert g.Abs() == AbstractGraph.AbsGraph(Endpoints(es[..i + 1]), Elements(es[..i + 1]));
      i := i + 1;
    }
    assert es[..|es|] == es;
  }

  /** One tuple of the edge-tuple constructor: both ends become nodes, then
      the tuple becomes an edge. */
  method AddTuple(g: Graph, t: Triple)
    requires g.Valid()
    modifies g
    ensures g.Valid()
    ensures g.Abs() == AbstractGraph.AbsGraph(old(g.Abs()).nodes + {t.0} + {t.1}, old(g.Abs()).edges + {t})
  {
    var b := g.InsertNode(t.0);
    b := g.InsertNode(t.1);
    var r := g.InsertEdge(t.0, t.1, t.2);
  }

  /** InsertEdge between two existing nodes. */
  method AddPresent(g: Graph, t: Triple)
    requires g.Valid() && t.0 in g.Abs().nodes && t.1 in g.Abs().nodes
    modifies g
    ensures g.Valid()
    ensures g.Abs() == AbstractGraph.AbsGraph(old(g.Abs()).nodes, old(g.Abs()).edges + {t})
  {
    var r := g.InsertEdge(t.0, t.1, t.2);
  }
}
