/** The graph container of graph.h, over an arena of node slots.

    A slot stands for one heap-allocated Node. `nodes` is the set of slots the
    graph owns (the shared_ptrs of nodes_); a destination in an outgoing table
    is a slot id (a weak_ptr), and it resolves to a node only while its slot
    is owned. Deleting a node therefore only drops its slot from `nodes`, and
    Replace only changes the value held in the slot: every table that refers
    to the slot sees the new value on its next read. Slots are never reused
    (InsertNode appends), so a dangling reference stays dangling. */
module Graphs {
  import opened Ordered
  import opened Results
  import opened Iteration
  import AbstractGraph

  /** A node's value and its outgoing table: destination slot -> ordered,
      nonempty set of weights (edges_out_). */
  datatype Node = Node(value: int, edgesOut: map<nat, seq<int>>) {

    /** The weights on the edge to slot y; none when there is no entry. */
    function WeightsTo(y: nat): seq<int> {
      if y in edgesOut then edgesOut[y] else []
    }

    /** Every entry holds an ordered set of weights; an entry whose last
        weight is removed is removed with it. */
    predicate Ordered() {
      forall y :: y in edgesOut ==> edgesOut[y] != [] && Increasing(edgesOut[y])
    }

    /** Every destination is a slot below `bound`. */
    predicate Bounded(bound: nat) {
      forall y :: y in edgesOut ==> y < bound
    }

    /** Node::AddEdgeTo: adds weight w on the edge to slot y; reports
        whether it was new. */
    function AddEdgeTo(y: nat, w: int): (r: (Node, bool))
      requires Ordered()
      ensures r.0.Ordered() && r.0.value == value
      ensures forall z :: z in r.0.edgesOut ==> z in edgesOut || z == y
      ensures forall z: nat, u: int :: u in r.0.WeightsTo(z) <==> u in WeightsTo(z) || (z == y && u == w)
      ensures r.1 <==> w !in WeightsTo(y)
      ensures !r.1 ==> r.0 == this
    {
      if w in WeightsTo(y) then (this, false)
      else (Node(value, edgesOut[y := Insert(WeightsTo(y), w)]), true)
    }

    /** Node::DeleteEdge: removes weight w from the edge to slot y; reports
        whether it was there. */
    function DeleteEdge(y: nat, w: int): (r: (Node, bool))
      requires Ordered()
      ensures r.0.Ordered() && r.0.value == value
      ensures forall z :: z in r.0.edgesOut ==> z in edgesOut
      ensures forall z: nat, u: int :: u in r.0.WeightsTo(z) <==> u in WeightsTo(z) && !(z == y && u == w)
      ensures r.1 <==> w in WeightsTo(y)
      ensures !r.1 ==> r.0 == this
    {
      if w !in WeightsTo(y) then (this, false)
      else
        var ws := Remove(WeightsTo(y), w);
        (Node(value, if ws == [] then edgesOut - {y} else edgesOut[y := ws]), true)
    }

    /** The edges to slot `from` become edges to slot `to`, merged into any
        weights already there. */
    function Redirect(from: nat, to: nat): (r: Node)
      requires Ordered() && from != to
      ensures r.Ordered() && r.value == value
      ensures forall z :: z in r.edgesOut ==> z in edgesOut || z == to
      ensures r.WeightsTo(from) == []
      ensures forall u :: u in r.WeightsTo(to) <==> u in WeightsTo(to) || u in WeightsTo(from)
      ensures forall z: nat :: z != from && z != to ==> r.WeightsTo(z) == WeightsTo(z)
    {
      if from !in edgesOut then this
      else
        var ws := Union(WeightsTo(to), edgesOut[from]);
        assert edgesOut[from][0] in ws;
        Node(value, (edgesOut - {from})[to := ws])
    }

    /** The outgoing table of `other` merged into this one, entry by entry. */
    function Absorb(other: Node): (r: Node)
      requires Ordered() && other.Ordered()
      ensures r.Ordered() && r.value == value
      ensures forall z :: z in r.edgesOut ==> z in edgesOut || z in other.edgesOut
      ensures forall z: nat, u: int :: u in r.WeightsTo(z) <==> u in WeightsTo(z) || u in other.WeightsTo(z)
    {
      var t := map z | z in edgesOut.Keys + other.edgesOut.Keys :: Union(WeightsTo(z), other.WeightsTo(z));
      assert forall z :: z in t ==> t[z] != [] by {
        forall z | z in t ensures t[z] != [] {
          if z in edgesOut {
            assert WeightsTo(z)[0] in t[z];
          } else {
            assert other.WeightsTo(z)[0] in t[z];
          }
        }
      }
      Node(value, t)
    }
  }

  /** The arena invariant: owned slots exist, owned nodes have distinct
      values (nodes_ is a set ordered by value), and every table is ordered
      and refers only to allocated slots. */
  ghost predicate Wf(slots: seq<Node>, nodes: set<nat>) {
    && (forall x :: x in nodes ==> x < |slots|)
    && (forall x, y :: x in nodes && y in nodes && slots[x].value == slots[y].value ==> x == y)
    && (forall x :: 0 <= x < |slots| ==> slots[x].Ordered() && slots[x].Bounded(|slots|))
  }

  /** What an arena denotes: the values of the owned nodes, and a triple for
      every weight on an entry whose source and destination are both owned. */
  ghost function AbsOf(slots: seq<Node>, nodes: set<nat>): AbstractGraph.AbsGraph
    requires Wf(slots, nodes)
  {
    AbstractGraph.AbsGraph(
      set x | x in nodes :: slots[x].value,
      set x, y, w | x in nodes && y in nodes && w in slots[x].WeightsTo(y) :: (slots[x].value, slots[y].value, w))
  }

  /** The first owned slot at or after i holding value v, or None. */
  function SlotFrom(slots: seq<Node>, nodes: set<nat>, v: int, i: nat): (r: Option<nat>)
    ensures r.Some? ==> i <= r.value < |slots| && r.value in nodes && slots[r.value].value == v
    ensures r.None? ==> forall x :: x in nodes && i <= x < |slots| ==> slots[x].value != v
    decreases |slots| - i
  {
    if i >= |slots| then None
    else if i in nodes && slots[i].value == v then Some(i)
    else SlotFrom(slots, nodes, v, i + 1)
  }

  /** The values of the owned slots from i on. */
  function LiveValuesFrom(slots: seq<Node>, nodes: set<nat>, i: nat): (r: seq<int>)
    ensures forall v :: v in r <==> SlotFrom(slots, nodes, v, i).Some?
    decreases |slots| - i
  {
    if i >= |slots| then []
    else (if i in nodes then [slots[i].value] else []) + LiveValuesFrom(slots, nodes, i + 1)
  }

  /** The values of the owned slots from i on that slot x has an entry for. */
  function DestValuesFrom(slots: seq<Node>, nodes: set<nat>, x: nat, i: nat): (r: seq<int>)
    requires Wf(slots, nodes) && x < |slots|
    ensures forall v :: v in r <==>
              SlotFrom(slots, nodes, v, i).Some? && SlotFrom(slots, nodes, v, i).value in slots[x].edgesOut
    decreases |slots| - i
  {
    if i >= |slots| then []
    else
      var rest := DestValuesFrom(slots, nodes, x, i + 1);
      assert i in nodes ==> SlotFrom(slots, nodes, slots[i].value, i + 1).None?;
      (if i in nodes && i in slots[x].edgesOut then [slots[i].value] else []) + rest
  }

  lemma AbsWellFormed(slots: seq<Node>, nodes: set<nat>)
    requires Wf(slots, nodes)
    ensures AbstractGraph.WellFormed(AbsOf(slots, nodes))
  {
    var g := AbsOf(slots, nodes);
    forall t | t in g.edges ensures t.0 in g.nodes && t.1 in g.nodes {
      var x, y := EdgeSlots(slots, nodes, t);
    }
  }

  /** A value is a node exactly when some owned slot holds it. */
  lemma NodeIff(slots: seq<Node>, nodes: set<nat>)
    requires Wf(slots, nodes)
    ensures forall v :: v in AbsOf(slots, nodes).nodes <==> SlotFrom(slots, nodes, v, 0).Some?
  {
    forall v ensures v in AbsOf(slots, nodes).nodes <==> SlotFrom(slots, nodes, v, 0).Some? {
      var r := SlotFrom(slots, nodes, v, 0);
      if r.Some? {
        assert slots[r.value].value in AbsOf(slots, nodes).nodes;
      }
    }
  }

  /** The owned slots a triple of the graph comes from. */
  lemma EdgeSlots(slots: seq<Node>, nodes: set<nat>, t: Triple) returns (x: nat, y: nat)
    requires Wf(slots, nodes) && t in AbsOf(slots, nodes).edges
    ensures x in nodes && y in nodes && slots[x].value == t.0 && slots[y].value == t.1
    ensures t.2 in slots[x].WeightsTo(y)
  {
    x, y :| x in nodes && y in nodes && t.2 in slots[x].WeightsTo(y) && t == (slots[x].value, slots[y].value, t.2);
  }

  /** A weight in an owned slot's entry for another owned slot is an edge. */
  lemma EdgeOf(slots: seq<Node>, nodes: set<nat>, x: nat, y: nat, w: int)
    requires Wf(slots, nodes) && x in nodes && y in nodes && w in slots[x].WeightsTo(y)
    ensures (slots[x].value, slots[y].value, w) in AbsOf(slots, nodes).edges
  {
  }

  /** An edge between two owned slots is a weight in the source's entry for
      the destination. */
  lemma EdgeWeight(slots: seq<Node>, nodes: set<nat>, x: nat, y: nat, w: int)
    requires Wf(slots, nodes) && x in nodes && y in nodes
    requires (slots[x].value, slots[y].value, w) in AbsOf(slots, nodes).edges
    ensures w in slots[x].WeightsTo(y)
  {
    var x', y' := EdgeSlots(slots, nodes, (slots[x].value, slots[y].value, w));
  }

  /** The weights of an edge between owned slots are the weights in the
      source's table entry for the destination's slot. */
  lemma EdgeIff(slots: seq<Node>, nodes: set<nat>, x: nat, y: nat)
    requires Wf(slots, nodes) && x in nodes && y in nodes
    ensures forall w :: (slots[x].value, slots[y].value, w) in AbsOf(slots, nodes).edges <==> w in slots[x].WeightsTo(y)
  {
    forall w | (slots[x].value, slots[y].value, w) in AbsOf(slots, nodes).edges
      ensures w in slots[x].WeightsTo(y)
    {
      var x', y' := EdgeSlots(slots, nodes, (slots[x].value, slots[y].value, w));
    }
  }

  lemma InsertNodeAbs(slots: seq<Node>, nodes: set<nat>, v: int)
    requires Wf(slots, nodes) && v !in AbsOf(slots, nodes).nodes
    ensures Wf(slots + [Node(v, map[])], nodes + {|slots|})
    ensures AbsOf(slots + [Node(v, map[])], nodes + {|slots|}) == AbstractGraph.InsertNode(AbsOf(slots, nodes), v)
  {
    var s2, n2 := slots + [Node(v, map[])], nodes + {|slots|};
    assert forall x :: x in nodes ==> slots[x].value in AbsOf(slots, nodes).nodes;
    assert forall x :: 0 <= x < |slots| ==> s2[x] == slots[x];
    assert Wf(s2, n2);
    var g, g2 := AbsOf(slots, nodes), AbsOf(s2, n2);
    assert g2.nodes == g.nodes + {v} by {
      assert s2[|slots|].value == v;
      forall u | u in g.nodes ensures u in g2.nodes {
        var x :| x in nodes && slots[x].value == u;
        assert s2[x].value == u;
      }
    }
    forall t | t in g2.edges ensures t in g.edges {
      var x, y := EdgeSlots(s2, n2, t);
      assert x != |slots| && y != |slots|;
      EdgeIff(slots, nodes, x, y);
    }
    forall t | t in g.edges ensures t in g2.edges {
      var x, y := EdgeSlots(slots, nodes, t);
      EdgeIff(s2, n2, x, y);
    }
  }

  lemma InsertEdgeAbs(slots: seq<Node>, nodes: set<nat>, x: nat, y: nat, w: int)
    requires Wf(slots, nodes) && x in nodes && y in nodes
    ensures Wf(slots[x := slots[x].AddEdgeTo(y, w).0], nodes)
    ensures AbsOf(slots[x := slots[x].AddEdgeTo(y, w).0], nodes) ==
            AbstractGraph.AbsGraph(AbsOf(slots, nodes).nodes, AbsOf(slots, nodes).edges + {(slots[x].value, slots[y].value, w)})
  {
    var s2 := slots[x := slots[x].AddEdgeTo(y, w).0];
    assert Wf(s2, nodes);
    var g, g2 := AbsOf(slots, nodes), AbsOf(s2, nodes);
    assert g2.nodes == g.nodes;
    forall t | t in g2.edges ensures t in g.edges + {(slots[x].value, slots[y].value, w)} {
      var x', y' := EdgeSlots(s2, nodes, t);
      EdgeIff(slots, nodes, x', y');
    }
    forall t | t in g.edges + {(slots[x].value, slots[y].value, w)} ensures t in g2.edges {
      if t in g.edges {
        var x', y' := EdgeSlots(slots, nodes, t);
        EdgeIff(s2, nodes, x', y');
      } else {
        EdgeIff(s2, nodes, x, y);
      }
    }
  }

  lemma EraseEdgeAbs(slots: seq<Node>, nodes: set<nat>, x: nat, y: nat, w: int)
    requires Wf(slots, nodes) && x in nodes && y in nodes
    ensures Wf(slots[x := slots[x].DeleteEdge(y, w).0], nodes)
    ensures AbsOf(slots[x := slots[x].DeleteEdge(y, w).0], nodes) ==
            AbstractGraph.AbsGraph(AbsOf(slots, nodes).nodes, AbsOf(slots, nodes).edges - {(slots[x].value, slots[y].value, w)})
  {
    var s2 := slots[x := slots[x].DeleteEdge(y, w).0];
    assert Wf(s2, nodes);
    var g, g2 := AbsOf(slots, nodes), AbsOf(s2, nodes);
    assert g2.nodes == g.nodes;
    forall t | t in g2.edges ensures t in g.edges - {(slots[x].value, slots[y].value, w)} {
      var x', y' := EdgeSlots(s2, nodes, t);
      EdgeIff(slots, nodes, x', y');
    }
    forall t | t in g.edges - {(slots[x].value, slots[y].value, w)} ensures t in g2.edges {
      var x', y' := EdgeSlots(slots, nodes, t);
      EdgeIff(s2, nodes, x', y');
    }
  }

  lemma DeleteNodeAbs(slots: seq<Node>, nodes: set<nat>, x: nat)
    requires Wf(slots, nodes) && x in nodes
    ensures Wf(slots, nodes - {x})
    ensures AbsOf(slots, nodes - {x}) == AbstractGraph.DeleteNode(AbsOf(slots, nodes), slots[x].value)
  {
    var g, g2 := AbsOf(slots, nodes), AbsOf(slots, nodes - {x});
    var v := slots[x].value;
    assert g2.nodes == g.nodes - {v} by {
      forall u | u in g.nodes - {v} ensures u in g2.nodes {
        var x' :| x' in nodes && slots[x'].value == u;
      }
    }
    forall t | t in g2.edges ensures t in g.edges && t.0 != v && t.1 != v {
      var x', y' := EdgeSlots(slots, nodes - {x}, t);
      EdgeIff(slots, nodes, x', y');
    }
    forall t | t in g.edges && t.0 != v && t.1 != v ensures t in g2.edges {
      var x', y' := EdgeSlots(slots, nodes, t);
      EdgeIff(slots, nodes - {x}, x', y');
    }
  }

  lemma ReplaceAbs(slots: seq<Node>, nodes: set<nat>, x: nat, newValue: int)
    requires Wf(slots, nodes) && x in nodes && newValue !in AbsOf(slots, nodes).nodes
    ensures Wf(slots[x := Node(newValue, slots[x].edgesOut)], nodes)
    ensures AbsOf(slots[x := Node(newValue, slots[x].edgesOut)], nodes) ==
            AbstractGraph.Substitute(AbsOf(slots, nodes), slots[x].value, newValue)
  {
    AbsWellFormed(slots, nodes);
    var o := slots[x].value;
    var s2 := slots[x := Node(newValue, slots[x].edgesOut)];
    assert forall z :: z in nodes ==> slots[z].value in AbsOf(slots, nodes).nodes;
    assert Wf(s2, nodes);
    var g, g2 := AbsOf(slots, nodes), AbsOf(s2, nodes);
    var sub := AbstractGraph.Substitute(g, o, newValue);
    assert g2.nodes == sub.nodes by {
      forall u | u in sub.nodes ensures u in g2.nodes {
        if u != newValue {
          var z :| z in nodes && slots[z].value == u;
        } else {
          assert s2[x].value == u;
        }
      }
    }
    forall t | t in g2.edges ensures t in sub.edges {
      ReplaceKeeps(slots, nodes, x, newValue, s2, t);
    }
    forall t | t in sub.edges ensures t in g2.edges {
      ReplaceGains(slots, nodes, x, newValue, s2, t);
    }
  }

  lemma ReplaceKeeps(slots: seq<Node>, nodes: set<nat>, x: nat, newValue: int, s2: seq<Node>, t: Triple)
    requires Wf(slots, nodes) && x in nodes && newValue !in AbsOf(slots, nodes).nodes
    requires s2 == slots[x := Node(newValue, slots[x].edgesOut)] && Wf(s2, nodes)
    requires t in AbsOf(s2, nodes).edges
    ensures AbstractGraph.WellFormed(AbsOf(slots, nodes)) && t in AbstractGraph.Substitute(AbsOf(slots, nodes), slots[x].value, newValue).edges
  {
    AbsWellFormed(slots, nodes);
    var o := slots[x].value;
    var a, b := EdgeSlots(s2, nodes, t);
    EdgeOf(slots, nodes, a, b, t.2);
    assert (AbstractGraph.Rename(slots[a].value, o, newValue), AbstractGraph.Rename(slots[b].value, o, newValue), t.2) == t;
  }

  lemma ReplaceGains(slots: seq<Node>, nodes: set<nat>, x: nat, newValue: int, s2: seq<Node>, t: Triple)
    requires Wf(slots, nodes) && x in nodes && newValue !in AbsOf(slots, nodes).nodes
    requires s2 == slots[x := Node(newValue, slots[x].edgesOut)] && Wf(s2, nodes)
    requires AbstractGraph.WellFormed(AbsOf(slots, nodes))
    requires t in AbstractGraph.Substitute(AbsOf(slots, nodes), slots[x].value, newValue).edges
    ensures t in AbsOf(s2, nodes).edges
  {
    var o := slots[x].value;
    var s :| s in AbsOf(slots, nodes).edges && t == (AbstractGraph.Rename(s.0, o, newValue), AbstractGraph.Rename(s.1, o, newValue), s.2);
    var a, b := EdgeSlots(slots, nodes, s);
    assert s2[a].value == AbstractGraph.Rename(slots[a].value, o, newValue);
    assert s2[b].value == AbstractGraph.Rename(slots[b].value, o, newValue);
    EdgeOf(s2, nodes, a, b, s.2);
  }

  /** Substituting a node's value by itself changes nothing. */
  lemma SubstituteSelf(g: AbstractGraph.AbsGraph, v: int)
    requires AbstractGraph.WellFormed(g) && v in g.nodes
    ensures AbstractGraph.Substitute(g, v, v) == g
  {
    var r := AbstractGraph.Substitute(g, v, v);
    forall t | t in g.edges ensures t in r.edges {
      assert t == (AbstractGraph.Rename(t.0, v, v), AbstractGraph.Rename(t.1, v, v), t.2);
    }
  }

  /** The slots after MergeReplace's two passes: every table has its entry
      for the old slot folded into the entry for the new slot, and the new
      node's table has the old node's table merged into it. */
  ghost predicate Merged(slots: seq<Node>, s2: seq<Node>, xo: nat, xn: nat)
    requires Wf(slots, {}) && xo < |slots| && xn < |slots| && xo != xn
  {
    && |s2| == |slots|
    && (forall z :: 0 <= z < |slots| && z != xn ==> s2[z] == slots[z].Redirect(xo, xn))
    && s2[xn] == slots[xn].Redirect(xo, xn).Absorb(slots[xo].Redirect(xo, xn))
  }

  lemma WfOfNoNodes(slots: seq<Node>, nodes: set<nat>)
    requires Wf(slots, nodes)
    ensures Wf(slots, {})
  {
  }

  /** The weights from x to y after the merge, in terms of the old tables. */
  lemma MergedWeights(slots: seq<Node>, s2: seq<Node>, xo: nat, xn: nat, x: nat, y: nat, u: int)
    requires Wf(slots, {}) && xo < |slots| && xn < |slots| && xo != xn && Merged(slots, s2, xo, xn)
    requires x < |slots| && x != xo && y != xo
    ensures u in s2[x].WeightsTo(y) <==>
            u in slots[x].WeightsTo(y)
            || (y == xn && u in slots[x].WeightsTo(xo))
            || (x == xn && u in slots[xo].WeightsTo(y))
            || (x == xn && y == xn && u in slots[xo].WeightsTo(xo))
  {
    var rx := slots[x].Redirect(xo, xn);
    var ro := slots[xo].Redirect(xo, xn);
    if x == xn {
      assert s2[x] == rx.Absorb(ro);
      assert u in s2[x].WeightsTo(y) <==> u in rx.WeightsTo(y) || u in ro.WeightsTo(y);
    } else {
      assert s2[x] == rx;
    }
  }

  lemma MergeAbs(slots: seq<Node>, nodes: set<nat>, s2: seq<Node>, xo: nat, xn: nat)
    requires Wf(slots, nodes) && xo in nodes && xn in nodes && xo != xn
    requires Wf(slots, {}) && Merged(slots, s2, xo, xn)
    ensures Wf(s2, nodes - {xo})
    ensures AbsOf(s2, nodes - {xo}) == AbstractGraph.Substitute(AbsOf(slots, nodes), slots[xo].value, slots[xn].value)
  {
    var n2 := nodes - {xo};
    var o, n := slots[xo].value, slots[xn].value;
    assert forall z :: 0 <= z < |slots| ==> s2[z].value == slots[z].value;
    assert Wf(s2, n2);
    AbsWellFormed(slots, nodes);
    var g, g2 := AbsOf(slots, nodes), AbsOf(s2, n2);
    var sub := AbstractGraph.Substitute(g, o, n);
    assert g2.nodes == sub.nodes by {
      forall u | u in sub.nodes ensures u in g2.nodes {
        if u != n {
          var z :| z in nodes && slots[z].value == u;
          assert s2[z].value == u;
        } else {
          assert s2[xn].value == u;
        }
      }
    }
    forall t | t in g2.edges ensures t in sub.edges {
      MergeKeeps(slots, nodes, s2, xo, xn, t);
    }
    forall t | t in sub.edges ensures t in g2.edges {
      MergeGains(slots, nodes, s2, xo, xn, t);
    }
  }

  lemma MergeKeeps(slots: seq<Node>, nodes: set<nat>, s2: seq<Node>, xo: nat, xn: nat, t: Triple)
    requires Wf(slots, nodes) && xo in nodes && xn in nodes && xo != xn
    requires Wf(slots, {}) && Merged(slots, s2, xo, xn) && Wf(s2, nodes - {xo})
    requires t in AbsOf(s2, nodes - {xo}).edges
    ensures t in AbstractGraph.Substitute(AbsOf(slots, nodes), slots[xo].value, slots[xn].value).edges
  {
    AbsWellFormed(slots, nodes);
    var g := AbsOf(slots, nodes);
    var a, b := EdgeSlots(s2, nodes - {xo}, t);
    assert s2[a].value == slots[a].value && s2[b].value == slots[b].value;
    AbstractGraph.MergeEdges(g, slots[xo].value, slots[xn].value, t.0, t.1, t.2);
    MergedWeights(slots, s2, xo, xn, a, b, t.2);
    EdgeIff(slots, nodes, a, b);
    EdgeIff(slots, nodes, a, xo);
    EdgeIff(slots, nodes, xo, b);
    EdgeIff(slots, nodes, xo, xo);
  }

  lemma MergeGains(slots: seq<Node>, nodes: set<nat>, s2: seq<Node>, xo: nat, xn: nat, t: Triple)
    requires Wf(slots, nodes) && xo in nodes && xn in nodes && xo != xn
    requires Wf(slots, {}) && Merged(slots, s2, xo, xn) && Wf(s2, nodes - {xo})
    requires t in AbstractGraph.Substitute(AbsOf(slots, nodes), slots[xo].value, slots[xn].value).edges
    ensures t in AbsOf(s2, nodes - {xo}).edges
  {
    var a, b := GainedSlots(slots, nodes, s2, xo, xn, t);
    EdgeOf(s2, nodes - {xo}, a, b, t.2);
  }

  /** The owned slots after the merge that a triple of the merged graph
      comes from, and its weight in their entry. */
  lemma GainedSlots(slots: seq<Node>, nodes: set<nat>, s2: seq<Node>, xo: nat, xn: nat, t: Triple)
    returns (a: nat, b: nat)
    requires Wf(slots, nodes) && xo in nodes && xn in nodes && xo != xn
    requires Wf(slots, {}) && Merged(slots, s2, xo, xn)
    requires t in AbstractGraph.Substitute(AbsOf(slots, nodes), slots[xo].value, slots[xn].value).edges
    ensures a in nodes - {xo} && b in nodes - {xo} && s2[a].value == t.0 && s2[b].value == t.1
    ensures t.2 in s2[a].WeightsTo(b)
  {
    AbsWellFormed(slots, nodes);
    AbstractGraph.MergeEdges(AbsOf(slots, nodes), slots[xo].value, slots[xn].value, t.0, t.1, t.2);
    var sub := AbstractGraph.Substitute(AbsOf(slots, nodes), slots[xo].value, slots[xn].value);
    assert (t.0, t.1, t.2) == t;
    assert t.0 in sub.nodes && t.1 in sub.nodes;
    assert slots[xn].value in AbsOf(slots, nodes).nodes;
    a, b := GainedFrom(slots, nodes, s2, xo, xn, t);
  }

  /** The owned slots of the two ends of a triple the merge gains. */
  lemma GainedFrom(slots: seq<Node>, nodes: set<nat>, s2: seq<Node>, xo: nat, xn: nat, t: Triple)
    returns (a: nat, b: nat)
    requires Wf(slots, nodes) && xo in nodes && xn in nodes && xo != xn
    requires Wf(slots, {}) && Merged(slots, s2, xo, xn)
    requires t.0 in AbsOf(slots, nodes).nodes && t.1 in AbsOf(slots, nodes).nodes
    requires t.0 != slots[xo].value && t.1 != slots[xo].value
    requires (t.0, t.1, t.2) in AbsOf(slots, nodes).edges
             || (t.0 == slots[xn].value && (slots[xo].value, t.1, t.2) in AbsOf(slots, nodes).edges)
             || (t.1 == slots[xn].value && (t.0, slots[xo].value, t.2) in AbsOf(slots, nodes).edges)
             || (t.0 == slots[xn].value && t.1 == slots[xn].value && (slots[xo].value, slots[xo].value, t.2) in AbsOf(slots, nodes).edges)
    ensures a in nodes - {xo} && b in nodes - {xo} && s2[a].value == t.0 && s2[b].value == t.1
    ensures t.2 in s2[a].WeightsTo(b)
  {
    a :| a in nodes && slots[a].value == t.0;
    b :| b in nodes && slots[b].value == t.1;
    assert s2[a].value == slots[a].value && s2[b].value == slots[b].value;
    GainedWeight(slots, nodes, s2, xo, xn, a, b, t);
  }

  /** A triple the merged graph has from slot a to slot b, in terms of the
      four old entries it may come from. */
  lemma GainedWeight(slots: seq<Node>, nodes: set<nat>, s2: seq<Node>, xo: nat, xn: nat, a: nat, b: nat, t: Triple)
    requires Wf(slots, nodes) && xo in nodes && xn in nodes && xo != xn
    requires Wf(slots, {}) && Merged(slots, s2, xo, xn)
    requires a in nodes && b in nodes && a != xo && b != xo && slots[a].value == t.0 && slots[b].value == t.1
    requires (t.0, t.1, t.2) in AbsOf(slots, nodes).edges
             || (t.0 == slots[xn].value && (slots[xo].value, t.1, t.2) in AbsOf(slots, nodes).edges)
             || (t.1 == slots[xn].value && (t.0, slots[xo].value, t.2) in AbsOf(slots, nodes).edges)
             || (t.0 == slots[xn].value && t.1 == slots[xn].value && (slots[xo].value, slots[xo].value, t.2) in AbsOf(slots, nodes).edges)
    ensures t.2 in s2[a].WeightsTo(b)
  {
    MergedWeights(slots, s2, xo, xn, a, b, t.2);
    if (t.0, t.1, t.2) in AbsOf(slots, nodes).edges {
      EdgeWeight(slots, nodes, a, b, t.2);
    } else if t.0 == slots[xn].value && (slots[xo].value, t.1, t.2) in AbsOf(slots, nodes).edges {
      assert a == xn;
      EdgeWeight(slots, nodes, xo, b, t.2);
    } else if t.1 == slots[xn].value && (t.0, slots[xo].value, t.2) in AbsOf(slots, nodes).edges {
      assert b == xn;
      EdgeWeight(slots, nodes, a, xo, t.2);
    } else {
      assert a == xn && b == xn;
      EdgeWeight(slots, nodes, xo, xo, t.2);
    }
  }

  /** The graph. */
  class Graph {
    var slots: seq<Node>
    var nodes: set<nat>

    ghost predicate Valid()
      reads this
    {
      Wf(slots, nodes)
    }

    /** The abstract graph this object denotes. */
    ghost function Abs(): AbstractGraph.AbsGraph
      reads this
      requires Valid()
    {
      AbsOf(slots, nodes)
    }

    /** Graph(): the empty graph. */
    constructor ()
      ensures Valid() && Abs() == AbstractGraph.Empty()
    {
      slots, nodes := [], {};
    }

    /** CompareByValue on two destination references (graph.h:25-29): both
        must resolve, and then they compare by the values they hold. */
    predicate CompareByValue(x: nat, y: nat)
      reads this
    {
      x in nodes && y in nodes && x < |slots| && y < |slots| && slots[x].value < slots[y].value
    }

    /** On the references of owned nodes CompareByValue is a strict total
        order: irreflexive, asymmetric and transitive, and two distinct
        nodes always compare one way, since their values
        differ. A reference whose node is gone compares below nothing and
        nothing compares below it. */
    lemma CompareByValueOrder(x: nat, y: nat, z: nat)
      requires Valid()
      ensures !CompareByValue(x, x)
      ensures CompareByValue(x, y) && CompareByValue(y, z) ==> CompareByValue(x, z)
      ensures x in nodes && y in nodes ==> (x == y <==> !CompareByValue(x, y) && !CompareByValue(y, x))
      ensures CompareByValue(x, y) ==> !CompareByValue(y, x)
      ensures x !in nodes ==> !CompareByValue(x, y) && !CompareByValue(y, x)
    {
      if x in nodes && y in nodes && x != y {
        assert slots[x].value != slots[y].value;
      }
    }

    /** The slot holding value v. */
    function SlotOf(v: int): (r: Option<nat>)
      reads this
      requires Valid()
      ensures r.Some? <==> v in Abs().nodes
      ensures r.Some? ==> r.value in nodes && slots[r.value].value == v
    {
      NodeIff(slots, nodes);
      SlotFrom(slots, nodes, v, 0)
    }

    function IsNode(v: int): (b: bool)
      reads this
      requires Valid()
      ensures b <==> v in Abs().nodes
    {
      SlotOf(v).Some?
    }

    /** The node values in ascending order. */
    function GetNodes(): (r: seq<int>)
      reads this
      requires Valid()
      ensures Increasing(r)
      ensures forall v :: v in r <==> v in Abs().nodes
    {
      NodeIff(slots, nodes);
      Sorted(LiveValuesFrom(slots, nodes, 0))
    }

    function IsConnected(src: int, dst: int): (r: Result<bool>)
      reads this
      requires Valid()
      ensures r.Ok? <==> src in Abs().nodes && dst in Abs().nodes
      ensures r.Ok? ==> (r.value <==> exists w :: (src, dst, w) in Abs().edges)
    {
      match (SlotOf(src), SlotOf(dst))
      case (Some(x), Some(y)) =>
        EdgeIff(slots, nodes, x, y);
        assert y in slots[x].edgesOut ==> slots[x].WeightsTo(y)[0] in slots[x].WeightsTo(y);
        Ok(y in slots[x].edgesOut)
      case _ => NotFound
    }

    /** The destinations of src's edges, in ascending order. */
    function GetConnected(src: int): (r: Result<seq<int>>)
      reads this
      requires Valid()
      ensures r.Ok? <==> src in Abs().nodes
      ensures r.Ok? ==> Increasing(r.value)
      ensures r.Ok? ==> forall dst :: dst in r.value <==> exists w :: (src, dst, w) in Abs().edges
    {
      match SlotOf(src)
      case Some(x) =>
        var cs := Sorted(DestValuesFrom(slots, nodes, x, 0));
        ConnectedIff(x, cs);
        Ok(cs)
      case None => NotFound
    }

    lemma ConnectedIff(x: nat, cs: seq<int>)
      requires Valid() && x in nodes
      requires forall v :: v in cs <==> SlotFrom(slots, nodes, v, 0).Some? && SlotFrom(slots, nodes, v, 0).value in slots[x].edgesOut
      ensures forall dst :: dst in cs <==> exists w :: (slots[x].value, dst, w) in Abs().edges
    {
      NodeIff(slots, nodes);
      forall dst ensures dst in cs <==> exists w :: (slots[x].value, dst, w) in Abs().edges {
        var r := SlotFrom(slots, nodes, dst, 0);
        if r.Some? {
          EdgeIff(slots, nodes, x, r.value);
          if r.value in slots[x].edgesOut {
            assert slots[x].WeightsTo(r.value)[0] in slots[x].WeightsTo(r.value);
          }
        } else {
          AbsWellFormed(slots, nodes);
        }
      }
    }

    /** The weights of the edges src -> dst, in ascending order; empty when
        the two nodes are not connected. */
    function GetWeights(src: int, dst: int): (r: Result<seq<int>>)
      reads this
      requires Valid()
      ensures r.Ok? <==> src in Abs().nodes && dst in Abs().nodes
      ensures r.Ok? ==> Increasing(r.value)
      ensures r.Ok? ==> forall w :: w in r.value <==> (src, dst, w) in Abs().edges
    {
      match (SlotOf(src), SlotOf(dst))
      case (Some(x), Some(y)) =>
        EdgeIff(slots, nodes, x, y);
        Ok(slots[x].WeightsTo(y))
      case _ => NotFound
    }

    /** The entries of slot x's table for owned destinations, ordered by
        destination value (Node::EdgesWeights, read through CompareByValue). */
    function EntriesOf(x: nat): (r: seq<Entry>)
      reads this
      requires Valid() && x in nodes
      ensures OrderedRow(r)
      ensures forall t: Triple :: t.0 == slots[x].value ==> (t in RowTriples(t.0, r) <==> t in Abs().edges)
    {
      var cs := Sorted(DestValuesFrom(slots, nodes, x, 0));
      NodeIff(slots, nodes);
      var sl, nd := slots, nodes;
      assert forall j :: 0 <= j < |cs| ==> cs[j] in cs;
      var r := seq(|cs|, j requires 0 <= j < |cs| && SlotFrom(sl, nd, cs[j], 0).Some? =>
        Entry(cs[j], sl[x].WeightsTo(SlotFrom(sl, nd, cs[j], 0).value)));
      EntriesIff(x, cs, r);
      r
    }

    lemma EntriesIff(x: nat, cs: seq<int>, r: seq<Entry>)
      requires Valid() && x in nodes
      requires forall v :: v in cs <==> SlotFrom(slots, nodes, v, 0).Some? && SlotFrom(slots, nodes, v, 0).value in slots[x].edgesOut
      requires |r| == |cs|
      requires forall j :: 0 <= j < |cs| ==> (SlotFrom(slots, nodes, cs[j], 0).Some? &&
                 r[j] == Entry(cs[j], slots[x].WeightsTo(SlotFrom(slots, nodes, cs[j], 0).value)))
      ensures forall t: Triple :: t.0 == slots[x].value ==> (t in RowTriples(t.0, r) <==> t in Abs().edges)
    {
      AbsWellFormed(slots, nodes);
      NodeIff(slots, nodes);
      forall t: Triple | t.0 == slots[x].value ensures t in RowTriples(t.0, r) <==> t in Abs().edges {
        RowMemberIff(t.0, r, t);
        if t in Abs().edges {
          var y := SlotFrom(slots, nodes, t.1, 0).value;
          EdgeIff(slots, nodes, x, y);
          assert t.1 in cs;
          var j :| 0 <= j < |cs| && cs[j] == t.1;
          assert r[j].dst == t.1 && t.2 in r[j].weights;
        }
        if t in RowTriples(t.0, r) {
          var j :| 0 <= j < |r| && r[j].dst == t.1 && t.2 in r[j].weights;
          var y := SlotFrom(slots, nodes, cs[j], 0).value;
          EdgeIff(slots, nodes, x, y);
        }
      }
    }

    /** The rows of the given nodes, in the given order. */
    function RowsOf(ns: seq<int>): (r: View)
      reads this
      requires Valid() && forall v :: v in ns ==> v in Abs().nodes
      ensures |r| == |ns|
      ensures forall i :: 0 <= i < |ns| ==> SlotOf(ns[i]).Some? && r[i] == Row(ns[i], EntriesOf(SlotOf(ns[i]).value))
    {
      if ns == [] then []
      else
        assert ns[0] in ns;
        var rest := RowsOf(ns[1..]);
        var r := [Row(ns[0], EntriesOf(SlotOf(ns[0]).value))] + rest;
        assert forall i :: 1 <= i < |ns| ==> ns[i] == ns[1..][i - 1] && r[i] == rest[i - 1];
        r
    }

    /** What the iterator walks: every node in ascending order with its
        entries. */
    function View(): (r: View)
      reads this
      requires Valid()
      ensures OrderedView(r)
      ensures forall t :: t in Flatten(r) <==> t in Abs().edges
    {
      var ns := GetNodes();
      var r := RowsOf(ns);
      ViewIff(ns, r);
      r
    }

    lemma ViewIff(ns: seq<int>, r: View)
      requires Valid()
      requires Increasing(ns) && forall v :: v in ns <==> v in Abs().nodes
      requires |r| == |ns|
      requires forall i :: 0 <= i < |ns| ==> SlotOf(ns[i]).Some? && r[i] == Row(ns[i], EntriesOf(SlotOf(ns[i]).value))
      ensures OrderedView(r)
      ensures forall t :: t in Flatten(r) <==> t in Abs().edges
    {
      forall t ensures t in Flatten(r) <==> t in Abs().edges {
        ViewMember(ns, r, t);
      }
    }

    lemma ViewMember(ns: seq<int>, r: View, t: Triple)
      requires Valid()
      requires forall v :: v in ns <==> v in Abs().nodes
      requires |r| == |ns|
      requires forall i :: 0 <= i < |ns| ==> SlotOf(ns[i]).Some? && r[i] == Row(ns[i], EntriesOf(SlotOf(ns[i]).value))
      ensures t in Flatten(r) <==> t in Abs().edges
    {
      FlattenRowIff(r, t);
      if t in Abs().edges {
        AbsWellFormed(slots, nodes);
        assert t.0 in ns;
        var i :| 0 <= i < |ns| && ns[i] == t.0;
        assert t in RowTriples(r[i].src, r[i].entries);
      }
      if t in Flatten(r) {
        var i :| 0 <= i < |r| && t in RowTriples(r[i].src, r[i].entries);
        RowMemberIff(r[i].src, r[i].entries, t);
      }
    }

    /** The triples in iteration order: ascending in (src, dst, weight),
        each edge once. */
    function Triples(): (r: seq<Triple>)
      reads this
      requires Valid()
      ensures LexIncreasing(r)
      ensures forall t :: t in r <==> t in Abs().edges
    {
      FlattenOrdered(View());
      Flatten(View())
    }

    /** InsertNode: false, and nothing changes, when the value is present. */
    method InsertNode(v: int) returns (b: bool)
      requires Valid()
      modifies this
      ensures Valid()
      ensures b <==> v !in old(Abs()).nodes
      ensures Abs() == AbstractGraph.InsertNode(old(Abs()), v)
    {
      if IsNode(v) {
        assert AbstractGraph.InsertNode(Abs(), v) == Abs();
        return false;
      }
      InsertNodeAbs(slots, nodes, v);
      slots, nodes := slots + [Node(v, map[])], nodes + {|slots|};
      b := true;
    }

    /** InsertEdge: NotFound when an endpoint is missing; otherwise adds the
        triple and reports whether it was new. */
    method InsertEdge(src: int, dst: int, w: int) returns (r: Result<bool>)
      requires Valid()
      modifies this
      ensures Valid()
      ensures r.Ok? <==> src in old(Abs()).nodes && dst in old(Abs()).nodes
      ensures r.NotFound? ==> Abs() == old(Abs())
      ensures r.Ok? ==> Abs() == AbstractGraph.InsertEdge(old(Abs()), (src, dst, w))
      ensures r.Ok? ==> (r.value <==> (src, dst, w) !in old(Abs()).edges)
    {
      var sx, sy := SlotOf(src), SlotOf(dst);
      if sx.None? || sy.None? {
        return NotFound;
      }
      var x, y := sx.value, sy.value;
      EdgeIff(slots, nodes, x, y);
      InsertEdgeAbs(slots, nodes, x, y, w);
      var res := slots[x].AddEdgeTo(y, w);
      slots := slots[x := res.0];
      r := Ok(res.1);
    }

    /** DeleteNode: false when absent; otherwise the node and every edge at
        it are gone. Only the owner set changes. */
    method DeleteNode(v: int) returns (b: bool)
      requires Valid()
      modifies this
      ensures Valid()
      ensures b <==> v in old(Abs()).nodes
      ensures b ==> Abs() == AbstractGraph.DeleteNode(old(Abs()), v)
      ensures !b ==> Abs() == old(Abs())
      ensures slots == old(slots)
    {
      var s := SlotOf(v);
      if s.None? {
        return false;
      }
      DeleteNodeAbs(slots, nodes, s.value);
      nodes := nodes - {s.value};
      b := true;
    }

    /** Replace: NotFound when old is absent; false, and nothing changes,
        when new is present; otherwise the node takes the new value and only
        that slot's value changes. */
    method Replace(oldValue: int, newValue: int) returns (r: Result<bool>)
      requires Valid()
      modifies this
      ensures Valid()
      ensures r.Ok? <==> oldValue in old(Abs()).nodes
      ensures r.Ok? ==> (r.value <==> newValue !in old(Abs()).nodes)
      ensures !(r.Ok? && r.value) ==> Abs() == old(Abs())
      ensures r.Ok? && r.value ==> Abs() == AbstractGraph.Substitute(old(Abs()), oldValue, newValue)
      ensures nodes == old(nodes) && |slots| == |old(slots)|
      ensures forall z :: 0 <= z < |slots| ==> slots[z].edgesOut == old(slots[z].edgesOut)
    {
      var s := SlotOf(oldValue);
      if s.None? {
        return NotFound;
      }
      if IsNode(newValue) {
        return Ok(false);
      }
      var x := s.value;
      ReplaceAbs(slots, nodes, x, newValue);
      slots := slots[x := Node(newValue, slots[x].edgesOut)];
      r := Ok(true);
    }

    /** MergeReplace: NotFound when either node is absent; otherwise new
        absorbs every edge of old and old is removed. */
    method MergeReplace(oldValue: int, newValue: int) returns (r: Result<()>)
      requires Valid()
      modifies this
      ensures Valid()
      ensures r.Ok? <==> oldValue in old(Abs()).nodes && newValue in old(Abs()).nodes
      ensures r.NotFound? ==> Abs() == old(Abs())
      ensures r.Ok? ==> Abs() == AbstractGraph.Substitute(old(Abs()), oldValue, newValue)
    {
      var so, sn := SlotOf(oldValue), SlotOf(newValue);
      if so.None? || sn.None? {
        return NotFound;
      }
      var xo, xn := so.value, sn.value;
      if xo == xn {
        AbsWellFormed(slots, nodes);
        SubstituteSelf(Abs(), oldValue);
        return Ok(());
      }
      ghost var s0, n0 := slots, nodes;
      WfOfNoNodes(slots, nodes);
      var i := 0;
      while i < |slots|
        invariant 0 <= i <= |slots| == |s0| && nodes == n0
        invariant forall z :: 0 <= z < i ==> slots[z] == s0[z].Redirect(xo, xn)
        invariant forall z :: i <= z < |slots| ==> slots[z] == s0[z]
      {
        slots := slots[i := slots[i].Redirect(xo, xn)];
        i := i + 1;
      }
      slots := slots[xn := slots[xn].Absorb(slots[xo])];
      MergeAbs(s0, nodes, slots, xo, xn);
      nodes := nodes - {xo};
      r := Ok(());
    }

    /** Clear: no nodes and no edges remain. */
    method Clear()
      requires Valid()
      modifies this
      ensures Valid() && Abs() == AbstractGraph.Empty()
    {
      slots, nodes := [], {};
    }

    /** erase(src, dst, w): false when either node or the edge is absent;
        otherwise only that one triple is removed. */
    method Erase(src: int, dst: int, w: int) returns (b: bool)
      requires Valid()
      modifies this
      ensures Valid()
      ensures b <==> (src, dst, w) in old(Abs()).edges
      ensures Abs() == AbstractGraph.EraseEdge(old(Abs()), (src, dst, w))
    {
      AbsWellFormed(slots, nodes);
      var sx, sy := SlotOf(src), SlotOf(dst);
      if sx.None? || sy.None? {
        assert AbstractGraph.EraseEdge(Abs(), (src, dst, w)) == Abs();
        return false;
      }
      var x, y := sx.value, sy.value;
      EdgeIff(slots, nodes, x, y);
      EraseEdgeAbs(slots, nodes, x, y, w);
      var res := slots[x].DeleteEdge(y, w);
      slots := slots[x := res.0];
      b := res.1;
    }

    /** begin(): an iterator at the first triple, or at the end of an
        edgeless graph. */
    method Begin() returns (it: ConstIterator)
      requires Valid()
      ensures fresh(it) && it.Valid() && it.view == View()
      ensures it.Pos() == 0
    {
      OffsetStart(View());
      it := new ConstIterator(View(), 0, 0, 0);
      it.SeekForward();
    }

    /** end(): the iterator one past the last triple. */
    method End() returns (it: ConstIterator)
      requires Valid()
      ensures fresh(it) && it.Valid() && it.view == View()
      ensures it.AtEnd() && it.Pos() == |Triples()|
    {
      it := new ConstIterator(View(), |View()|, 0, 0);
    }

    /** find(src, dst, w): an iterator at that triple, or the end when it is
        not an edge (including when a node is missing). */
    method Find(src: int, dst: int, w: int) returns (it: ConstIterator)
      requires Valid()
      ensures fresh(it) && it.Valid() && it.view == View()
      ensures (src, dst, w) in Abs().edges ==> !it.AtEnd() && it.Deref() == (src, dst, w)
      ensures (src, dst, w) !in Abs().edges ==> it.AtEnd()
    {
      var v := View();
      var i, j, k := Locate(v, (src, dst, w));
      it := new ConstIterator(v, i, j, k);
    }

    /** erase(it): removes the triple at `it` and returns an iterator at the
        triple that followed it, or the end when it was the last one. The
        triples after erasure are the old ones less that one, so the result
        stands at the erased triple's index. */
    method EraseAt(it: ConstIterator) returns (next: ConstIterator)
      requires Valid() && it.Valid() && it.view == View() && !it.AtEnd()
      modifies this
      ensures Valid()
      ensures Abs() == AbstractGraph.EraseEdge(old(Abs()), old(it.Deref()))
      ensures old(it.Deref()) == old(Triples()[it.Pos()])
      ensures Triples() == old(Triples()[..it.Pos()] + Triples()[it.Pos() + 1..])
      ensures fresh(next) && next.Valid() && next.view == View()
      ensures next.Pos() == old(it.Pos())
      ensures old(it.Pos()) + 1 < old(|Triples()|) ==> !next.AtEnd() && next.Deref() == old(Triples()[it.Pos() + 1])
      ensures old(it.Pos()) + 1 == old(|Triples()|) ==> next.AtEnd()
    {
      var p := it.Pos();
      var before := Triples();
      ghost var e0 := Abs().edges;
      var t := it.Deref();
      var more := p + 1 < |before|;
      var u: Triple := if more then before[p + 1] else (0, 0, 0);
      var erased := Erase(t.0, t.1, t.2);
      ghost var now := Triples();
      RemoveAtIndex(before, p, now, e0, Abs().edges);
      if more {
        next := Find(u.0, u.1, u.2);
        LexIndexUnique(now, next.Pos(), p);
      } else {
        next := End();
      }
    }
  }

  /** The triples left after erasing the one at index p are the old ones
      without it; the one after it moves to index p. */
  lemma RemoveAtIndex(before: seq<Triple>, p: nat, now: seq<Triple>, e0: set<Triple>, e1: set<Triple>)
    requires LexIncreasing(before) && p < |before| && LexIncreasing(now)
    requires forall x :: x in before <==> x in e0
    requires forall x :: x in now <==> x in e1
    requires e1 == e0 - {before[p]}
    ensures now == before[..p] + before[p + 1..]
    ensures |now| + 1 == |before|
    ensures p + 1 < |before| ==> now[p] == before[p + 1]
  {
    RemoveAt(before, p);
    LexIncreasingUnique(now, before[..p] + before[p + 1..]);
  }

  /** Graphs with the same edges iterate the same triples, in the same order,
      whatever order they were built in. */
  lemma TriplesDetermined(g1: Graph, g2: Graph)
    requires g1.Valid() && g2.Valid() && g1.Abs().edges == g2.Abs().edges
    ensures g1.Triples() == g2.Triples()
  {
    LexIncreasingUnique(g1.Triples(), g2.Triples());
  }

  /** Iteration visits the edges in ascending order. */
  lemma TriplesListing(g: Graph)
    requires g.Valid()
    ensures g.Triples() == Listing(g.Abs().edges)
  {
    LexIncreasingUnique(g.Triples(), Listing(g.Abs().edges));
  }

  /** Iteration visits as many triples as the graph has edges. */
  lemma TriplesCount(g: Graph)
    requires g.Valid()
    ensures |g.Triples()| == |g.Abs().edges|
  {
    LexDistinctCard(g.Triples());
    assert (set t | t in g.Triples()) == g.Abs().edges;
  }
}
