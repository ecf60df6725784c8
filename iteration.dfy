/** The flattening iterator. A View is what the iterator walks: the graph's
    nodes in ascending order, each with its destination entries in ascending
    order, each with its ordered weights. The iterator is a three-level cursor
    (node, destination entry, weight) into a View; Position gives the index in
    the flattened triple sequence that a cursor denotes. */
module Iteration {
  import opened Ordered

  /** One destination entry of a node's outgoing table, with its weights. */
  datatype Entry = Entry(dst: int, weights: seq<int>)

  /** One node and its destination entries. */
  datatype Row = Row(src: int, entries: seq<Entry>)

  type View = seq<Row>

  /** The triples of one entry: one per weight, in order. */
  function EntryTriples(src: int, e: Entry): seq<Triple> {
    seq(|e.weights|, k requires 0 <= k < |e.weights| => (src, e.dst, e.weights[k]))
  }

  function RowTriples(src: int, es: seq<Entry>): seq<Triple> {
    if es == [] then [] else RowTriples(src, es[..|es| - 1]) + EntryTriples(src, es[|es| - 1])
  }

  /** All (src, dst, weight) triples of a View, row by row, entry by entry. */
  function Flatten(v: View): seq<Triple> {
    if v == [] then [] else Flatten(v[..|v| - 1]) + RowTriples(v[|v| - 1].src, v[|v| - 1].entries)
  }

  /** Nodes ascending, destinations ascending within a node, weights
      ascending within an entry: how the graph's containers are ordered. */
  predicate OrderedRow(es: seq<Entry>) {
    && (forall j, j' :: 0 <= j < j' < |es| ==> es[j].dst < es[j'].dst)
    && (forall j :: 0 <= j < |es| ==> Increasing(es[j].weights))
  }

  predicate OrderedView(v: View) {
    && (forall i, i' :: 0 <= i < i' < |v| ==> v[i].src < v[i'].src)
    && (forall i :: 0 <= i < |v| ==> OrderedRow(v[i].entries))
  }

  /** A cursor that denotes a triple. */
  predicate At(v: View, i: nat, j: nat, k: nat) {
    i < |v| && j < |v[i].entries| && k < |v[i].entries[j].weights|
  }

  /** A cursor an iterator can hold: one that denotes a triple, or the end,
      where the destination and weight cursors mean nothing. */
  predicate Canonical(v: View, i: nat, j: nat, k: nat) {
    At(v, i, j, k) || i == |v|
  }

  function TripleAt(v: View, i: nat, j: nat, k: nat): Triple
    requires At(v, i, j, k)
  {
    (v[i].src, v[i].entries[j].dst, v[i].entries[j].weights[k])
  }

  /** A node and entry cursor a search may stand on: an entry of a node,
      one past a node's last entry, or the end. */
  predicate Seekable(v: View, i: nat, j: nat) {
    i <= |v| && (i < |v| ==> j <= |v[i].entries|)
  }

  /** The number of triples before entry j of node i. */
  function Offset(v: View, i: nat, j: nat): nat
    requires Seekable(v, i, j)
  {
    if i == |v| then |Flatten(v)| else |Flatten(v[..i])| + |RowTriples(v[i].src, v[i].entries[..j])|
  }

  function Position(v: View, i: nat, j: nat, k: nat): nat
    requires Canonical(v, i, j, k)
  {
    Offset(v, i, if i == |v| then 0 else j) + k * (if i == |v| then 0 else 1)
  }

  /** Three-level short-circuit equality of cursors: the node cursors agree
      and, unless at the end, the entry cursors agree and, unless at the
      end of the node's entries, the weight cursors agree. */
  predicate SameCursor(v: View, i1: nat, j1: nat, k1: nat, i2: nat, j2: nat, k2: nat)
    requires i1 <= |v|
  {
    i1 == i2 && (i1 == |v| || (j1 == j2 && (j1 == |v[i1].entries| || k1 == k2)))
  }

  lemma {:induction false} RowConcat(src: int, a: seq<Entry>, b: seq<Entry>)
    ensures RowTriples(src, a + b) == RowTriples(src, a) + RowTriples(src, b)
    decreases |b|
  {
    if b != [] {
      var b' := b[..|b| - 1];
      assert (a + b)[..|a + b| - 1] == a + b';
      assert (a + b)[|a + b| - 1] == b[|b| - 1];
      RowConcat(src, a, b');
    } else {
      assert a + b == a;
    }
  }

  lemma {:induction false} FlattenConcat(a: View, b: View)
    ensures Flatten(a + b) == Flatten(a) + Flatten(b)
    decreases |b|
  {
    if b != [] {
      var b' := b[..|b| - 1];
      assert (a + b)[..|a + b| - 1] == a + b';
      assert (a + b)[|a + b| - 1] == b[|b| - 1];
      FlattenConcat(a, b');
    } else {
      assert a + b == a;
    }
  }

  /** Stepping over entry j of node i moves the offset by its weight count. */
  lemma SkipEntry(v: View, i: nat, j: nat)
    requires i < |v| && j < |v[i].entries|
    ensures Offset(v, i, j + 1) == Offset(v, i, j) + |v[i].entries[j].weights|
  {
    var es := v[i].entries;
    assert es[..j + 1][..j] == es[..j];
  }

  /** One past the last entry of node i is the first entry of node i + 1. */
  lemma SkipRow(v: View, i: nat)
    requires i < |v|
    ensures Offset(v, i, |v[i].entries|) == Offset(v, i + 1, 0)
  {
    assert v[..i + 1][..i] == v[..i];
    assert v[i].entries[..|v[i].entries|] == v[i].entries;
    if i + 1 == |v| {
      assert v[..i + 1] == v;
    }
  }

  lemma OffsetStart(v: View)
    ensures Offset(v, 0, 0) == 0
  {
    if v != [] {
      assert v[..0] == [];
      assert v[0].entries[..0] == [];
    }
  }

  /** The cursor (i, j, k) denotes the triple at index Position(i, j, k) of
      the flattened sequence. */
  lemma DerefPosition(v: View, i: nat, j: nat, k: nat)
    requires At(v, i, j, k)
    ensures Position(v, i, j, k) < |Flatten(v)|
    ensures Flatten(v)[Position(v, i, j, k)] == TripleAt(v, i, j, k)
  {
    var es := v[i].entries;
    RowAt(v[i].src, es, j, k);
    FlattenAt(v, i, |RowTriples(v[i].src, es[..j])| + k);
  }

  /** Weight k of entry j is the triple after those of the entries before j. */
  lemma RowAt(src: int, es: seq<Entry>, j: nat, k: nat)
    requires j < |es| && k < |es[j].weights|
    ensures |RowTriples(src, es[..j])| + k < |RowTriples(src, es)|
    ensures RowTriples(src, es)[|RowTriples(src, es[..j])| + k] == (src, es[j].dst, es[j].weights[k])
  {
    assert es == es[..j + 1] + es[j + 1..];
    RowConcat(src, es[..j + 1], es[j + 1..]);
    assert es[..j + 1][..j] == es[..j];
    assert RowTriples(src, es[..j + 1]) == RowTriples(src, es[..j]) + EntryTriples(src, es[j]);
  }

  /** Triple p of row i is the triple after those of the rows before i. */
  lemma FlattenAt(v: View, i: nat, p: nat)
    requires i < |v| && p < |RowTriples(v[i].src, v[i].entries)|
    ensures |Flatten(v[..i])| + p < |Flatten(v)|
    ensures Flatten(v)[|Flatten(v[..i])| + p] == RowTriples(v[i].src, v[i].entries)[p]
  {
    assert v == v[..i + 1] + v[i + 1..];
    FlattenConcat(v[..i + 1], v[i + 1..]);
    assert v[..i + 1][..i] == v[..i];
    assert Flatten(v[..i + 1]) == Flatten(v[..i]) + RowTriples(v[i].src, v[i].entries);
  }

  /** Every triple of the flattened sequence is denoted by some cursor. */
  lemma {:induction false} FlattenMember(v: View, t: Triple) returns (i: nat, j: nat, k: nat)
    requires t in Flatten(v)
    ensures At(v, i, j, k) && TripleAt(v, i, j, k) == t
    decreases |v|
  {
    var init := v[..|v| - 1];
    var last := v[|v| - 1];
    if t in Flatten(init) {
      i, j, k := FlattenMember(init, t);
    } else {
      i := |v| - 1;
      j, k := RowMember(last.src, last.entries, t);
    }
  }

  lemma {:induction false} RowMember(src: int, es: seq<Entry>, t: Triple) returns (j: nat, k: nat)
    requires t in RowTriples(src, es)
    ensures j < |es| && k < |es[j].weights| && t == (src, es[j].dst, es[j].weights[k])
    decreases |es|
  {
    var init := es[..|es| - 1];
    if t in RowTriples(src, init) {
      j, k := RowMember(src, init, t);
    } else {
      var e := EntryTriples(src, es[|es| - 1]);
      var p :| 0 <= p < |e| && e[p] == t;
      j, k := |es| - 1, p;
    }
  }

  /** A row's triples are those of its source with one of its entries'
      destinations and weights. */
  lemma {:induction false} RowMemberIff(src: int, es: seq<Entry>, t: Triple)
    ensures t in RowTriples(src, es) <==>
            t.0 == src && exists j :: 0 <= j < |es| && es[j].dst == t.1 && t.2 in es[j].weights
    decreases |es|
  {
    if t in RowTriples(src, es) {
      var j, k := RowMember(src, es, t);
      assert es[j].weights[k] in es[j].weights;
    }
    if t.0 == src && exists j :: 0 <= j < |es| && es[j].dst == t.1 && t.2 in es[j].weights {
      var j :| 0 <= j < |es| && es[j].dst == t.1 && t.2 in es[j].weights;
      var k :| 0 <= k < |es[j].weights| && es[j].weights[k] == t.2;
      DerefPosition([Row(src, es)], 0, j, k);
      assert [Row(src, es)][..0] == [];
      assert Flatten([Row(src, es)]) == RowTriples(src, es);
    }
  }

  /** The flattened sequence is the union of the rows' triples. */
  lemma {:induction false} FlattenRowIff(v: View, t: Triple)
    ensures t in Flatten(v) <==> exists i :: 0 <= i < |v| && t in RowTriples(v[i].src, v[i].entries)
    decreases |v|
  {
    if v != [] {
      var init := v[..|v| - 1];
      FlattenRowIff(init, t);
      if exists i :: 0 <= i < |init| && t in RowTriples(init[i].src, init[i].entries) {
        var i :| 0 <= i < |init| && t in RowTriples(init[i].src, init[i].entries);
        assert v[i] == init[i];
      }
      if exists i :: 0 <= i < |v| && t in RowTriples(v[i].src, v[i].entries) {
        var i :| 0 <= i < |v| && t in RowTriples(v[i].src, v[i].entries);
        if i < |v| - 1 {
          assert init[i] == v[i];
        }
      }
    }
  }

  /** Membership in the flattened sequence, cursor by cursor. */
  lemma FlattenMemberIff(v: View, t: Triple)
    ensures t in Flatten(v) <==> exists i: nat, j: nat, k: nat :: At(v, i, j, k) && TripleAt(v, i, j, k) == t
  {
    if t in Flatten(v) {
      var i, j, k := FlattenMember(v, t);
    }
    if exists i: nat, j: nat, k: nat :: At(v, i, j, k) && TripleAt(v, i, j, k) == t {
      var i: nat, j: nat, k: nat :| At(v, i, j, k) && TripleAt(v, i, j, k) == t;
      DerefPosition(v, i, j, k);
    }
  }

  lemma {:induction false} RowOrdered(src: int, es: seq<Entry>)
    requires OrderedRow(es)
    ensures LexIncreasing(RowTriples(src, es))
    decreases |es|
  {
    if es != [] {
      var init := es[..|es| - 1];
      var last := es[|es| - 1];
      RowOrdered(src, init);
      var e := EntryTriples(src, last);
      assert Increasing(last.weights);
      forall x, y | x in RowTriples(src, init) && y in e ensures Less(x, y) {
        var j, k := RowMember(src, init, x);
        assert init[j].dst < last.dst;
      }
      LexConcat(RowTriples(src, init), e);
    }
  }

  /** The flattened sequence of an ordered View is in ascending
      lexicographic (src, dst, weight) order, each triple once. */
  lemma {:induction false} FlattenOrdered(v: View)
    requires OrderedView(v)
    ensures LexIncreasing(Flatten(v))
    decreases |v|
  {
    if v != [] {
      var init := v[..|v| - 1];
      var last := v[|v| - 1];
      FlattenOrdered(init);
      RowOrdered(last.src, last.entries);
      forall x, y | x in Flatten(init) && y in RowTriples(last.src, last.entries) ensures Less(x, y) {
        var i, j, k := FlattenMember(init, x);
        var j', k' := RowMember(last.src, last.entries, y);
        assert init[i].src < last.src;
      }
      LexConcat(Flatten(init), RowTriples(last.src, last.entries));
    }
  }

  lemma RowPrefix(src: int, es: seq<Entry>, j: nat, j2: nat)
    requires j <= j2 <= |es|
    ensures |RowTriples(src, es[..j])| <= |RowTriples(src, es[..j2])|
  {
    assert es[..j2] == es[..j] + es[j..j2];
    RowConcat(src, es[..j], es[j..j2]);
  }

  lemma FlattenPrefix(v: View, i: nat, i2: nat)
    requires i <= i2 <= |v|
    ensures |Flatten(v[..i])| <= |Flatten(v[..i2])|
  {
    assert v[..i2] == v[..i] + v[i..i2];
    FlattenConcat(v[..i], v[i..i2]);
  }

  /** Offsets grow with the (node, entry) cursor. */
  lemma OffsetMonotone(v: View, i: nat, j: nat, i2: nat, j2: nat)
    requires Seekable(v, i, j) && Seekable(v, i2, j2)
    requires i < i2 || (i == i2 && j <= j2)
    ensures Offset(v, i, j) <= Offset(v, i2, j2)
  {
    if i == i2 {
      if i < |v| {
        RowPrefix(v[i].src, v[i].entries, j, j2);
      }
    } else {
      RowPrefix(v[i].src, v[i].entries, j, |v[i].entries|);
      SkipRow(v, i);
      if i2 < |v| {
        FlattenPrefix(v, i + 1, i2);
      } else {
        FlattenPrefix(v, i + 1, |v|);
        assert v[..|v|] == v;
      }
    }
  }

  /** A cursor's position lies below the offset of the next entry. */
  lemma PositionBelowNext(v: View, i: nat, j: nat, k: nat)
    requires At(v, i, j, k)
    ensures Position(v, i, j, k) < Offset(v, i, j + 1)
  {
    SkipEntry(v, i, j);
  }

  /** Canonical cursors in lexicographic order have increasing positions. */
  lemma PositionStrict(v: View, i: nat, j: nat, k: nat, i2: nat, j2: nat, k2: nat)
    requires At(v, i, j, k) && Canonical(v, i2, j2, k2)
    requires i < i2 || (i == i2 && (j < j2 || (j == j2 && k < k2)))
    ensures Position(v, i, j, k) < Position(v, i2, j2, k2)
  {
    PositionBelowNext(v, i, j, k);
    if i < i2 {
      var j2' := if i2 == |v| then 0 else j2;
      OffsetMonotone(v, i, j + 1, i2, j2');
    } else if j < j2 {
      OffsetMonotone(v, i, j + 1, i2, j2);
    }
  }

  /** A canonical cursor is determined by its position: two canonical
      cursors with the same position are the same cursor (at the end, only
      the node cursor is meaningful). */
  lemma PositionInjective(v: View, i: nat, j: nat, k: nat, i2: nat, j2: nat, k2: nat)
    requires Canonical(v, i, j, k) && Canonical(v, i2, j2, k2)
    requires Position(v, i, j, k) == Position(v, i2, j2, k2)
    ensures i == i2 && (i < |v| ==> j == j2 && k == k2)
  {
    if i < |v| && (i < i2 || (i == i2 && (j < j2 || (j == j2 && k < k2)))) {
      PositionStrict(v, i, j, k, i2, j2, k2);
    } else if i2 < |v| && (i2 < i || (i2 == i && (j2 < j || (j2 == j && k2 < k)))) {
      PositionStrict(v, i2, j2, k2, i, j, k);
    }
  }

  /** Iterator equality as graph.h defines it holds exactly when the two
      cursors denote the same position of the flattened sequence. */
  lemma SameCursorIffSamePosition(v: View, i: nat, j: nat, k: nat, i2: nat, j2: nat, k2: nat)
    requires Canonical(v, i, j, k) && Canonical(v, i2, j2, k2)
    ensures SameCursor(v, i, j, k, i2, j2, k2) <==> Position(v, i, j, k) == Position(v, i2, j2, k2)
  {
    if Position(v, i, j, k) == Position(v, i2, j2, k2) {
      PositionInjective(v, i, j, k, i2, j2, k2);
    }
  }

  /** The end cursor is the only canonical cursor at position |Flatten(v)|. */
  lemma EndPosition(v: View, i: nat, j: nat, k: nat)
    requires Canonical(v, i, j, k)
    ensures i == |v| <==> Position(v, i, j, k) == |Flatten(v)|
  {
    if i < |v| {
      DerefPosition(v, i, j, k);
    }
  }

  /** find's search: the node cursor of the source, the entry cursor of the
      destination, the weight cursor of the weight; the end when any is
      missing. */
  method Locate(v: View, t: Triple) returns (i: nat, j: nat, k: nat)
    requires OrderedView(v)
    ensures Canonical(v, i, j, k)
    ensures i < |v| ==> TripleAt(v, i, j, k) == t
    ensures i == |v| <==> t !in Flatten(v)
  {
    FlattenMemberIff(v, t);
    i := 0;
    while i < |v| && v[i].src != t.0
      invariant i <= |v|
      invariant forall i' :: 0 <= i' < i ==> v[i'].src != t.0
    {
      i := i + 1;
    }
    if i == |v| {
      return i, 0, 0;
    }
    var es := v[i].entries;
    j := 0;
    while j < |es| && es[j].dst != t.1
      invariant j <= |es|
      invariant forall j' :: 0 <= j' < j ==> es[j'].dst != t.1
    {
      j := j + 1;
    }
    if j == |es| {
      return |v|, 0, 0;
    }
    var ws := es[j].weights;
    k := 0;
    while k < |ws| && ws[k] != t.2
      invariant k <= |ws|
      invariant forall k' :: 0 <= k' < k ==> ws[k'] != t.2
    {
      k := k + 1;
    }
    if k == |ws| {
      return |v|, 0, 0;
    }
  }

  /** graph.h's const_iterator: a cursor into the containers of one graph.
      The node, destination and weight cursors stand for node_from_itr_,
      node_to_itr_ and weight_itr_; the start and end of each level are the
      bounds of `view`. */
  class ConstIterator {
    const view: View
    var node: nat
    var dest: nat
    var weight: nat

    ghost predicate Valid()
      reads this
    {
      Canonical(view, node, dest, weight)
    }

    /** The index, in the flattened triple sequence, of the triple denoted. */
    function Pos(): (p: nat)
      reads this
      requires Valid()
      ensures p <= |Flatten(view)|
    {
      EndPosition(view, node, dest, weight);
      if node < |view| then
        DerefPosition(view, node, dest, weight);
        Position(view, node, dest, weight)
      else
        Position(view, node, dest, weight)
    }

    predicate AtEnd()
      reads this
    {
      node == |view|
    }

    constructor (v: View, i: nat, j: nat, k: nat)
      ensures view == v && node == i && dest == j && weight == k
    {
      view, node, dest, weight := v, i, j, k;
    }

    /** operator*: the triple at the iterator's position. */
    function Deref(): (t: Triple)
      reads this
      requires Valid() && !AtEnd()
      ensures Pos() < |Flatten(view)| && t == Flatten(view)[Pos()]
    {
      DerefPosition(view, node, dest, weight);
      TripleAt(view, node, dest, weight)
    }

    /** operator== between two iterators (graph.h:78-81). */
    function Equals(other: ConstIterator): (b: bool)
      reads this, other
      requires Valid() && other.Valid() && other.view == view
      ensures b <==> Pos() == other.Pos()
    {
      SameCursorIffSamePosition(view, node, dest, weight, other.node, other.dest, other.weight);
      SameCursor(view, node, dest, weight, other.node, other.dest, other.weight)
    }

    /** Moves forward from a node and entry cursor, over entries without
        weights and nodes without entries, to the first triple at or after
        it, or to the end. */
    method SeekForward()
      requires Seekable(view, node, dest) && weight == 0
      modifies this
      ensures Valid() && Pos() == old(Offset(view, node, dest))
    {
      ghost var target := Offset(view, node, dest);
      while node < |view| && (dest == |view[node].entries| || |view[node].entries[dest].weights| == 0)
        invariant Seekable(view, node, dest) && weight == 0
        invariant Offset(view, node, dest) == target
        decreases |view| - node, if node < |view| then |view[node].entries| - dest else 0
      {
        if dest == |view[node].entries| {
          SkipRow(view, node);
          node, dest := node + 1, 0;
        } else {
          SkipEntry(view, node, dest);
          dest := dest + 1;
        }
      }
      if node == |view| {
        dest := 0;
      }
    }

    /** operator++ (Next in graph.h): the iterator moves to the next triple
        of the flattened sequence, or to the end after the last one. */
    method Next()
      requires Valid() && !AtEnd()
      modifies this
      ensures Valid() && Pos() == old(Pos()) + 1
    {
      weight := weight + 1;
      if weight == |view[node].entries[dest].weights| {
        SkipEntry(view, node, dest);
        dest, weight := dest + 1, 0;
        SeekForward();
      }
    }

    /** operator-- (Prev in graph.h): the iterator moves to the previous
        triple; from the end it moves to the last triple. */
    method Prev()
      requires Valid() && Pos() > 0
      modifies this
      ensures Valid() && Pos() == old(Pos()) - 1
    {
      if node < |view| && weight > 0 {
        weight := weight - 1;
        return;
      }
      ghost var target := Pos();
      if node == |view| {
        OffsetStart(view);
        SkipRow(view, |view| - 1);
        node := |view| - 1;
        dest := |view[node].entries|;
      }
      while dest == 0 || |view[node].entries[dest - 1].weights| == 0
        invariant node < |view| && dest <= |view[node].entries|
        invariant Offset(view, node, dest) == target
        decreases node, dest
      {
        if dest == 0 {
          if node == 0 {
            OffsetStart(view);
          }
          SkipRow(view, node - 1);
          node := node - 1;
          dest := |view[node].entries|;
        } else {
          SkipEntry(view, node, dest - 1);
          dest := dest - 1;
        }
      }
      SkipEntry(view, node, dest - 1);
      dest := dest - 1;
      weight := |view[node].entries[dest].weights| - 1;
    }
  }
}
