/** Strictly increasing sequences: the model of an ordered, duplicate-free
    container (std::set<E> of weights, the vectors GetNodes, GetConnected and
    GetWeights return), and the lexicographic order on (src, dst, weight)
    triples that the flattening iterator walks. */
module Ordered {

  /** A (source, destination, weight) triple, the value an iterator denotes. */
  type Triple = (int, int, int)

  predicate Increasing(s: seq<int>) {
    forall i, j :: 0 <= i < j < |s| ==> s[i] < s[j]
  }

  /** Inserting into an ordered set: a value already present changes nothing. */
  function Insert(s: seq<int>, x: int): (r: seq<int>)
    requires Increasing(s)
    ensures Increasing(r)
    ensures forall y :: y in r <==> y in s || y == x
    ensures x in s ==> r == s
    ensures |r| > 0
  {
    if s == [] then [x]
    else if x < s[0] then [x] + s
    else if x == s[0] then s
    else
      var tail := Insert(s[1..], x);
      assert forall i :: 0 <= i < |tail| ==> tail[i] in tail;
      [s[0]] + tail
  }

  /** Removing from an ordered set: an absent value changes nothing. */
  function Remove(s: seq<int>, x: int): (r: seq<int>)
    requires Increasing(s)
    ensures Increasing(r)
    ensures forall y :: y in r <==> y in s && y != x
    ensures x !in s ==> r == s
  {
    if s == [] then []
    else if s[0] == x then
      assert forall i :: 1 <= i < |s| ==> s[i] != x;
      s[1..]
    else
      var tail := Remove(s[1..], x);
      assert forall i :: 0 <= i < |tail| ==> tail[i] in tail;
      [s[0]] + tail
  }

  /** Inserting every element of `s` into the ordered set `a` (set union). */
  function Union(a: seq<int>, s: seq<int>): (r: seq<int>)
    requires Increasing(a)
    ensures Increasing(r)
    ensures forall y :: y in r <==> y in a || y in s
    decreases |s|
  {
    if s == [] then a else Union(Insert(a, s[0]), s[1..])
  }

  /** The elements of `s` in ascending order, once each. */
  function Sorted(s: seq<int>): (r: seq<int>)
    ensures Increasing(r)
    ensures forall y :: y in r <==> y in s
  {
    Union([], s)
  }

  /** An ordered set is determined by its elements. */
  lemma {:induction false} IncreasingUnique(a: seq<int>, b: seq<int>)
    requires Increasing(a) && Increasing(b)
    requires forall y :: y in a <==> y in b
    ensures a == b
  {
    if a != [] { assert a[0] in a; assert b != []; }
    if b != [] { assert b[0] in b; assert a != []; }
    if a != [] && b != [] {
      assert a[0] == b[0] by {
        assert b[0] in b && a[0] in a;
        assert b[0] in a && a[0] in b;
      }
      forall y ensures y in a[1..] <==> y in b[1..] {
        if y in a[1..] {
          assert y in b && y != b[0];
        }
        if y in b[1..] {
          assert y in a && y != a[0];
        }
      }
      IncreasingUnique(a[1..], b[1..]);
      assert a == [a[0]] + a[1..];
      assert b == [b[0]] + b[1..];
    }
  }

  /** The lexicographic order on triples: by source, then destination, then weight. */
  predicate Less(a: Triple, b: Triple) {
    a.0 < b.0 || (a.0 == b.0 && (a.1 < b.1 || (a.1 == b.1 && a.2 < b.2)))
  }

  predicate LexIncreasing(s: seq<Triple>) {
    forall i, j :: 0 <= i < j < |s| ==> Less(s[i], s[j])
  }

  /** Two increasing runs concatenate into one when every element of the
      first is below every element of the second. */
  lemma LexConcat(a: seq<Triple>, b: seq<Triple>)
    requires LexIncreasing(a) && LexIncreasing(b)
    requires forall x, y :: x in a && y in b ==> Less(x, y)
    ensures LexIncreasing(a + b)
  {
    forall i, j | 0 <= i < j < |a + b| ensures Less((a + b)[i], (a + b)[j]) {
      if j < |a| {
      } else if i >= |a| {
        assert (a + b)[i] == b[i - |a|] && (a + b)[j] == b[j - |a|];
      } else {
        assert (a + b)[i] in a && (a + b)[j] in b;
      }
    }
  }

  /** A sequence of triples ordered lexicographically is determined by its elements. */
  lemma {:induction false} LexIncreasingUnique(a: seq<Triple>, b: seq<Triple>)
    requires LexIncreasing(a) && LexIncreasing(b)
    requires forall t :: t in a <==> t in b
    ensures a == b
  {
    if a != [] { assert a[0] in a; assert b != []; }
    if b != [] { assert b[0] in b; assert a != []; }
    if a != [] && b != [] {
      assert a[0] == b[0] by {
        assert b[0] in b && a[0] in a;
        assert b[0] in a && a[0] in b;
      }
      forall t ensures t in a[1..] <==> t in b[1..] {
        if t in a[1..] {
          var i :| 1 <= i < |a| && a[i] == t;
          assert Less(a[0], a[i]);
          assert t in b && t != b[0];
        }
        if t in b[1..] {
          var j :| 1 <= j < |b| && b[j] == t;
          assert Less(b[0], b[j]);
          assert t in a && t != a[0];
        }
      }
      LexIncreasingUnique(a[1..], b[1..]);
      assert a == [a[0]] + a[1..];
      assert b == [b[0]] + b[1..];
    }
  }

  /** In an increasing sequence each triple occurs at one index only. */
  lemma LexIndexUnique(s: seq<Triple>, i: nat, j: nat)
    requires LexIncreasing(s) && i < |s| && j < |s| && s[i] == s[j]
    ensures i == j
  {
  }

  /** Dropping the element at index p keeps the order and removes exactly
      that element. */
  lemma RemoveAt(s: seq<Triple>, p: nat)
    requires LexIncreasing(s) && p < |s|
    ensures LexIncreasing(s[..p] + s[p + 1..])
    ensures forall u :: u in s[..p] + s[p + 1..] <==> u in s && u != s[p]
  {
    var r := s[..p] + s[p + 1..];
    assert forall i :: 0 <= i < |r| ==> r[i] == s[if i < p then i else i + 1];
    forall u ensures u in r <==> u in s && u != s[p] {
      if u in s && u != s[p] {
        var i :| 0 <= i < |s| && s[i] == u;
        assert i != p;
        assert r[if i < p then i else i - 1] == u;
      }
      if u in r {
        var i :| 0 <= i < |r| && r[i] == u;
        var i' := if i < p then i else i + 1;
        assert s[i'] == u;
        if i' < p {
          assert Less(s[i'], s[p]);
        } else {
          assert Less(s[p], s[i']);
        }
      }
    }
  }

  /** An increasing sequence of triples has as many elements as its set. */
  lemma {:induction false} LexDistinctCard(s: seq<Triple>)
    requires LexIncreasing(s)
    ensures |set t | t in s| == |s|
  {
    if s != [] {
      var init := s[..|s| - 1];
      var last := s[|s| - 1];
      assert LexIncreasing(init);
      LexDistinctCard(init);
      assert (set t | t in s) == (set t | t in init) + {last} by {
        assert s == init + [last];
      }
      assert last !in init by {
        forall i | 0 <= i < |init| ensures init[i] != last {
          assert Less(s[i], s[|s| - 1]);
        }
      }
    }
  }

  /** The least triple of a nonempty set. */
  ghost function Least(e: set<Triple>): (m: Triple)
    requires e != {}
    ensures m in e && forall t :: t in e && t != m ==> Less(m, t)
    decreases |e|
  {
    var x :| x in e;
    if e - {x} == {} then
      assert e == {x};
      x
    else
      var y := Least(e - {x});
      LessTotal(x, y);
      var m := if Less(x, y) then x else y;
      assert forall t :: t in e && t != m ==> Less(m, t) by {
        forall t | t in e && t != m ensures Less(m, t) {
          if t != x {
            assert t in e - {x};
          }
        }
      }
      m
  }

  /** Distinct triples are ordered one way or the other. */
  lemma LessTotal(a: Triple, b: Triple)
    ensures a == b || Less(a, b) || Less(b, a)
  {
    if a.0 == b.0 && a.1 == b.1 && a.2 == b.2 {
      assert a == (a.0, a.1, a.2) && b == (b.0, b.1, b.2);
    }
  }

  /** A set of triples listed in ascending order: the order the flattening
      iterator visits the edges of a graph. */
  ghost function Listing(e: set<Triple>): (r: seq<Triple>)
    ensures LexIncreasing(r)
    ensures forall t :: t in r <==> t in e
    decreases |e|
  {
    if e == {} then []
    else
      var m := Least(e);
      var rest := Listing(e - {m});
      assert forall i :: 0 <= i < |rest| ==> rest[i] in rest;
      [m] + rest
  }

  /** The listing of a set has one element per member. */
  lemma ListingLength(e: set<Triple>)
    ensures |Listing(e)| == |e|
  {
    LexDistinctCard(Listing(e));
    assert (set t | t in Listing(e)) == e;
  }

  /** A sequence of triples back to front. */
  function Reversed(s: seq<Triple>): (r: seq<Triple>)
    ensures |r| == |s|
    ensures forall m :: 0 <= m < |s| ==> r[m] == s[|s| - 1 - m]
  {
    if s == [] then [] else Reversed(s[1..]) + [s[0]]
  }
}
