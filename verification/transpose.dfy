/**
 * The transposed graph: the same node keys with every edge reversed and its
 * weight kept.  The strong-connectivity test and the component extraction
 * traverse it to follow edges backwards.
 */
module Transposition {
  import opened Graphs

  /** `transpose(g)`: node set unchanged, edge (v, u, w) exactly when `g` has (u, v, w). */
  function Transpose(g: Graph): (t: Graph)
    ensures t.nodes == g.nodes
    ensures forall u, v :: (v, u) in t.weight <==> (u, v) in g.weight
    ensures forall u, v :: (u, v) in g.weight ==> t.weight[(v, u)] == g.weight[(u, v)]
  {
    var m := map e | e in g.weight :: (e.1, e.0) := g.weight[e];
    assert forall u, v :: (u, v) in g.weight ==> (v, u) in m && m[(v, u)] == g.weight[(u, v)] by {
      forall u, v | (u, v) in g.weight ensures (v, u) in m && m[(v, u)] == g.weight[(u, v)] {
        var e := (u, v);
        assert e in g.weight && (e.1, e.0) == (v, u);
      }
    }
    Graph(g.nodes, m)
  }

  /** The nodes of `p` in the opposite order. */
  function Reverse(p: seq<Key>): (r: seq<Key>)
    ensures |r| == |p|
    ensures forall i :: 0 <= i < |p| ==> r[i] == p[|p| - 1 - i]
  {
    seq(|p|, i requires 0 <= i < |p| => p[|p| - 1 - i])
  }

  lemma TransposeWellFormed(g: Graph)
    requires WellFormed(g)
    ensures WellFormed(Transpose(g))
  {
    var t := Transpose(g);
    forall e | e in t.weight ensures e.0 in t.nodes && e.1 in t.nodes {
      assert (e.1, e.0) in g.weight;
    }
  }

  /** Reversing every edge twice gives back the original graph. */
  lemma TransposeTwice(g: Graph)
    ensures Transpose(Transpose(g)) == g
  {
    var tt := Transpose(Transpose(g));
    forall e | e in tt.weight ensures e in g.weight && tt.weight[e] == g.weight[e] {
      assert (e.1, e.0) in Transpose(g).weight;
    }
    assert tt.weight.Keys == g.weight.Keys;
    assert tt.weight == g.weight;
  }

  /** A path of `g` read backwards is a path of the transpose. */
  lemma ReversePath(g: Graph, p: seq<Key>)
    requires IsPath(g, p)
    ensures IsPath(Transpose(g), Reverse(p))
  {
    var r := Reverse(p);
    var n := |p|;
    forall i | 0 <= i < n - 1 ensures (r[i], r[i + 1]) in Transpose(g).weight {
      assert (p[n - 2 - i], p[n - 1 - i]) in g.weight;
    }
  }

  /** Following the transpose forwards is following `g` backwards. */
  lemma ReachableTranspose(g: Graph, s: Key, t: Key)
    ensures Reachable(Transpose(g), s, t) <==> Reachable(g, t, s)
  {
    if Reachable(g, t, s) {
      var p :| PathFromTo(g, p, t, s);
      ReversePath(g, p);
      assert PathFromTo(Transpose(g), Reverse(p), s, t);
    }
    if Reachable(Transpose(g), s, t) {
      var p :| PathFromTo(Transpose(g), p, s, t);
      ReversePath(Transpose(g), p);
      TransposeTwice(g);
      assert PathFromTo(g, Reverse(p), t, s);
    }
  }

  /** A node leaves by an edge of the transpose exactly when it is entered by an edge of `g`. */
  lemma OutEdgesTranspose(g: Graph, v: Key)
    ensures OutEdges(Transpose(g), v) != {} <==> HasInEdge(g, v)
  {
    var t := Transpose(g);
    if HasInEdge(g, v) {
      var u :| (u, v) in g.weight;
      assert u in OutEdges(t, v);
    }
    if !HasInEdge(g, v) {
      var out := OutEdges(t, v);
      assert forall u :: u !in out;
      assert out == {};
    }
  }

  /** Walks of at least one edge, likewise. */
  lemma ReachablePlusTranspose(g: Graph, s: Key, t: Key)
    ensures ReachablePlus(Transpose(g), s, t) <==> ReachablePlus(g, t, s)
  {
    if ReachablePlus(g, t, s) {
      var p :| PathFromTo(g, p, t, s) && |p| >= 2;
      ReversePath(g, p);
      assert PathFromTo(Transpose(g), Reverse(p), s, t) && |Reverse(p)| >= 2;
    }
    if ReachablePlus(Transpose(g), s, t) {
      var p :| PathFromTo(Transpose(g), p, s, t) && |p| >= 2;
      ReversePath(Transpose(g), p);
      TransposeTwice(g);
      assert PathFromTo(g, Reverse(p), t, s) && |Reverse(p)| >= 2;
    }
  }
}
