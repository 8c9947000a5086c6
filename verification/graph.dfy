/**
 * The directed weighted graph the algorithms run over, as an immutable value:
 * the set of node keys and, for every ordered pair (src, dest) joined by an
 * edge, that edge's non-negative weight.  Keying the edges by the ordered pair
 * gives at most one edge per pair, as the graph store does.  The reference
 * notions the algorithms are proved against live here: paths, their cost,
 * reachability and strong connectivity.
 */
module Graphs {

  type Key = int

  datatype Graph = Graph(nodes: set<Key>, weight: map<(Key, Key), nat>)

  /** Every edge joins two nodes of the graph. */
  ghost predicate WellFormed(g: Graph) {
    forall e :: e in g.weight ==> e.0 in g.nodes && e.1 in g.nodes
  }

  /** The destinations of `u`'s outgoing edges: what iterating the store's
      `getE(u)` visits. */
  function OutEdges(g: Graph, u: Key): (r: set<Key>)
    ensures forall v :: v in r <==> (u, v) in g.weight
  {
    var r := set e | e in g.weight && e.0 == u :: e.1;
    assert forall v :: (u, v) in g.weight ==> v in r by {
      forall v | (u, v) in g.weight ensures v in r {
        var e := (u, v);
        assert e in g.weight && e.0 == u;
      }
    }
    r
  }

  /** A set with no member is empty.  Stated for any element type; called
      before picking a member of a non-empty set of keys. */
  lemma EmptyIfNoElement<T>(s: set<T>)
    requires forall x :: x !in s
    ensures s == {}
  {
  }

  /** A non-empty set of keys has a member.  Proved through the element-type
      generic `EmptyIfNoElement`, which the solver handles more readily. */
  lemma HasMember(s: set<Key>)
    requires s != {}
    ensures exists x :: x in s
  {
    if forall x :: x !in s { EmptyIfNoElement(s); }
  }

  /** Some member of a non-empty set of keys, in no particular order: how the
      algorithms take the next element of a collection they iterate. */
  method Pick(s: set<Key>) returns (x: Key)
    requires s != {}
    ensures x in s
  {
    HasMember(s);
    x :| x in s;
  }

  /** The weight of edge (u, v), or 0 when there is none. */
  function W(g: Graph, u: Key, v: Key): nat {
    if (u, v) in g.weight then g.weight[(u, v)] else 0
  }

  ghost predicate HasOutEdge(g: Graph, v: Key) {
    exists w :: (v, w) in g.weight
  }

  ghost predicate HasInEdge(g: Graph, v: Key) {
    exists u :: (u, v) in g.weight
  }

  /** A walk of one or more nodes of `g`, each joined to the next by an edge. */
  ghost predicate IsPath(g: Graph, p: seq<Key>) {
    && |p| > 0
    && (forall i :: 0 <= i < |p| ==> p[i] in g.nodes)
    && (forall i :: 0 <= i < |p| - 1 ==> (p[i], p[i + 1]) in g.weight)
  }

  ghost predicate PathFromTo(g: Graph, p: seq<Key>, s: Key, t: Key) {
    IsPath(g, p) && p[0] == s && p[|p| - 1] == t
  }

  /** `t` can be reached from `s`; every node reaches itself by the one-node path. */
  ghost predicate Reachable(g: Graph, s: Key, t: Key) {
    exists p :: PathFromTo(g, p, s, t)
  }

  /** `t` can be reached from `s` by a walk of at least one edge. */
  ghost predicate ReachablePlus(g: Graph, s: Key, t: Key) {
    exists p :: PathFromTo(g, p, s, t) && |p| >= 2
  }

  /** Every ordered pair of nodes is joined by a directed path. */
  ghost predicate StronglyConnected(g: Graph) {
    forall u, v :: u in g.nodes && v in g.nodes ==> Reachable(g, u, v)
  }

  /** The sum of the edge weights along `p`, accumulated from its start. */
  function Cost(g: Graph, p: seq<Key>): nat
    decreases |p|
  {
    if |p| <= 1 then 0 else Cost(g, p[..|p| - 1]) + W(g, p[|p| - 2], p[|p| - 1])
  }

  lemma PathExtend(g: Graph, p: seq<Key>, v: Key)
    requires WellFormed(g) && IsPath(g, p) && (p[|p| - 1], v) in g.weight
    ensures IsPath(g, p + [v])
    ensures Cost(g, p + [v]) == Cost(g, p) + g.weight[(p[|p| - 1], v)]
  {
    assert (p + [v])[..|p|] == p;
  }

  lemma PathPrefix(g: Graph, p: seq<Key>, k: nat)
    requires IsPath(g, p) && 1 <= k <= |p|
    ensures IsPath(g, p[..k])
  {
  }

  lemma ReachableRefl(g: Graph, s: Key)
    requires s in g.nodes
    ensures Reachable(g, s, s)
  {
    assert PathFromTo(g, [s], s, s);
  }

  lemma ReachableStep(g: Graph, s: Key, u: Key, v: Key)
    requires WellFormed(g) && Reachable(g, s, u) && (u, v) in g.weight
    ensures Reachable(g, s, v)
  {
    var p :| PathFromTo(g, p, s, u);
    PathExtend(g, p, v);
    assert PathFromTo(g, p + [v], s, v);
  }

  lemma ReachablePlusReachable(g: Graph, s: Key, t: Key)
    requires ReachablePlus(g, s, t)
    ensures Reachable(g, s, t)
  {
  }

  /** One more edge after a walk gives a walk of at least one edge. */
  lemma ReachablePlusStep(g: Graph, s: Key, u: Key, v: Key)
    requires WellFormed(g) && Reachable(g, s, u) && (u, v) in g.weight
    ensures ReachablePlus(g, s, v)
  {
    var p :| PathFromTo(g, p, s, u);
    PathExtend(g, p, v);
    assert PathFromTo(g, p + [v], s, v) && |p + [v]| >= 2;
  }

  /** An edge before a walk gives a walk of at least one edge. */
  lemma ReachablePlusFirst(g: Graph, s: Key, u: Key, t: Key)
    requires WellFormed(g) && (s, u) in g.weight && Reachable(g, u, t)
    ensures ReachablePlus(g, s, t)
  {
    var q :| PathFromTo(g, q, u, t);
    var p := [s] + q;
    assert forall i :: 0 < i < |p| ==> p[i] == q[i - 1];
    assert PathFromTo(g, p, s, t) && |p| >= 2;
  }

  /** Whatever `a` reaches the start of a path, it reaches the path's end. */
  lemma {:induction false} ReachableAlong(g: Graph, a: Key, q: seq<Key>)
    requires WellFormed(g) && IsPath(g, q) && Reachable(g, a, q[0])
    ensures Reachable(g, a, q[|q| - 1])
    decreases |q|
  {
    if |q| > 1 {
      var q' := q[..|q| - 1];
      PathPrefix(g, q, |q| - 1);
      ReachableAlong(g, a, q');
      ReachableStep(g, a, q'[|q'| - 1], q[|q| - 1]);
    }
  }

  lemma ReachableTrans(g: Graph, a: Key, b: Key, c: Key)
    requires WellFormed(g) && Reachable(g, a, b) && Reachable(g, b, c)
    ensures Reachable(g, a, c)
  {
    var q :| PathFromTo(g, q, b, c);
    ReachableAlong(g, a, q);
  }

  /** A set that holds the start of a path and is closed under edges holds its end. */
  lemma {:induction false} ClosedPath(g: Graph, V: set<Key>, p: seq<Key>)
    requires IsPath(g, p) && p[0] in V
    requires forall u, v :: u in V && (u, v) in g.weight ==> v in V
    ensures p[|p| - 1] in V
    decreases |p|
  {
    if |p| > 1 {
      PathPrefix(g, p, |p| - 1);
      ClosedPath(g, V, p[..|p| - 1]);
    }
  }

  lemma ClosedReachable(g: Graph, V: set<Key>, s: Key, t: Key)
    requires s in V && Reachable(g, s, t)
    requires forall u, v :: u in V && (u, v) in g.weight ==> v in V
    ensures t in V
  {
    var p :| PathFromTo(g, p, s, t);
    ClosedPath(g, V, p);
  }

  /** Extending a prefix by one node adds exactly the weight of the edge it crosses. */
  lemma CostStep(g: Graph, p: seq<Key>, k: nat)
    requires 1 <= k < |p|
    ensures Cost(g, p[..k + 1]) == Cost(g, p[..k]) + W(g, p[k - 1], p[k])
  {
    assert p[..k + 1][..k] == p[..k];
  }

  /** With non-negative weights no prefix of a walk costs more than the walk. */
  lemma {:induction false} CostPrefix(g: Graph, p: seq<Key>, k: nat)
    requires 1 <= k <= |p|
    ensures Cost(g, p[..k]) <= Cost(g, p)
    decreases |p| - k
  {
    if k < |p| {
      CostStep(g, p, k);
      CostPrefix(g, p, k + 1);
      assert p[..|p|] == p;
    } else {
      assert p[..k] == p;
    }
  }

  /** A node that reaches another node has an outgoing edge. */
  lemma LeavesByAnEdge(g: Graph, s: Key, t: Key)
    ensures s != t && Reachable(g, s, t) ==> OutEdges(g, s) != {}
  {
    if s != t && Reachable(g, s, t) {
      var p :| PathFromTo(g, p, s, t);
      DistinctEnds(g, p, s, t);
      assert p[1] in OutEdges(g, s);
    }
  }

  /** A path between distinct nodes leaves its start by an edge and enters its end by one. */
  lemma DistinctEnds(g: Graph, p: seq<Key>, s: Key, t: Key)
    requires PathFromTo(g, p, s, t) && s != t
    ensures |p| >= 2 && (s, p[1]) in g.weight && (p[|p| - 2], t) in g.weight
    ensures HasOutEdge(g, s) && HasInEdge(g, t)
  {
    var w, u := p[1], p[|p| - 2];
    assert (s, w) in g.weight && (u, t) in g.weight;
  }
}
