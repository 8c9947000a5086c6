/**
 * Breadth-first traversals and the strong-connectivity test built from them.
 * The per-node `tag` of the store becomes a `visited` set local to each call,
 * so resetting the tags is starting from the empty set.  Traversals go by
 * node key.
 */
module Traversal {
  import opened Wrappers
  import opened Graphs
  import opened Transposition

  /** `allNodesWereVisited`: go through the nodes and answer false at the
      first one still unmarked, true if there is none. */
  method AllNodesWereVisited(g: Graph, visited: set<Key>) returns (r: bool)
    ensures r <==> forall k :: k in g.nodes ==> k in visited
  {
    var todo := g.nodes;
    while todo != {}
      invariant todo <= g.nodes
      invariant forall k :: k in g.nodes && k !in todo ==> k in visited
      decreases todo
    {
      var n := Pick(todo);
      if n !in visited {
        return false;
      }
      todo := todo - {n};
    }
    return true;
  }

  /** `getFirstNode`: some node of the graph, in the store's (unspecified)
      iteration order, or None for the empty graph. */
  method GetFirstNode(g: Graph) returns (r: Option<Key>)
    ensures r.None? <==> g.nodes == {}
    ensures r.Some? ==> r.value in g.nodes
  {
    if g.nodes == {} {
      r := None;
    } else {
      var k := Pick(g.nodes);
      r := Some(k);
    }
  }

  /** What the traversal from `start` marks: every node reachable from it when
      the start object it is handed is the graph's own node (so marking the
      start marks that node), and otherwise only the nodes reached by at
      least one edge. */
  ghost predicate Marked(g: Graph, start: Key, marksStart: bool, v: Key) {
    if marksStart then Reachable(g, start, v) else ReachablePlus(g, start, v)
  }

  /**
   * `isConnectedBFS(start)`: a breadth-first traversal from `start` that gives
   * up with false as soon as it dequeues a node without outgoing edges, and
   * otherwise answers whether every node was marked.  It therefore answers
   * true exactly when every node is marked and every node has an outgoing
   * edge.  The Java code marks the start object it is given; `marksStart` says
   * whether that object is the traversed graph's own node for `start` (it is
   * not when `Kosaraju` hands the original graph's node to a traversal of the
   * transpose).  `visited` is the set of marks it leaves behind.
   */
  method IsConnectedBfs(g: Graph, start: Key, marksStart: bool) returns (connected: bool, visited: set<Key>)
    requires WellFormed(g) && start in g.nodes
    ensures visited <= g.nodes && (marksStart ==> start in visited)
    ensures forall v :: v in visited ==> Marked(g, start, marksStart, v)
    ensures connected <==> forall v :: v in g.nodes ==> Marked(g, start, marksStart, v) && OutEdges(g, v) != {}
  {
    ReachableRefl(g, start);
    visited := if marksStart then {start} else {};
    var queue := [start];
    ghost var processed: set<Key> := {};
    while queue != []
      invariant visited <= g.nodes && processed <= visited + {start}
      invariant marksStart ==> start in visited
      invariant queue == [] ==> start in processed
      invariant forall v :: v in visited ==> Marked(g, start, marksStart, v)
      invariant forall i :: 0 <= i < |queue| ==> queue[i] in visited + {start}
      invariant forall v :: v in visited + {start} ==> v in processed || v in queue
      invariant forall u :: u in processed ==> OutEdges(g, u) != {} && OutEdges(g, u) <= visited
      decreases g.nodes - visited, |queue|
    {
      var cur := queue[0];
      queue := queue[1..];
      if cur != start && !marksStart {
        ReachablePlusReachable(g, start, cur);
      }
      var out := OutEdges(g, cur);
      if out == {} {
        connected := false;
        return;
      }
      ghost var visited0, queue0 := visited, queue;
      var todo := out;
      while todo != {}
        invariant todo <= out
        invariant visited <= g.nodes && processed <= visited + {start}
        invariant marksStart ==> start in visited
        invariant visited0 <= visited && (visited == visited0 ==> queue == queue0)
        invariant forall v :: v in visited ==> Marked(g, start, marksStart, v)
        invariant forall i :: 0 <= i < |queue| ==> queue[i] in visited + {start}
        invariant forall v :: v in visited + {start} ==> v == cur || v in processed || v in queue
        invariant out - todo <= visited
        decreases todo
      {
        var next := Pick(todo);
        todo := todo - {next};
        if next !in visited {
          ReachableStep(g, start, cur, next);
          ReachablePlusStep(g, start, cur, next);
          queue := queue + [next];
          visited := visited + {next};
        }
      }
      processed := processed + {cur};
    }
    BfsClosure(g, start, marksStart, visited);
    connected := AllNodesWereVisited(g, visited);
  }

  /** Once every marked node and the start have had their edges followed,
      every node the traversal is meant to mark is marked. */
  lemma BfsClosure(g: Graph, start: Key, marksStart: bool, visited: set<Key>)
    requires marksStart ==> start in visited
    requires forall u, v :: u in visited + {start} && (u, v) in g.weight ==> v in visited
    ensures forall v :: Marked(g, start, marksStart, v) ==> v in visited
  {
    forall v | Marked(g, start, marksStart, v) ensures v in visited {
      if marksStart {
        assert visited + {start} == visited;
        ClosedReachable(g, visited, start, v);
      } else {
        var p :| PathFromTo(g, p, start, v) && |p| >= 2;
        var front := p[..|p| - 1];
        PathPrefix(g, p, |p| - 1);
        ClosedPath(g, visited + {start}, front);
        assert front[|front| - 1] == p[|p| - 2] && (p[|p| - 2], v) in g.weight;
      }
    }
  }

  /**
   * A plain breadth-first traversal from `s` without the early exit: the
   * marks it leaves are exactly the nodes reachable from `s`.
   */
  method ReachableFrom(g: Graph, s: Key) returns (visited: set<Key>)
    requires WellFormed(g) && s in g.nodes
    ensures forall v :: v in visited <==> v in g.nodes && Reachable(g, s, v)
  {
    ReachableRefl(g, s);
    visited := {s};
    var queue := [s];
    ghost var processed: set<Key> := {};
    while queue != []
      invariant s in visited && visited <= g.nodes && processed <= visited
      invariant forall v :: v in visited ==> Reachable(g, s, v)
      invariant forall i :: 0 <= i < |queue| ==> queue[i] in visited
      invariant forall v :: v in visited ==> v in processed || v in queue
      invariant forall u :: u in processed ==> OutEdges(g, u) <= visited
      decreases g.nodes - visited, |queue|
    {
      var cur := queue[0];
      queue := queue[1..];
      var out := OutEdges(g, cur);
      ghost var visited0, queue0 := visited, queue;
      var todo := out;
      while todo != {}
        invariant todo <= out
        invariant s in visited && visited <= g.nodes && processed <= visited
        invariant visited0 <= visited && (visited == visited0 ==> queue == queue0)
        invariant forall v :: v in visited ==> Reachable(g, s, v)
        invariant forall i :: 0 <= i < |queue| ==> queue[i] in visited
        invariant forall v :: v in visited ==> v == cur || v in processed || v in queue
        invariant out - todo <= visited
        decreases todo
      {
        var next := Pick(todo);
        todo := todo - {next};
        if next !in visited {
          ReachableStep(g, s, cur, next);
          queue := queue + [next];
          visited := visited + {next};
        }
      }
      processed := processed + {cur};
    }
    forall v | v in g.nodes && Reachable(g, s, v) ensures v in visited {
      ClosedReachable(g, visited, s, v);
    }
  }

  /**
   * `Kosaraju(start)`: the same traversal over the transpose, from the same
   * key.  The start object it hands over belongs to the original graph, so
   * the transpose's copy of `start` is marked only when the traversal comes
   * back to it.  It answers true exactly when every node reaches `start` by a
   * walk of at least one edge and every node has an incoming edge.
   */
  method Kosaraju(g: Graph, start: Key) returns (connected: bool)
    requires WellFormed(g) && start in g.nodes
    ensures connected <==> forall v :: v in g.nodes ==> ReachablePlus(g, v, start) && HasInEdge(g, v)
  {
    var t := Transpose(g);
    TransposeWellFormed(g);
    var marks;
    connected, marks := IsConnectedBfs(t, start, false);
    forall v ensures ReachablePlus(t, start, v) <==> ReachablePlus(g, v, start) {
      ReachablePlusTranspose(g, start, v);
    }
    forall v ensures OutEdges(t, v) != {} <==> HasInEdge(g, v) {
      OutEdgesTranspose(g, v);
    }
  }

  /**
   * `isConnected()`: true for at most one node; otherwise the forward
   * traversal and the transposed traversal from the first node must both
   * succeed.  Proved equal to strong connectivity whichever node comes first.
   */
  method IsConnected(g: Graph) returns (connected: bool)
    requires WellFormed(g)
    ensures connected <==> StronglyConnected(g)
  {
    if |g.nodes| <= 1 {
      AtMostOneNodeConnected(g);
      return true;
    }
    var first := GetFirstNode(g);
    var start := first.value;
    var forward, marks := IsConnectedBfs(g, start, true);
    var backward := Kosaraju(g, start);
    connected := forward && backward;
    BothTraversals(g, start, forward, backward);
  }

  /** The answers of the two traversals from `s`, combined, decide strong connectivity. */
  lemma BothTraversals(g: Graph, s: Key, forward: bool, backward: bool)
    requires WellFormed(g) && |g.nodes| >= 2 && s in g.nodes
    requires forward <==> forall v :: v in g.nodes ==> Marked(g, s, true, v) && OutEdges(g, v) != {}
    requires backward <==> forall v :: v in g.nodes ==> ReachablePlus(g, v, s) && HasInEdge(g, v)
    ensures forward && backward <==> StronglyConnected(g)
  {
    assert forward <==> forall v :: v in g.nodes ==> Reachable(g, s, v) && OutEdges(g, v) != {};
    StrongConnectivityFromOneNode(g, s);
  }

  lemma AtMostOneNodeConnected(g: Graph)
    requires |g.nodes| <= 1
    ensures StronglyConnected(g)
  {
    forall u, v | u in g.nodes && v in g.nodes ensures Reachable(g, u, v) {
      if u != v {
        assert |{u, v}| == 2;
        assert {u, v} <= g.nodes;
        SubsetCard({u, v}, g.nodes);
      }
      ReachableRefl(g, u);
    }
  }

  lemma SubsetCard(a: set<Key>, b: set<Key>)
    requires a <= b
    ensures |a| <= |b|
  {
    assert b == a + (b - a);
  }

  /** With two or more nodes, a node of a strongly connected graph leaves by
      an edge and is entered by one. */
  lemma ConnectedNodeHasEdges(g: Graph, v: Key)
    requires WellFormed(g) && StronglyConnected(g) && |g.nodes| >= 2 && v in g.nodes
    ensures OutEdges(g, v) != {} && HasInEdge(g, v)
  {
    var others := g.nodes - {v};
    assert |others| == |g.nodes| - 1;
    HasMember(others);
    var w :| w in others;
    var p :| PathFromTo(g, p, v, w);
    DistinctEnds(g, p, v, w);
    assert p[1] in OutEdges(g, v);
    var q :| PathFromTo(g, q, w, v);
    DistinctEnds(g, q, w, v);
  }

  /** A graph of two or more nodes with a node that has no outgoing edge is
      not strongly connected: the reason the traversal gives up on a dead end. */
  lemma SinkBreaksStrongConnectivity(g: Graph, v: Key)
    requires WellFormed(g) && |g.nodes| >= 2 && v in g.nodes && OutEdges(g, v) == {}
    ensures !StronglyConnected(g)
  {
    if StronglyConnected(g) {
      ConnectedNodeHasEdges(g, v);
    }
  }

  /**
   * For a graph of two or more nodes and any node `s` of it: the graph is
   * strongly connected iff both traversals from `s` succeed, that is, iff `s`
   * reaches every node, every node reaches `s` by a walk of at least one
   * edge, and every node has both an outgoing and an incoming edge.
   */
  lemma StrongConnectivityFromOneNode(g: Graph, s: Key)
    requires WellFormed(g) && |g.nodes| >= 2 && s in g.nodes
    ensures StronglyConnected(g) <==>
      (forall v :: v in g.nodes ==> Reachable(g, s, v) && OutEdges(g, v) != {}) &&
      (forall v :: v in g.nodes ==> ReachablePlus(g, v, s) && HasInEdge(g, v))
  {
    if StronglyConnected(g) {
      forall v | v in g.nodes ensures ReachablePlus(g, v, s) && HasInEdge(g, v) && OutEdges(g, v) != {} {
        ConnectedNodeHasEdges(g, v);
        ConnectedNodeReachesBack(g, s, v);
      }
    }
    if && (forall v :: v in g.nodes ==> Reachable(g, s, v))
       && (forall v :: v in g.nodes ==> ReachablePlus(g, v, s))
    {
      ThroughOneNode(g, s);
    }
  }

  /** A node that reaches every node and is reached from every node joins every pair. */
  lemma ThroughOneNode(g: Graph, s: Key)
    requires WellFormed(g)
    requires forall v :: v in g.nodes ==> Reachable(g, s, v)
    requires forall v :: v in g.nodes ==> ReachablePlus(g, v, s)
    ensures StronglyConnected(g)
  {
    forall u, v | u in g.nodes && v in g.nodes ensures Reachable(g, u, v) {
      ReachablePlusReachable(g, u, s);
      ReachableTrans(g, u, s, v);
    }
  }

  /** In a strongly connected graph of two or more nodes, every node reaches
      every node by a walk of at least one edge. */
  lemma ConnectedNodeReachesBack(g: Graph, s: Key, v: Key)
    requires WellFormed(g) && StronglyConnected(g) && |g.nodes| >= 2
    requires s in g.nodes && v in g.nodes
    ensures ReachablePlus(g, v, s)
  {
    ConnectedNodeHasEdges(g, v);
    var out := OutEdges(g, v);
    HasMember(out);
    var w :| w in out;
    ReachablePlusFirst(g, v, w, s);
  }
}
