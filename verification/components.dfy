/**
 * Strongly connected component extraction (`connected_component`,
 * `connected_components`).  The component of `k` is the set of nodes that `k`
 * reaches and that reach `k`.  The versions in the Java code are modelled as written
 * next to corrected ones; the corrected ones keep the forward and backward
 * marks as two separate sets instead of one tag field.
 */
module Components {
  import opened Graphs
  import opened Transposition
  import opened Traversal

  /** The strongly connected component of `k`. */
  ghost function SccOf(g: Graph, k: Key): set<Key> {
    set v | v in g.nodes && Reachable(g, k, v) && Reachable(g, v, k)
  }

  /** Only a node of the graph has a non-empty component. */
  lemma SccOfMember(g: Graph, k: Key)
    ensures forall v :: v in SccOf(g, k) ==> k in g.nodes && v in g.nodes
  {
    forall v | v in SccOf(g, k) ensures k in g.nodes {
      var p :| PathFromTo(g, p, k, v);
    }
  }

  lemma SccSelf(g: Graph, k: Key)
    requires k in g.nodes
    ensures k in SccOf(g, k)
  {
    ReachableRefl(g, k);
  }

  /** Components are equivalence classes: a member's component is the component it is in. */
  lemma SccSame(g: Graph, a: Key, v: Key)
    requires WellFormed(g) && v in SccOf(g, a)
    ensures SccOf(g, v) == SccOf(g, a)
  {
    forall w | w in SccOf(g, a) ensures w in SccOf(g, v) {
      ReachableTrans(g, v, a, w);
      ReachableTrans(g, w, a, v);
    }
    forall w | w in SccOf(g, v) ensures w in SccOf(g, a) {
      ReachableTrans(g, a, v, w);
      ReachableTrans(g, w, v, a);
    }
  }

  /** A graph is strongly connected exactly when some node's component is the whole node set. */
  lemma StronglyConnectedIffOneComponent(g: Graph, k: Key)
    requires WellFormed(g) && k in g.nodes
    ensures StronglyConnected(g) <==> SccOf(g, k) == g.nodes
  {
    if SccOf(g, k) == g.nodes {
      forall u, v | u in g.nodes && v in g.nodes ensures Reachable(g, u, v) {
        assert u in SccOf(g, k) && v in SccOf(g, k);
        ReachableTrans(g, u, k, v);
      }
    }
  }

  /**
   * `connected_component(src)` as written: it runs the traversal from `src`,
   * builds the transpose, runs the traversal again and keeps the nodes of the
   * transpose whose tag is 2.  The second call still walks the wrapped graph
   * (the Java code does not swap it for the transpose) and starts by clearing
   * every tag, and no traversal ever writes a tag other than 0 or 1, so the
   * result is empty for every `src`.
   */
  method ConnectedComponentAsWritten(g: Graph, src: Key) returns (comp: set<Key>)
    requires WellFormed(g)
    ensures comp == {}
  {
    if src !in g.nodes {
      return {};
    }
    var reachedAll, firstMarks := IsConnectedBfs(g, src, true);
    var t := Transpose(g);
    var reachedAgain, secondMarks := IsConnectedBfs(g, src, false);
    var tag := map k | k in t.nodes :: if k in firstMarks || k in secondMarks then 1 else 0;
    comp := set k | k in t.nodes && tag[k] == 2;
  }

  /** The two-node cycle 1 -> 2 -> 1: one component holding both nodes. */
  function TwoCycle(): (g: Graph)
    ensures WellFormed(g)
  {
    Graph({1, 2}, map[(1, 2) := 1, (2, 1) := 1])
  }

  lemma TwoCycleComponents()
    ensures SccOf(TwoCycle(), 1) == {1, 2}
    ensures SccOf(TwoCycle(), 2) == {1, 2}
  {
    var g := TwoCycle();
    assert PathFromTo(g, [1, 2], 1, 2);
    assert PathFromTo(g, [2, 1], 2, 1);
    ReachableRefl(g, 1);
    ReachableRefl(g, 2);
  }

  /** On the two-node cycle the Java code's `connected_component(1)` is empty,
      while the component of 1 is {1, 2}. */
  method ComponentAsWrittenMissesTwoCycle() returns (comp: set<Key>)
    ensures comp == {} && SccOf(TwoCycle(), 1) == {1, 2}
  {
    comp := ConnectedComponentAsWritten(TwoCycle(), 1);
    TwoCycleComponents();
  }

  /**
   * `connected_component(src)` corrected: the nodes marked by a traversal
   * from `src` in the graph and by a traversal from `src` in its transpose,
   * with the two sets of marks kept apart.  Empty for an absent `src`.
   */
  method ConnectedComponent(g: Graph, src: Key) returns (comp: set<Key>)
    requires WellFormed(g)
    ensures comp == SccOf(g, src)
  {
    if src !in g.nodes {
      SccOfMember(g, src);
      EmptyIfNoElement(SccOf(g, src));
      return {};
    }
    var forward := ReachableFrom(g, src);
    TransposeWellFormed(g);
    var backward := ReachableFrom(Transpose(g), src);
    comp := forward * backward;
    forall v ensures v in comp <==> v in SccOf(g, src) {
      ReachableTranspose(g, src, v);
    }
  }

  /**
   * `connected_components()` as written, over the node iteration order
   * `order`: it calls the Java code's `connected_component`, which is always
   * empty, so nothing is ever recorded as seen and the result is one empty
   * list per node.
   */
  method ConnectedComponentsAsWritten(g: Graph, order: seq<Key>) returns (comps: seq<set<Key>>)
    requires WellFormed(g)
    ensures |comps| == |order|
    ensures forall c :: 0 <= c < |comps| ==> comps[c] == {}
  {
    comps := [];
    var visited: set<Key> := {};
    var path: set<Key> := {};
    var i := 0;
    while i < |order|
      invariant 0 <= i <= |order| && |comps| == i
      invariant path == {} && visited == {}
      invariant forall c :: 0 <= c < i ==> comps[c] == {}
    {
      if order[i] !in visited {
        path := ConnectedComponentAsWritten(g, order[i]);
        visited := visited + path;
      }
      comps := [path] + comps;
      i := i + 1;
    }
  }

  /**
   * The loop of `connected_components()` as written, with the corrected
   * `connected_component` in place of the Java code's: for each node it
   * computes a component only if the node has not been seen, but appends the
   * last computed list for every node, so there is one entry per node and an
   * already-seen node repeats an earlier component.  The final reversal is
   * modelled by prepending.
   */
  method ConnectedComponentsStalePath(g: Graph, order: seq<Key>) returns (comps: seq<set<Key>>)
    requires WellFormed(g)
    ensures |comps| == |order|
    ensures forall c :: 0 <= c < |comps| ==>
      exists j :: 0 <= j < |order| - c && comps[c] == SccOf(g, order[j])
  {
    comps := [];
    var visited: set<Key> := {};
    var path: set<Key> := {};
    ghost var pathFrom: nat := 0;
    ghost var from: seq<nat> := [];
    var i := 0;
    while i < |order|
      invariant 0 <= i <= |order| && |comps| == i && |from| == i
      invariant forall c :: 0 <= c < i ==> from[c] < i - c && comps[c] == SccOf(g, order[from[c]])
      invariant i == 0 ==> visited == {}
      invariant i > 0 ==> pathFrom < i && path == SccOf(g, order[pathFrom])
    {
      if order[i] !in visited {
        path := ConnectedComponent(g, order[i]);
        pathFrom := i;
        visited := visited + path;
      }
      ghost var before, fromBefore := comps, from;
      comps := [path] + comps;
      from := [pathFrom] + from;
      assert forall c :: 0 <= c < |before| ==> comps[c + 1] == before[c] && from[c + 1] == fromBefore[c];
      i := i + 1;
    }
    forall c | 0 <= c < |comps|
      ensures exists j :: 0 <= j < |order| - c && comps[c] == SccOf(g, order[j])
    {
      var j := from[c];
      assert 0 <= j < |order| - c && comps[c] == SccOf(g, order[j]);
    }
  }

  /** On the two-node cycle in order [1, 2] the loop of `connected_components()`
      lists the one component twice. */
  method DuplicateComponentsOnTwoCycle() returns (comps: seq<set<Key>>)
    ensures |comps| == 2 && comps[0] == {1, 2} && comps[1] == {1, 2}
  {
    TwoCycleComponents();
    var order := [1, 2];
    comps := ConnectedComponentsStalePath(TwoCycle(), order);
    forall j | 0 <= j < |order| ensures SccOf(TwoCycle(), order[j]) == {1, 2} {
      assert order[0] == 1 && order[1] == 2;
    }
  }

  /** The nodes covered by a list of components. */
  function Union(comps: seq<set<Key>>): set<Key> {
    if comps == [] then {} else comps[0] + Union(comps[1..])
  }

  lemma {:induction false} UnionMembers(comps: seq<set<Key>>)
    ensures forall k :: k in Union(comps) <==> exists c :: 0 <= c < |comps| && k in comps[c]
    decreases |comps|
  {
    if comps != [] {
      UnionMembers(comps[1..]);
      forall k | k in Union(comps) ensures exists c :: 0 <= c < |comps| && k in comps[c] {
        if k !in comps[0] {
          assert k in Union(comps[1..]);
          var c :| 0 <= c < |comps[1..]| && k in comps[1..][c];
          assert k in comps[c + 1];
        }
      }
      forall k | exists c :: 0 <= c < |comps| && k in comps[c] ensures k in Union(comps) {
        var c :| 0 <= c < |comps| && k in comps[c];
        if c > 0 {
          assert k in comps[1..][c - 1];
        }
      }
    }
  }

  /** `comps` lists distinct components, and `visited` is the set of nodes they cover. */
  ghost predicate DisjointComponents(g: Graph, comps: seq<set<Key>>, visited: set<Key>) {
    && visited == Union(comps)
    && (forall c :: 0 <= c < |comps| ==> comps[c] != {})
    && (forall c, k :: 0 <= c < |comps| && k in comps[c] ==> comps[c] == SccOf(g, k))
    && (forall c, d :: 0 <= c < d < |comps| ==> comps[c] !! comps[d])
  }

  /** Adding the component of a node not yet covered keeps the components distinct. */
  lemma AddComponent(g: Graph, comps: seq<set<Key>>, visited: set<Key>, x: Key)
    requires WellFormed(g) && DisjointComponents(g, comps, visited)
    requires x in g.nodes && x !in visited
    ensures x in SccOf(g, x)
    ensures DisjointComponents(g, [SccOf(g, x)] + comps, visited + SccOf(g, x))
  {
    var comp := SccOf(g, x);
    var comps' := [comp] + comps;
    SccSelf(g, x);
    UnionMembers(comps);
    assert comps'[1..] == comps;
    assert forall c :: 0 <= c < |comps| ==> comps'[c + 1] == comps[c];
    forall k | k in comp ensures SccOf(g, k) == comp {
      SccSame(g, x, k);
    }
    forall c, k | 0 <= c < |comps| && k in comp ensures k !in comps[c] {
      SccSame(g, x, k);
    }
  }

  /**
   * `connected_components()` corrected: a component is appended only for a
   * node not yet seen.  The result is a partition of the node set into its
   * strongly connected components.
   */
  method ConnectedComponents(g: Graph, order: seq<Key>) returns (comps: seq<set<Key>>)
    requires WellFormed(g)
    requires forall k :: k in order <==> k in g.nodes
    ensures forall i :: 0 <= i < |comps| ==> comps[i] != {}
    ensures forall i, k :: 0 <= i < |comps| && k in comps[i] ==> comps[i] == SccOf(g, k)
    ensures forall i, j :: 0 <= i < j < |comps| ==> comps[i] !! comps[j]
    ensures forall k :: k in g.nodes <==> exists i :: 0 <= i < |comps| && k in comps[i]
  {
    comps := [];
    var visited: set<Key> := {};
    var i := 0;
    while i < |order|
      invariant 0 <= i <= |order|
      invariant forall m :: 0 <= m < i ==> order[m] in visited
      invariant visited <= g.nodes
      invariant DisjointComponents(g, comps, visited)
    {
      var x := order[i];
      ghost var visited0 := visited;
      if x !in visited {
        var comp := ConnectedComponent(g, x);
        AddComponent(g, comps, visited, x);
        comps := [comp] + comps;
        visited := visited + comp;
      }
      assert x in visited && visited0 <= visited;
      i := i + 1;
    }
    forall k | k in g.nodes ensures k in visited {
      var m :| 0 <= m < |order| && order[m] == k;
    }
    UnionMembers(comps);
  }
}
