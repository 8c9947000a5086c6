/**
 * Single-source shortest path (`shortestPath`, `shortestPathDist`,
 * `rebuildPath`).  The Java code keeps each node's tentative distance in its
 * `weight` field and marks it settled through its `tag`; here both are state
 * local to one call: a distance map whose None is "infinity", and a settled
 * set.  The frontier is a set polled by true extract-min.
 */
module ShortestPaths {
  import opened Wrappers
  import opened Graphs

  /** A node of a returned path: its key and its `weight` field, which then
      holds the node's distance from `src`. */
  datatype PathNode = PathNode(key: Key, weight: nat)

  /** Tentative distance of every node; None stands for infinity. */
  type DistMap = map<Key, Option<nat>>

  function Keys(path: seq<PathNode>): (r: seq<Key>)
    ensures |r| == |path|
    ensures forall i :: 0 <= i < |path| ==> r[i] == path[i].key
  {
    seq(|path|, i requires 0 <= i < |path| => path[i].key)
  }

  /** `setWeightInfinity`: every node starts at distance infinity. */
  function SetWeightInfinity(g: Graph): (dist: DistMap)
    ensures dist.Keys == g.nodes
    ensures forall k :: k in dist ==> dist[k] == None
  {
    map k | k in g.nodes :: None
  }

  predicate Finite(dist: DistMap, v: Key) {
    v in dist && dist[v].Some?
  }

  /** The tentative distance of `v`, read only where it is finite. */
  function D(dist: DistMap, v: Key): nat {
    if Finite(dist, v) then dist[v].value else 0
  }

  /** A returned path: it runs from `src` to `dest` along edges of `g`, each
      node's `weight` is the cost of the path up to that node, and no path from
      `src` to `dest` costs less than the last node's `weight`. */
  ghost predicate IsShortestPath(g: Graph, path: seq<PathNode>, src: Key, dest: Key) {
    && |path| > 0
    && PathFromTo(g, Keys(path), src, dest)
    && (forall i :: 0 <= i < |path| ==> path[i].weight == Cost(g, Keys(path)[..i + 1]))
    && (forall p :: PathFromTo(g, p, src, dest) ==> path[|path| - 1].weight <= Cost(g, p))
  }

  // ---------------------------------------------------------------------
  // The scratch state between steps of the search.

  /** Edge (u, v) has been relaxed: `v` is no farther than `u` plus the edge. */
  ghost predicate Relaxed(g: Graph, dist: DistMap, u: Key, v: Key) {
    Finite(dist, v) && D(dist, v) <= D(dist, u) + W(g, u, v)
  }

  ghost predicate RelaxedFrom(g: Graph, dist: DistMap, u: Key) {
    forall v :: (u, v) in g.weight ==> Relaxed(g, dist, u, v)
  }

  /** The recorded predecessor of `v` is settled, joined to `v` by an edge,
      and accounts exactly for `v`'s distance. */
  ghost predicate PrevOk(g: Graph, dist: DistMap, settled: set<Key>, prev: map<Key, Key>, v: Key)
    requires v in prev
  {
    && Finite(dist, v) && prev[v] in settled && (prev[v], v) in g.weight
    && D(dist, v) == D(dist, prev[v]) + g.weight[(prev[v], v)]
  }

  /**
   * The search state: finite distances are exactly the settled and frontier
   * nodes; every reached node other than `src` has a predecessor settled
   * earlier (by `rank`, the order of settling); no settled node is farther
   * than a frontier node; and a settled node's distance is no more than the
   * cost of any path to it.
   */
  ghost predicate Core(g: Graph, src: Key, dist: DistMap, prev: map<Key, Key>,
                       settled: set<Key>, frontier: set<Key>, rank: map<Key, nat>) {
    && src in g.nodes && dist.Keys == g.nodes
    && settled <= g.nodes && frontier <= g.nodes && settled !! frontier
    && dist[src] == Some(0)
    && (forall v :: v in dist ==> (dist[v].Some? <==> v in settled || v in frontier))
    && src !in prev
    && (forall v :: Finite(dist, v) && v != src ==> v in prev)
    && (forall v :: v in prev ==> PrevOk(g, dist, settled, prev, v))
    && rank.Keys == settled
    && (forall v :: v in prev && v in settled ==> rank[prev[v]] < rank[v])
    && (forall u, v :: u in settled && v in frontier ==> D(dist, u) <= D(dist, v))
    && (forall u, p :: u in settled && PathFromTo(g, p, src, u) ==> D(dist, u) <= Cost(g, p))
  }

  /** The state between polls: in addition, every settled node's edges are relaxed. */
  ghost predicate Invariant(g: Graph, src: Key, dist: DistMap, prev: map<Key, Key>,
                            settled: set<Key>, frontier: set<Key>, rank: map<Key, nat>) {
    && Core(g, src, dist, prev, settled, frontier, rank)
    && (forall u :: u in settled ==> RelaxedFrom(g, dist, u))
  }

  // ---------------------------------------------------------------------
  // The search.

  /** `pq.poll()` on a priority queue ordered by tentative distance: a
      frontier node of least distance. */
  method Poll(frontier: set<Key>, dist: DistMap) returns (u: Key)
    requires frontier != {}
    ensures u in frontier
    ensures forall v :: v in frontier ==> D(dist, u) <= D(dist, v)
  {
    u := Pick(frontier);
    var rest := frontier - {u};
    while rest != {}
      invariant rest <= frontier && u in frontier
      invariant forall v :: v in frontier && v !in rest ==> D(dist, u) <= D(dist, v)
      decreases rest
    {
      var v := Pick(rest);
      if D(dist, v) < D(dist, u) {
        u := v;
      }
      rest := rest - {v};
    }
  }

  /**
   * One iteration of the inner loop: relax edge (u, v) (lower `v`'s distance
   * and record `u` as its predecessor when going through `u` is strictly
   * shorter), then queue `v` unless it is queued or settled.
   */
  method RelaxEdge(g: Graph, ghost src: Key, u: Key, v: Key, dist: DistMap, prev: map<Key, Key>,
                   settled: set<Key>, frontier: set<Key>, ghost rank: map<Key, nat>)
    returns (dist': DistMap, prev': map<Key, Key>, frontier': set<Key>)
    requires WellFormed(g) && Core(g, src, dist, prev, settled, frontier, rank)
    requires u in settled && (u, v) in g.weight
    requires forall s :: s in settled ==> D(dist, s) <= D(dist, u)
    ensures Core(g, src, dist', prev', settled, frontier', rank)
    ensures Relaxed(g, dist', u, v)
    ensures forall x :: Finite(dist, x) ==> Finite(dist', x) && D(dist', x) <= D(dist, x)
    ensures forall s :: s in settled ==> D(dist', s) == D(dist, s)
  {
    var total := D(dist, u) + g.weight[(u, v)];
    dist', prev' := dist, prev;
    if dist[v].None? || total < dist[v].value {
      Improve(g, src, u, v, total, dist, prev, settled, frontier, rank);
      dist' := dist[v := Some(total)];
      prev' := prev[v := u];
    }
    frontier' := frontier;
    if v !in frontier && v !in settled {
      frontier' := frontier + {v};
    }
    assert frontier' == frontier + {v} || dist' == dist;
  }

  /** Lowering the distance of `v` to `total` through the settled node `u`,
      and queueing `v`, keeps the search state. */
  lemma Improve(g: Graph, src: Key, u: Key, v: Key, total: nat, dist: DistMap, prev: map<Key, Key>,
                settled: set<Key>, frontier: set<Key>, rank: map<Key, nat>)
    requires WellFormed(g) && Core(g, src, dist, prev, settled, frontier, rank)
    requires u in settled && (u, v) in g.weight && total == D(dist, u) + g.weight[(u, v)]
    requires forall s :: s in settled ==> D(dist, s) <= D(dist, u)
    requires dist[v].None? || total < dist[v].value
    ensures v !in settled && v != src
    ensures Core(g, src, dist[v := Some(total)], prev[v := u], settled, frontier + {v}, rank)
  {
    var dist', prev', frontier' := dist[v := Some(total)], prev[v := u], frontier + {v};
    assert v !in settled;
    forall x | x in prev' ensures PrevOk(g, dist', settled, prev', x) {
      if x != v {
        assert PrevOk(g, dist, settled, prev, x);
      }
    }
    forall a, b | a in settled && b in frontier' ensures D(dist', a) <= D(dist', b) {
      if b != v {
        assert D(dist, a) <= D(dist, b);
      }
    }
    forall a, p | a in settled && PathFromTo(g, p, src, a) ensures D(dist', a) <= Cost(g, p) {
      assert D(dist, a) <= Cost(g, p);
    }
  }

  /**
   * The loop over the polled node's outgoing edges, with the Java code's
   * `destinationFound` flag: it is raised when `dest` is seen as the
   * neighbour of a settled node.
   */
  method RelaxAll(g: Graph, ghost src: Key, dest: Key, u: Key, dist0: DistMap, prev0: map<Key, Key>,
                  settled: set<Key>, frontier0: set<Key>, found0: bool, ghost rank: map<Key, nat>)
    returns (dist: DistMap, prev: map<Key, Key>, frontier: set<Key>, found: bool)
    requires WellFormed(g) && Core(g, src, dist0, prev0, settled, frontier0, rank)
    requires u in settled
    requires forall s :: s in settled && s != u ==> RelaxedFrom(g, dist0, s)
    requires forall s :: s in settled ==> D(dist0, s) <= D(dist0, u)
    requires found0 ==> Finite(dist0, dest)
    requires !found0 ==> forall s :: s in settled && s != u ==> (s, dest) !in g.weight
    ensures Invariant(g, src, dist, prev, settled, frontier, rank)
    ensures found ==> Finite(dist, dest)
    ensures !found ==> forall s :: s in settled ==> (s, dest) !in g.weight
  {
    dist, prev, frontier, found := dist0, prev0, frontier0, found0;
    var out := OutEdges(g, u);
    var todo := out;
    while todo != {}
      invariant todo <= out
      invariant Core(g, src, dist, prev, settled, frontier, rank)
      invariant forall s :: s in settled && s != u ==> RelaxedFrom(g, dist, s)
      invariant forall v :: v in out && v !in todo ==> Relaxed(g, dist, u, v)
      invariant forall s :: s in settled ==> D(dist, s) <= D(dist, u)
      invariant found ==> Finite(dist, dest)
      invariant !found ==> (dest in todo || dest !in out) && forall s :: s in settled && s != u ==> (s, dest) !in g.weight
      decreases todo
    {
      var v := Pick(todo);
      todo := todo - {v};
      if v == dest {
        found := true;
      }
      ghost var before := dist;
      dist, prev, frontier := RelaxEdge(g, src, u, v, dist, prev, settled, frontier, rank);
      forall s, x | s in settled && s != u && (s, x) in g.weight ensures Relaxed(g, dist, s, x) {
        assert Relaxed(g, before, s, x);
      }
      forall x | x in out && x !in todo ensures Relaxed(g, dist, u, x) {
        if x != v {
          assert Relaxed(g, before, u, x);
        }
      }
    }
  }

  /** The index of the first node of `p` outside `S`, when its last node is outside. */
  lemma FirstOutside(p: seq<Key>, S: set<Key>) returns (j: nat)
    requires |p| > 0 && p[|p| - 1] !in S
    ensures j < |p| && p[j] !in S
    ensures forall i :: 0 <= i < j ==> p[i] in S
  {
    j := 0;
    while p[j] in S
      invariant j < |p|
      invariant forall i :: 0 <= i < j ==> p[i] in S
      decreases |p| - j
    {
      j := j + 1;
    }
  }

  /**
   * The extract-min step is sound: a polled node's tentative distance is
   * already no more than the cost of any path to it.  Any such path leaves
   * the settled set somewhere; the node where it first does is on the
   * frontier, no nearer than the polled node, and no farther than the path's
   * cost up to it.
   */
  lemma PolledIsOptimal(g: Graph, src: Key, dist: DistMap, prev: map<Key, Key>,
                        settled: set<Key>, frontier: set<Key>, rank: map<Key, nat>, u: Key)
    requires WellFormed(g) && Invariant(g, src, dist, prev, settled, frontier, rank)
    requires u in frontier && forall v :: v in frontier ==> D(dist, u) <= D(dist, v)
    ensures forall p :: PathFromTo(g, p, src, u) ==> D(dist, u) <= Cost(g, p)
  {
    forall p | PathFromTo(g, p, src, u) ensures D(dist, u) <= Cost(g, p) {
      PathNotCheaper(g, src, dist, prev, settled, frontier, rank, u, p);
    }
  }

  lemma PathNotCheaper(g: Graph, src: Key, dist: DistMap, prev: map<Key, Key>,
                       settled: set<Key>, frontier: set<Key>, rank: map<Key, nat>, u: Key, p: seq<Key>)
    requires WellFormed(g) && Invariant(g, src, dist, prev, settled, frontier, rank)
    requires u in frontier && forall v :: v in frontier ==> D(dist, u) <= D(dist, v)
    requires PathFromTo(g, p, src, u)
    ensures D(dist, u) <= Cost(g, p)
  {
    var j := FirstOutside(p, settled);
    if j == 0 {
      assert src in frontier;
    } else {
      var a, b := p[j - 1], p[j];
      PathPrefix(g, p, j);
      assert PathFromTo(g, p[..j], src, a);
      assert Relaxed(g, dist, a, b);
      CostStep(g, p, j);
      CostPrefix(g, p, j + 1);
      assert b in frontier;
    }
  }

  /** Settling the polled node keeps the search state, and the node is the
      farthest settled one. */
  lemma Settle(g: Graph, src: Key, dist: DistMap, prev: map<Key, Key>, settled: set<Key>,
               frontier: set<Key>, rank: map<Key, nat>, clock: nat, u: Key)
    requires WellFormed(g) && Invariant(g, src, dist, prev, settled, frontier, rank)
    requires forall k :: k in rank ==> rank[k] < clock
    requires u in frontier && forall v :: v in frontier ==> D(dist, u) <= D(dist, v)
    ensures Core(g, src, dist, prev, settled + {u}, frontier - {u}, rank[u := clock])
    ensures forall s :: s in settled + {u} ==> D(dist, s) <= D(dist, u)
  {
    PolledIsOptimal(g, src, dist, prev, settled, frontier, rank, u);
    var settled', rank' := settled + {u}, rank[u := clock];
    forall v | v in prev && v in settled' ensures rank'[prev[v]] < rank'[v] {
      assert prev[v] in settled;
    }
  }

  /**
   * The main loop of `shortestPath`: start with every distance infinite but
   * `src`'s, which is 0, and `src` queued; poll, settle and relax until the
   * queue is empty.  Afterwards the settled nodes are exactly those at finite
   * distance, and `found` tells whether some settled node has an edge to `dest`.
   */
  method Explore(g: Graph, src: Key, dest: Key)
    returns (dist: DistMap, prev: map<Key, Key>, found: bool, settled: set<Key>, ghost rank: map<Key, nat>)
    requires WellFormed(g) && src in g.nodes
    ensures Invariant(g, src, dist, prev, settled, {}, rank)
    ensures found ==> Finite(dist, dest)
    ensures !found ==> forall s :: s in settled ==> (s, dest) !in g.weight
  {
    dist := SetWeightInfinity(g)[src := Some(0)];
    prev := map[];
    settled := {};
    var frontier := {src};
    found := false;
    rank := map[];
    ghost var clock: nat := 0;
    while frontier != {}
      invariant Invariant(g, src, dist, prev, settled, frontier, rank)
      invariant forall k :: k in rank ==> rank[k] < clock
      invariant found ==> Finite(dist, dest)
      invariant !found ==> forall s :: s in settled ==> (s, dest) !in g.weight
      decreases g.nodes - settled
    {
      dist, prev, settled, frontier, found, rank :=
        Step(g, src, dest, dist, prev, settled, frontier, found, rank, clock);
      clock := clock + 1;
    }
  }

  /** One iteration of the main loop: poll the nearest frontier node, settle
      it, and relax its outgoing edges. */
  method Step(g: Graph, src: Key, dest: Key, dist0: DistMap, prev0: map<Key, Key>, settled0: set<Key>,
              frontier0: set<Key>, found0: bool, ghost rank0: map<Key, nat>, ghost clock: nat)
    returns (dist: DistMap, prev: map<Key, Key>, settled: set<Key>, frontier: set<Key>, found: bool,
             ghost rank: map<Key, nat>)
    requires WellFormed(g) && Invariant(g, src, dist0, prev0, settled0, frontier0, rank0)
    requires frontier0 != {} && forall k :: k in rank0 ==> rank0[k] < clock
    requires found0 ==> Finite(dist0, dest)
    requires !found0 ==> forall s :: s in settled0 ==> (s, dest) !in g.weight
    ensures Invariant(g, src, dist, prev, settled, frontier, rank)
    ensures forall k :: k in rank ==> rank[k] < clock + 1
    ensures found ==> Finite(dist, dest)
    ensures !found ==> forall s :: s in settled ==> (s, dest) !in g.weight
    ensures g.nodes - settled < g.nodes - settled0
  {
    var u := Poll(frontier0, dist0);
    Settle(g, src, dist0, prev0, settled0, frontier0, rank0, clock, u);
    settled := settled0 + {u};
    rank := rank0[u := clock];
    dist, prev, frontier, found := RelaxAll(g, src, dest, u, dist0, prev0, settled, frontier0 - {u}, found0, rank);
    assert u in g.nodes - settled0 && u !in g.nodes - settled;
  }

  /** A path whose first weight is 0 and whose weights grow by each edge it
      crosses carries, at every node, the cost of the path up to that node. */
  lemma LabelsAreCosts(g: Graph, path: seq<PathNode>)
    requires |path| > 0 && path[0].weight == 0
    requires forall i :: 0 <= i < |path| - 1 ==>
      path[i + 1].weight == path[i].weight + W(g, path[i].key, path[i + 1].key)
    ensures forall i :: 0 <= i < |path| ==> path[i].weight == Cost(g, Keys(path)[..i + 1])
  {
    forall i | 0 <= i < |path| ensures path[i].weight == Cost(g, Keys(path)[..i + 1]) {
      LabelIsCost(g, path, i);
    }
  }

  lemma {:induction false} LabelIsCost(g: Graph, path: seq<PathNode>, i: nat)
    requires i < |path| && path[0].weight == 0
    requires forall j :: 0 <= j < |path| - 1 ==>
      path[j + 1].weight == path[j].weight + W(g, path[j].key, path[j + 1].key)
    ensures path[i].weight == Cost(g, Keys(path)[..i + 1])
    decreases i
  {
    if i == 0 {
      assert Keys(path)[..1] == [path[0].key];
    } else {
      LabelIsCost(g, path, i - 1);
      CostStep(g, Keys(path), i);
    }
  }

  /**
   * `rebuildPath`: walk the predecessor map back from `dest` to `src`.  Each
   * node carries its final distance; the walk ends because every predecessor
   * was settled strictly earlier.
   */
  method RebuildPath(g: Graph, src: Key, dest: Key, dist: DistMap, prev: map<Key, Key>,
                     ghost settled: set<Key>, ghost rank: map<Key, nat>)
    returns (path: seq<PathNode>)
    requires WellFormed(g) && Invariant(g, src, dist, prev, settled, {}, rank) && Finite(dist, dest)
    ensures |path| > 0 && PathFromTo(g, Keys(path), src, dest)
    ensures forall i :: 0 <= i < |path| ==> path[i].weight == Cost(g, Keys(path)[..i + 1])
    ensures path[|path| - 1].weight == D(dist, dest)
  {
    var cur := dest;
    path := [PathNode(dest, D(dist, dest))];
    while cur != src
      invariant Finite(dist, cur)
      invariant |path| > 0 && path[0].key == cur && path[|path| - 1] == PathNode(dest, D(dist, dest))
      invariant forall i :: 0 <= i < |path| ==> Finite(dist, path[i].key) && path[i].weight == D(dist, path[i].key)
      invariant forall i :: 0 <= i < |path| - 1 ==>
        (path[i].key, path[i + 1].key) in g.weight &&
        path[i + 1].weight == path[i].weight + W(g, path[i].key, path[i + 1].key)
      decreases rank[cur]
    {
      var p := prev[cur];
      path := [PathNode(p, D(dist, p))] + path;
      cur := p;
    }
    LabelsAreCosts(g, path);
  }

  /** When no settled node has an edge to `dest`, `dest` is unreachable:
      the settled set holds `src` and is closed under edges. */
  lemma NotFoundUnreachable(g: Graph, src: Key, dest: Key, dist: DistMap, prev: map<Key, Key>,
                            settled: set<Key>, rank: map<Key, nat>)
    requires WellFormed(g) && Invariant(g, src, dist, prev, settled, {}, rank) && src != dest
    requires forall s :: s in settled ==> (s, dest) !in g.weight
    ensures !Reachable(g, src, dest)
  {
    if Reachable(g, src, dest) {
      var p :| PathFromTo(g, p, src, dest);
      DistinctEnds(g, p, src, dest);
      forall a, b | a in settled && (a, b) in g.weight ensures b in settled {
        assert Relaxed(g, dist, a, b);
      }
      PathPrefix(g, p, |p| - 1);
      ClosedPath(g, settled, p[..|p| - 1]);
    }
  }

  /**
   * `shortestPath(src, dest)`.  None when `src` or `dest` is absent or `src`
   * has no outgoing edge (checked before `src == dest`); the empty path when
   * `src == dest`; otherwise None exactly when `dest` is unreachable, and a
   * shortest path, carrying cumulative distances, when it is reachable.
   */
  method ShortestPath(g: Graph, src: Key, dest: Key) returns (r: Option<seq<PathNode>>)
    requires WellFormed(g)
    ensures r.None? <==>
      src !in g.nodes || dest !in g.nodes || OutEdges(g, src) == {} ||
      (src != dest && !Reachable(g, src, dest))
    ensures r.Some? && src == dest ==> r.value == []
    ensures r.Some? && src != dest ==> IsShortestPath(g, r.value, src, dest)
  {
    if src !in g.nodes || dest !in g.nodes {
      return None;
    }
    if OutEdges(g, src) == {} {
      return None;
    }
    if src == dest {
      return Some([]);
    }
    var dist, prev, found, settled, rank := Explore(g, src, dest);
    if !found {
      NotFoundUnreachable(g, src, dest, dist, prev, settled, rank);
      return None;
    }
    var path := RebuildPath(g, src, dest, dist, prev, settled, rank);
    assert dest in settled;
    return Some(path);
  }

  /**
   * `shortestPathDist(src, dest)`: -1 when there is no path and also when
   * `src == dest` (the empty path has no last node); otherwise the least cost
   * of a path from `src` to `dest`.
   */
  method ShortestPathDist(g: Graph, src: Key, dest: Key) returns (d: int)
    requires WellFormed(g)
    ensures d == -1 <==> src !in g.nodes || dest !in g.nodes || src == dest || !Reachable(g, src, dest)
    ensures d != -1 ==> d >= 0
    ensures d != -1 ==> exists p :: PathFromTo(g, p, src, dest) && Cost(g, p) == d
    ensures d != -1 ==> forall p :: PathFromTo(g, p, src, dest) ==> d <= Cost(g, p)
  {
    LeavesByAnEdge(g, src, dest);
    var path := ShortestPath(g, src, dest);
    if path.None? {
      return -1;
    }
    var size := |path.value|;
    if size > 0 {
      var last := path.value[size - 1];
      assert Keys(path.value)[..size] == Keys(path.value);
      return last.weight;
    }
    return -1;
  }
}
