/** One-to-all shortest paths (`Graph::run_dijkstra` of `backend/src/graph.rs`)
    over a valid offsets-table graph, checked against the weights of paths.
    The binary min-heap is represented by the set of queued nodes; its pop
    returns a queued node of least tentative distance, and push and
    decrease-key both leave the node queued. */
module ShortestPaths {

  import opened GraphStore
  import opened SortedSets

  /** A tentative distance; `Infinite` is the `usize::MAX` of unreached nodes. */
  datatype Dist = Finite(value: nat) | Infinite

  // ---------------------------------------------------------------------
  // Paths and their weights
  // ---------------------------------------------------------------------

  /** `p` is a walk along edges of `g` from `s` to `t`. */
  predicate IsPath(g: Graph, p: seq<Edge>, s: nat, t: nat)
    decreases |p|
  {
    if |p| == 0 then s == t
    else
      var e := p[|p| - 1];
      e in g.edges && e.tgt == t && IsPath(g, p[..|p| - 1], s, e.src)
  }

  /** The sum of the edge distances along `p`. */
  function Weight(p: seq<Edge>): nat {
    if |p| == 0 then 0 else Weight(p[..|p| - 1]) + p[|p| - 1].dist
  }

  /** Some path from `s` to `t` weighs exactly `w`. */
  ghost predicate HasPathOfWeight(g: Graph, s: nat, t: nat, w: nat) {
    exists p :: IsPath(g, p, s, t) && Weight(p) == w
  }

  /** A path extended by an edge leaving its end is a path, one edge heavier. */
  lemma PathSnoc(g: Graph, p: seq<Edge>, s: nat, e: Edge)
    requires IsPath(g, p, s, e.src) && e in g.edges
    ensures IsPath(g, p + [e], s, e.tgt)
    ensures Weight(p + [e]) == Weight(p) + e.dist
  {
    assert (p + [e])[..|p|] == p;
  }

  // ---------------------------------------------------------------------
  // Relaxed edges
  // ---------------------------------------------------------------------

  /** Edge `e` cannot improve the distance of its target. */
  predicate Relaxed(dist: seq<Dist>, e: Edge) {
    && e.src < |dist| && e.tgt < |dist|
    && (dist[e.src].Finite? ==>
          dist[e.tgt].Finite? && dist[e.tgt].value <= dist[e.src].value + e.dist)
  }

  /** No edge of `g` can improve any distance in `dist`. */
  predicate NoImprovingEdge(g: Graph, dist: seq<Dist>) {
    forall k :: 0 <= k < |g.edges| ==> Relaxed(dist, g.edges[k])
  }

  /** A table with distance 0 at `src` and no improving edge bounds every
      path from `src`: its end has a finite distance at most the path's
      weight. */
  lemma {:induction false} PathBound(g: Graph, src: nat, dist: seq<Dist>, p: seq<Edge>, v: nat)
    requires src < |dist| && dist[src] == Finite(0)
    requires NoImprovingEdge(g, dist)
    requires IsPath(g, p, src, v)
    ensures v < |dist| && dist[v].Finite? && dist[v].value <= Weight(p)
    decreases |p|
  {
    if |p| > 0 {
      var e := p[|p| - 1];
      PathBound(g, src, dist, p[..|p| - 1], e.src);
      var k :| 0 <= k < |g.edges| && g.edges[k] == e;
      assert Relaxed(dist, g.edges[k]);
    }
  }

  // ---------------------------------------------------------------------
  // The queue
  // ---------------------------------------------------------------------

  /** The heap's pop: some queued node of least tentative distance. */
  method PopMin(queue: set<nat>, dist: seq<Dist>) returns (u: nat, rest: set<nat>)
    requires queue != {}
    requires forall q :: q in queue ==> q < |dist| && dist[q].Finite?
    ensures u in queue && rest == queue - {u}
    ensures forall q :: q in queue ==> dist[u].value <= dist[q].value
  {
    var todo := queue;
    u :| u in todo;
    todo := todo - {u};
    while todo != {}
      invariant todo <= queue && u in queue
      invariant forall q :: q in queue && q !in todo ==> dist[u].value <= dist[q].value
      decreases todo
    {
      var x :| x in todo;
      if dist[x].value < dist[u].value {
        u := x;
      }
      todo := todo - {x};
    }
    rest := queue - {u};
  }

  // ---------------------------------------------------------------------
  // The algorithm
  // ---------------------------------------------------------------------

  /** Every finite distance is the weight of a recorded path to its node. */
  ghost predicate Witnessed(g: Graph, src: nat, dist: seq<Dist>, paths: map<nat, seq<Edge>>) {
    forall v :: 0 <= v < |dist| && dist[v].Finite? ==>
      v in paths && IsPath(g, paths[v], src, v) && Weight(paths[v]) == dist[v].value
  }

  /** The state between two pops: `queue` holds the reached but unsettled
      nodes, `settled` the popped ones, which are never farther than a queued
      node and whose out-edges are all relaxed. */
  ghost predicate Invariant(g: Graph, src: nat, dist: seq<Dist>, queue: set<nat>, settled: set<nat>,
                            paths: map<nat, seq<Edge>>)
  {
    && |dist| == g.numNodes && src < g.numNodes
    && dist[src] == Finite(0)
    && (forall v :: v in queue ==> v < g.numNodes)
    && (forall v :: v in settled ==> v < g.numNodes)
    && queue !! settled
    && (forall v :: 0 <= v < g.numNodes ==> (dist[v].Finite? <==> v in queue || v in settled))
    && (forall s, q :: s in settled && q in queue ==> dist[s].value <= dist[q].value)
    && (forall k :: 0 <= k < |g.edges| && g.edges[k].src in settled ==> Relaxed(dist, g.edges[k]))
    && Witnessed(g, src, dist, paths)
  }

  /** Distances never grow from `before` to `after`. */
  ghost predicate Improved(before: seq<Dist>, after: seq<Dist>) {
    && |after| == |before|
    && forall v :: 0 <= v < |before| && before[v].Finite? ==>
         after[v].Finite? && after[v].value <= before[v].value
  }

  /** The state while the out-edges of the popped node `u` are relaxed:
      `u` already counts as settled, settled nodes are no farther than `u`,
      and queued nodes no nearer. */
  ghost predicate Relaxing(g: Graph, src: nat, u: nat, settled: set<nat>, d: seq<Dist>, queue: set<nat>,
                           paths: map<nat, seq<Edge>>)
  {
    && |d| == g.numNodes && src < g.numNodes && d[src] == Finite(0)
    && u in settled && u < g.numNodes
    && (forall v :: v in queue ==> v < g.numNodes)
    && (forall v :: v in settled ==> v < g.numNodes)
    && queue !! settled
    && (forall v :: 0 <= v < g.numNodes ==> (d[v].Finite? <==> v in queue || v in settled))
    && (forall s :: s in settled ==> d[s].value <= d[u].value)
    && (forall q :: q in queue ==> d[u].value <= d[q].value)
    && Witnessed(g, src, d, paths)
  }

  lemma ImprovedTrans(a: seq<Dist>, b: seq<Dist>, c: seq<Dist>)
    requires Improved(a, b) && Improved(b, c)
    ensures Improved(a, c)
  {
  }

  /** A relaxed edge stays relaxed when its source keeps its distance and
      the other distances only improve. */
  lemma RelaxedKept(d: seq<Dist>, d': seq<Dist>, e: Edge)
    requires Relaxed(d, e) && Improved(d, d') && d'[e.src] == d[e.src]
    ensures Relaxed(d', e)
  {
  }

  /** One iteration of the inner loop of `run_dijkstra`: the tentative
      distance through `u` replaces a larger one (or infinity) at the target,
      which is then queued (pushed, or its key decreased). */
  method RelaxEdge(g: Graph, src: nat, u: nat, e: Edge, ghost settled: set<nat>,
                   d: seq<Dist>, queue: set<nat>, ghost paths: map<nat, seq<Edge>>)
    returns (d': seq<Dist>, queue': set<nat>, ghost paths': map<nat, seq<Edge>>)
    requires e in g.edges && e.src == u && e.tgt < g.numNodes
    requires Relaxing(g, src, u, settled, d, queue, paths)
    ensures Relaxing(g, src, u, settled, d', queue', paths')
    ensures Relaxed(d', e) && Improved(d, d')
    ensures forall f: Edge :: f.src == u && Relaxed(d, f) ==> Relaxed(d', f)
    ensures queue <= queue'
    ensures forall s :: s in settled ==> d'[s] == d[s]
  {
    d', queue', paths' := d, queue, paths;
    var candidate := d[u].value + e.dist;
    if d[e.tgt].Infinite? || candidate < d[e.tgt].value {
      PathSnoc(g, paths[u], src, e);
      d' := d[e.tgt := Finite(candidate)];
      queue' := queue + {e.tgt};
      paths' := paths[e.tgt := paths[u] + [e]];
    }
  }

  /** After the inner loop every out-edge of a settled node is relaxed: those
      of `u` by the loop, the others because their distances did not move;
      so the state is again one between two pops. */
  lemma SettledRelaxed(g: Graph, src: nat, u: nat, settled: set<nat>, dist: seq<Dist>,
                       d: seq<Dist>, queue: set<nat>, paths: map<nat, seq<Edge>>)
    requires ValidGraph(g) && Relaxing(g, src, u, settled, d, queue, paths)
    requires forall k :: g.offsets[u] <= k < g.offsets[u + 1] ==> Relaxed(d, g.edges[k])
    requires forall k :: 0 <= k < |g.edges| && g.edges[k].src in settled - {u} ==> Relaxed(dist, g.edges[k])
    requires Improved(dist, d)
    requires forall s :: s in settled ==> s < |dist| && d[s] == dist[s]
    ensures Invariant(g, src, d, queue, settled, paths)
  {
    forall k | 0 <= k < |g.edges| && g.edges[k].src in settled
      ensures Relaxed(d, g.edges[k])
    {
      var e := g.edges[k];
      EdgeInOwnSlice(g.offsets, Srcs(g.edges), g.numNodes, k);
      assert Srcs(g.edges)[k] == e.src;
      if e.src != u {
        RelaxedKept(dist, d, e);
      }
    }
  }

  /** The slice of `u` in the offsets table lies within the edge list and
      holds edges leaving `u`. */
  lemma SliceSources(g: Graph, u: nat)
    requires ValidGraph(g) && u < g.numNodes
    ensures g.offsets[u] <= g.offsets[u + 1] <= |g.edges|
    ensures forall k :: g.offsets[u] <= k < g.offsets[u + 1] ==> g.edges[k].src == u
  {
    forall k | g.offsets[u] <= k < g.offsets[u + 1]
      ensures g.edges[k].src == u
    {
      assert Srcs(g.edges)[k] == g.edges[k].src;
    }
  }

  /** The inner loop of `run_dijkstra`: relaxes the out-edges of the node
      `u` just popped (and already counted as settled). */
  method RelaxOutEdges(g: Graph, src: nat, u: nat, dist: seq<Dist>, queue: set<nat>, ghost settled: set<nat>,
                       ghost paths: map<nat, seq<Edge>>)
    returns (dist': seq<Dist>, queue': set<nat>, ghost paths': map<nat, seq<Edge>>)
    requires ValidGraph(g) && u !in queue
    requires Relaxing(g, src, u, settled, dist, queue, paths)
    requires forall k :: 0 <= k < |g.edges| && g.edges[k].src in settled - {u} ==> Relaxed(dist, g.edges[k])
    ensures Invariant(g, src, dist', queue', settled, paths')
    ensures queue <= queue'
    ensures forall s :: s in settled ==> dist'[s] == dist[s]
  {
    var d := dist;
    var q: set<nat> := queue;
    ghost var ps: map<nat, seq<Edge>> := paths;
    var lo, hi := g.offsets[u], g.offsets[u + 1];
    SliceSources(g, u);
    var i := lo;
    while i < hi
      invariant lo <= i <= hi
      invariant Relaxing(g, src, u, settled, d, q, ps)
      invariant queue <= q
      invariant forall s :: s in settled ==> d[s] == dist[s]
      invariant Improved(dist, d)
      invariant forall k :: lo <= k < i ==> Relaxed(d, g.edges[k])
    {
      ghost var before := d;
      d, q, ps := RelaxEdge(g, src, u, g.edges[i], settled, d, q, ps);
      ImprovedTrans(dist, before, d);
      i := i + 1;
    }
    SettledRelaxed(g, src, u, settled, dist, d, q, ps);
    dist', queue', paths' := d, q, ps;
  }

  /** Once the queue is empty every reached node is settled, so the table
      has no improving edge, bounds every path, and is witnessed by paths. */
  lemma Settled(g: Graph, src: nat, dist: seq<Dist>, settled: set<nat>, paths: map<nat, seq<Edge>>)
    requires ValidGraph(g) && Invariant(g, src, dist, {}, settled, paths)
    ensures NoImprovingEdge(g, dist)
    ensures forall v: nat, p: seq<Edge> :: IsPath(g, p, src, v) ==>
              v < |dist| && dist[v].Finite? && dist[v].value <= Weight(p)
    ensures forall v: nat :: v < |dist| && dist[v].Finite? ==> HasPathOfWeight(g, src, v, dist[v].value)
  {
    forall k | 0 <= k < |g.edges|
      ensures Relaxed(dist, g.edges[k])
    {
      EdgeInOwnSlice(g.offsets, Srcs(g.edges), g.numNodes, k);
      assert Srcs(g.edges)[k] == g.edges[k].src;
    }
    forall v: nat, p: seq<Edge> | IsPath(g, p, src, v)
      ensures v < |dist| && dist[v].Finite? && dist[v].value <= Weight(p)
    {
      PathBound(g, src, dist, p, v);
    }
    forall v: nat | v < |dist| && dist[v].Finite?
      ensures HasPathOfWeight(g, src, v, dist[v].value)
    {
      var p := paths[v];
      assert IsPath(g, p, src, v) && Weight(p) == dist[v].value;
    }
  }


  /** Popping the nearest queued node `u` and counting it as settled starts
      the relaxation of its out-edges. */
  lemma StartRelaxing(g: Graph, src: nat, dist: seq<Dist>, queue: set<nat>, settled: set<nat>,
                      paths: map<nat, seq<Edge>>, u: nat)
    requires Invariant(g, src, dist, queue, settled, paths)
    requires u in queue && forall q :: q in queue ==> dist[u].value <= dist[q].value
    ensures u !in queue - {u}
    ensures Relaxing(g, src, u, settled + {u}, dist, queue - {u}, paths)
    ensures forall k :: 0 <= k < |g.edges| && g.edges[k].src in (settled + {u}) - {u} ==>
              Relaxed(dist, g.edges[k])
  {
    assert (settled + {u}) - {u} == settled;
  }

  /** `run_dijkstra`: the table has one entry per node, 0 at the source,
      leaves no improving edge, and each entry is the least weight of a
      path from the source (`Infinite` exactly when no path exists). */
  method RunDijkstra(g: Graph, src: nat) returns (dist: seq<Dist>)
    requires ValidGraph(g) && src < g.numNodes
    ensures |dist| == g.numNodes && dist[src] == Finite(0)
    ensures NoImprovingEdge(g, dist)
    ensures forall v: nat, p: seq<Edge> :: IsPath(g, p, src, v) ==>
              v < |dist| && dist[v].Finite? && dist[v].value <= Weight(p)
    ensures forall v: nat :: v < |dist| && dist[v].Finite? ==> HasPathOfWeight(g, src, v, dist[v].value)
  {
    dist := seq(g.numNodes, v requires 0 <= v < g.numNodes => if v == src then Finite(0) else Infinite);
    var queue: set<nat> := {src};
    ghost var settled: set<nat> := {};
    ghost var paths: map<nat, seq<Edge>> := map[src := []];
    while queue != {}
      invariant Invariant(g, src, dist, queue, settled, paths)
      decreases Range(g.numNodes) - settled
    {
      var u;
      ghost var before := queue;
      u, queue := PopMin(queue, dist);
      StartRelaxing(g, src, dist, before, settled, paths, u);
      assert u in Range(g.numNodes) - settled;
      settled := settled + {u};
      dist, queue, paths := RelaxOutEdges(g, src, u, dist, queue, settled, paths);
    }
    Settled(g, src, dist, settled, paths);
  }
}
