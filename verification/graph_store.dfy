/** The directed graph of `backend/src/graph.rs`: nodes, edges grouped by
    source, and the offsets table (compressed sparse row form) that makes the
    out-edges of node `v` the slice `edges[offsets[v] .. offsets[v + 1]]`. */
module GraphStore {

  import opened Wrappers
  import opened Lexing

  /** A node. Latitude and longitude are kept as the literal tokens of the
      graph file: their floating-point values play no part in the model. */
  datatype Node = Node(id: nat, lat: string, lon: string)

  /** A directed edge with a non-negative integer weight. */
  datatype Edge = Edge(src: usize, tgt: usize, dist: usize)

  datatype Graph = Graph(
    nodes: seq<Node>,
    edges: seq<Edge>,
    offsets: seq<nat>,
    numNodes: nat,
    numEdges: nat)

  /** The source column of an edge list. */
  function Srcs(edges: seq<Edge>): (r: seq<usize>)
    ensures |r| == |edges|
    ensures forall i :: 0 <= i < |edges| ==> r[i] == edges[i].src
  {
    seq(|edges|, i requires 0 <= i < |edges| => edges[i].src)
  }

  // ---------------------------------------------------------------------
  // Well-formed offsets tables
  // ---------------------------------------------------------------------

  /** `offsets` is a valid offsets table for `n` nodes over edges whose
      sources are `srcs`: it starts at 0, ends at the edge count, never
      decreases, and the slice of node `v` holds only edges leaving `v`. */
  predicate IsCsr(offsets: seq<nat>, srcs: seq<nat>, n: nat) {
    && |offsets| == n + 1
    && offsets[0] == 0
    && offsets[n] == |srcs|
    && (forall a, b :: 0 <= a <= b <= n ==> offsets[a] <= offsets[b])
    && (forall v, i :: 0 <= v < n && offsets[v] <= i < offsets[v + 1] ==> srcs[i] == v)
  }

  /** A graph whose tables are consistent: one node per id, a valid offsets
      table, and edge targets that are node ids. */
  predicate ValidGraph(g: Graph) {
    && |g.nodes| == g.numNodes
    && |g.edges| == g.numEdges
    && (forall i :: 0 <= i < |g.nodes| ==> g.nodes[i].id == i)
    && IsCsr(g.offsets, Srcs(g.edges), g.numNodes)
    && (forall i :: 0 <= i < |g.edges| ==> g.edges[i].tgt < g.numNodes)
  }

  /** The node whose slice of the offsets table contains edge index `i`. */
  function Owner(offsets: seq<nat>, srcs: seq<nat>, n: nat, i: nat, from: nat): (v: nat)
    requires IsCsr(offsets, srcs, n)
    requires from < n && offsets[from] <= i < |srcs|
    ensures from <= v < n && offsets[v] <= i < offsets[v + 1]
    ensures srcs[i] == v
    decreases n - from
  {
    if i < offsets[from + 1] then from else Owner(offsets, srcs, n, i, from + 1)
  }

  /** In a valid table, every edge sits in the slice of its own source. */
  lemma EdgeInOwnSlice(offsets: seq<nat>, srcs: seq<nat>, n: nat, i: nat)
    requires IsCsr(offsets, srcs, n) && i < |srcs|
    ensures srcs[i] < n
    ensures offsets[srcs[i]] <= i < offsets[srcs[i] + 1]
  {
    assert n > 0;
    var v := Owner(offsets, srcs, n, i, 0);
  }

  /** The out-edges of `u`, read through the offsets table. */
  function OutEdges(g: Graph, u: nat): seq<Edge>
    requires ValidGraph(g) && u < g.numNodes
  {
    g.edges[g.offsets[u]..g.offsets[u + 1]]
  }

  /** The slice of `u` holds exactly the edges of the graph that leave `u`. */
  lemma OutEdgesExact(g: Graph, u: nat)
    requires ValidGraph(g) && u < g.numNodes
    ensures forall e :: e in OutEdges(g, u) <==> e in g.edges && e.src == u
  {
    var srcs := Srcs(g.edges);
    forall e | e in OutEdges(g, u)
      ensures e in g.edges && e.src == u
    {
      var k :| 0 <= k < |OutEdges(g, u)| && OutEdges(g, u)[k] == e;
      assert e == g.edges[g.offsets[u] + k];
      assert srcs[g.offsets[u] + k] == u;
    }
    forall e | e in g.edges && e.src == u
      ensures e in OutEdges(g, u)
    {
      var i :| 0 <= i < |g.edges| && g.edges[i] == e;
      EdgeInOwnSlice(g.offsets, srcs, g.numNodes, i);
      assert OutEdges(g, u)[i - g.offsets[u]] == e;
    }
  }
  /** `outs[i]` holds exactly the edges of `g` leaving node `ids[i]`. */
  ghost predicate SlicesOf(g: Graph, ids: seq<nat>, outs: seq<seq<Edge>>) {
    && |outs| == |ids|
    && forall i, e :: 0 <= i < |ids| ==> (e in outs[i] <==> e in g.edges && e.src == ids[i])
  }

  /** The out-edge slices of the nodes `ids`, in order. */
  function OutSlices(g: Graph, ids: seq<nat>): (outs: seq<seq<Edge>>)
    requires ValidGraph(g) && forall i :: 0 <= i < |ids| ==> ids[i] < g.numNodes
    ensures SlicesOf(g, ids, outs)
  {
    assert forall i, e :: 0 <= i < |ids| ==>
             (e in OutEdges(g, ids[i]) <==> e in g.edges && e.src == ids[i]) by {
      forall i | 0 <= i < |ids| {
        OutEdgesExact(g, ids[i]);
      }
    }
    seq(|ids|, i requires 0 <= i < |ids| => OutEdges(g, ids[i]))
  }


  // ---------------------------------------------------------------------
  // Degree (get_degree)
  // ---------------------------------------------------------------------

  /** The number of edges of `edges` that leave `v`. */
  function CountSrc(edges: seq<Edge>, v: nat): nat {
    if |edges| == 0 then 0
    else CountSrc(edges[..|edges| - 1], v) + (if edges[|edges| - 1].src == v then 1 else 0)
  }

  /** `get_degree`: the length of the node's slice. Both panics are `None`:
      indexing past the table (`v` not a node) and the `usize` subtraction
      underflowing when the table decreases at `v`. */
  function Degree(g: Graph, v: nat): (r: Option<nat>)
    ensures r.None? <==> v + 1 >= |g.offsets| || g.offsets[v + 1] < g.offsets[v]
    ensures r.Some? ==> v + 1 < |g.offsets| && g.offsets[v] + r.value == g.offsets[v + 1]
  {
    if v + 1 >= |g.offsets| then None
    else if g.offsets[v + 1] < g.offsets[v] then None
    else Some(g.offsets[v + 1] - g.offsets[v])
  }

  lemma {:induction false} CountSrcPrefix(g: Graph, v: nat, k: nat)
    requires ValidGraph(g) && v < g.numNodes && k <= |g.edges|
    ensures CountSrc(g.edges[..k], v) ==
      if k <= g.offsets[v] then 0
      else if k <= g.offsets[v + 1] then k - g.offsets[v]
      else g.offsets[v + 1] - g.offsets[v]
  {
    if k > 0 {
      CountSrcPrefix(g, v, k - 1);
      assert g.edges[..k][..k - 1] == g.edges[..k - 1];
      var srcs := Srcs(g.edges);
      EdgeInOwnSlice(g.offsets, srcs, g.numNodes, k - 1);
      var s := srcs[k - 1];
      if k - 1 < g.offsets[v] {
        assert s < v;
      } else if k - 1 < g.offsets[v + 1] {
        assert s == v;
      } else {
        assert s > v;
      }
    }
  }

  /** In a valid graph the degree of `v` is the number of edges leaving `v`. */
  lemma DegreeCountsOutEdges(g: Graph, v: nat)
    requires ValidGraph(g) && v < g.numNodes
    ensures Degree(g, v) == Some(CountSrc(g.edges, v))
  {
    CountSrcPrefix(g, v, |g.edges|);
    assert g.edges[..|g.edges|] == g.edges;
  }

  // ---------------------------------------------------------------------
  // The offsets table as the parser builds it
  // ---------------------------------------------------------------------

  /** `edge.src as i64`: a `usize` above `i64::MAX` wraps to a negative value. */
  function AsI64(x: usize): int {
    if x <= I64_MAX then x else x - (USIZE_MAX + 1)
  }

  /** The index of the first edge whose source, read as `i64`, reaches `j`. */
  function FirstReaching(srcs: seq<usize>, j: nat): (r: Option<nat>)
    ensures r.Some? ==> r.value < |srcs| && AsI64(srcs[r.value]) >= j
    ensures r.Some? ==> forall k :: 0 <= k < r.value ==> AsI64(srcs[k]) < j
    ensures r.None? ==> forall k :: 0 <= k < |srcs| ==> AsI64(srcs[k]) < j
  {
    if |srcs| == 0 then None
    else match FirstReaching(srcs[..|srcs| - 1], j)
      case Some(k) => Some(k)
      case None => if AsI64(srcs[|srcs| - 1]) >= j then Some(|srcs| - 1) else None
  }

  /** The offset given to node `j`: the first edge that reaches it, or `fill`
      when no edge does. */
  function OffsetOf(srcs: seq<usize>, j: nat, fill: nat): nat {
    match FirstReaching(srcs, j)
    case Some(k) => k
    case None => fill
  }

  /** An offsets table whose last entry is the edge count. */
  function OffsetsTable(srcs: seq<usize>, n: nat, fill: nat): (r: seq<nat>)
    ensures |r| == n + 1 && r[n] == |srcs|
    ensures forall j :: 0 <= j < n ==> r[j] == OffsetOf(srcs, j, fill)
  {
    seq(n + 1, j requires 0 <= j <= n => if j == n then |srcs| else OffsetOf(srcs, j, fill))
  }

  /** The table of graph.rs:170-205 as written: a node no edge source reaches
      keeps the 0 it was resized with, except the last entry, which is
      overwritten with the edge count. */
  function AsWrittenOffsets(srcs: seq<usize>, n: nat): seq<nat> {
    OffsetsTable(srcs, n, 0)
  }

  /** Writing `offsets[j]` for `j` up to an edge source beyond `n` indexes
      past the table of length `n + 1`, which panics. */
  predicate OffsetsOverflow(srcs: seq<usize>, n: nat) {
    exists k :: 0 <= k < |srcs| && AsI64(srcs[k]) > n
  }

  /** What one more edge source does to the first-reaching indices, when
      `last` is the largest source seen so far (or -1). */
  lemma ExtendReach(prefix: seq<usize>, src: usize, last: int)
    requires -1 <= last
    requires forall k :: 0 <= k < |prefix| ==> AsI64(prefix[k]) <= last
    requires forall x :: 0 <= x <= last ==> FirstReaching(prefix, x).Some?
    ensures forall x: nat ::
              OffsetOf(prefix + [src], x, 0) ==
              if last < x <= AsI64(src) then |prefix| else OffsetOf(prefix, x, 0)
    ensures forall x :: 0 <= x <= last ==> FirstReaching(prefix + [src], x).Some?
    ensures forall x :: 0 <= x <= AsI64(src) ==> FirstReaching(prefix + [src], x).Some?
  {
    var ext := prefix + [src];
    assert ext[..|prefix|] == prefix;
  }

  /** The offsets loop of graph.rs:170-205 over an array of length `n + 1`:
      `None` when it panics on an index past the table. */
  method BuildOffsets(srcs: seq<usize>, n: nat) returns (r: Option<seq<nat>>)
    ensures r.None? <==> OffsetsOverflow(srcs, n)
    ensures r.Some? ==> r.value == AsWrittenOffsets(srcs, n)
  {
    var offsets: seq<nat> := seq(n + 1, _ => 0);
    var lastSrc: int := -1;
    var offset: nat := 0;
    while offset < |srcs|
      invariant offset <= |srcs|
      invariant -1 <= lastSrc <= n && |offsets| == n + 1
      invariant forall k :: 0 <= k < offset ==> AsI64(srcs[k]) <= lastSrc
      invariant forall x :: 0 <= x <= lastSrc ==> FirstReaching(srcs[..offset], x).Some?
      invariant forall x :: 0 <= x <= n ==> offsets[x] == OffsetOf(srcs[..offset], x, 0)
    {
      var src := srcs[offset];
      ghost var prefix := srcs[..offset];
      ExtendReach(prefix, src, lastSrc);
      assert srcs[..offset + 1] == prefix + [src];
      if AsI64(src) > lastSrc {
        var j: int := lastSrc + 1;
        while j <= src
          invariant lastSrc + 1 <= j <= src + 1
          invariant j <= n + 1 && |offsets| == n + 1
          invariant forall x :: 0 <= x <= n ==>
            offsets[x] == (if lastSrc < x < j then offset else OffsetOf(prefix, x, 0))
        {
          if j > n {
            // `offsets[j]` is past the end of the table: the loop panics.
            return None;
          }
          offsets := offsets[j := offset];
          j := j + 1;
        }
        lastSrc := src;
      }
      offset := offset + 1;
    }
    assert srcs[..offset] == srcs;
    offsets := offsets[n := |srcs|];
    r := Some(offsets);
  }

  /** Edge sources that are grouped in ascending order and name graph nodes. */
  predicate SortedSources(srcs: seq<usize>, n: nat) {
    && (forall i, j :: 0 <= i <= j < |srcs| ==> srcs[i] <= srcs[j])
    && (forall i :: 0 <= i < |srcs| ==> srcs[i] < n)
    && n <= I64_MAX
  }

  lemma FirstReachingOrdered(srcs: seq<usize>, n: nat, a: nat, b: nat)
    requires SortedSources(srcs, n) && a <= b
    requires FirstReaching(srcs, b).Some?
    ensures FirstReaching(srcs, a).Some?
    ensures FirstReaching(srcs, a).value <= FirstReaching(srcs, b).value
  {
  }

  /** For sorted sources, the table is valid when unreached nodes are filled
      with the edge count, or when nothing needs filling because the last
      source is the last node. */
  lemma {:induction false} SortedTableIsCsr(srcs: seq<usize>, n: nat, fill: nat)
    requires SortedSources(srcs, n)
    requires fill == |srcs| || (|srcs| > 0 && srcs[|srcs| - 1] == n - 1)
    ensures IsCsr(OffsetsTable(srcs, n, fill), srcs, n)
  {
    var t := OffsetsTable(srcs, n, fill);
    if |srcs| == 0 {
      assert forall j :: 0 <= j <= n ==> t[j] == 0;
    } else {
      TableMonotone(srcs, n, fill);
      assert t[0] == 0 by {
        assert AsI64(srcs[0]) >= 0;
      }
      TableSlices(srcs, n, fill);
    }
  }

  /** The filled or as-written table of sorted sources never decreases. */
  lemma TableMonotone(srcs: seq<usize>, n: nat, fill: nat)
    requires SortedSources(srcs, n) && |srcs| > 0
    requires fill == |srcs| || srcs[|srcs| - 1] == n - 1
    ensures var t := OffsetsTable(srcs, n, fill);
      forall a, b :: 0 <= a <= b <= n ==> t[a] <= t[b]
  {
    var t := OffsetsTable(srcs, n, fill);
    forall a, b | 0 <= a <= b <= n
      ensures t[a] <= t[b]
    {
      if b < n && a < b {
        assert fill != |srcs| ==> AsI64(srcs[|srcs| - 1]) >= b;
        if FirstReaching(srcs, b).Some? {
          FirstReachingOrdered(srcs, n, a, b);
        }
      } else if b == n && a < n {
        assert fill != |srcs| ==> AsI64(srcs[|srcs| - 1]) >= a;
      }
    }
  }

  /** Each slice of the table holds only edges of its own node. */
  lemma TableSlices(srcs: seq<usize>, n: nat, fill: nat)
    requires SortedSources(srcs, n) && |srcs| > 0
    requires fill == |srcs| || srcs[|srcs| - 1] == n - 1
    ensures var t := OffsetsTable(srcs, n, fill);
      forall v, i :: 0 <= v < n && t[v] <= i < t[v + 1] ==> srcs[i] == v
  {
    var t := OffsetsTable(srcs, n, fill);
    forall v, i | 0 <= v < n && t[v] <= i < t[v + 1]
      ensures srcs[i] == v
    {
      assert fill != |srcs| ==> AsI64(srcs[|srcs| - 1]) >= v;
      if FirstReaching(srcs, v).Some? {
        assert srcs[FirstReaching(srcs, v).value] <= srcs[i];
      }
    }
  }

  /** Sorted sources whose last entry is the last node give a valid table. */
  lemma AsWrittenOffsetsValid(srcs: seq<usize>, n: nat)
    requires SortedSources(srcs, n)
    requires |srcs| == 0 || srcs[|srcs| - 1] == n - 1
    ensures IsCsr(AsWrittenOffsets(srcs, n), srcs, n)
  {
    SortedTableIsCsr(srcs, n, 0);
  }

  /** The loop's table for three nodes and edges leaving nodes 0 and 1. */
  lemma TrailingSinkTable()
    ensures AsWrittenOffsets([0, 1], 3) == [0, 1, 0, 2]
  {
    var srcs: seq<usize> := [0, 1];
    assert srcs[..1] == [0];
    assert FirstReaching([0], 0) == Some(0);
    assert FirstReaching(srcs, 0) == Some(0);
    assert FirstReaching([0], 1) == None;
    assert FirstReaching(srcs, 1) == Some(1);
    assert FirstReaching([0], 2) == None;
    assert FirstReaching(srcs, 2) == None;
  }

  /** With three nodes and edges leaving only nodes 0 and 1, node 2 keeps
      offset 0: the table is not monotone, `get_degree(1)` underflows, and
      the slice of the sink node 2 is the whole edge array, so node 2 is
      given degree 2 and the out-edges of nodes 0 and 1 as its own. */
  lemma TrailingSinkCounterexample()
    ensures AsWrittenOffsets([0, 1], 3) == [0, 1, 0, 2]
    ensures !IsCsr(AsWrittenOffsets([0, 1], 3), [0, 1], 3)
    ensures Degree(Graph([], [], AsWrittenOffsets([0, 1], 3), 3, 2), 1).None?
    ensures var es := [Edge(0, 1, 1), Edge(1, 2, 1)];
      var g := Graph([], es, AsWrittenOffsets(Srcs(es), 3), 3, 2);
      && Srcs(es) == [0, 1]
      && Degree(g, 2) == Some(2)
      && g.offsets[2] == 0 && g.offsets[3] == 2
      && g.edges[g.offsets[2]..g.offsets[3]] == es
      && (forall e :: e in g.edges[g.offsets[2]..g.offsets[3]] ==> e.src != 2)
  {
    TrailingSinkTable();
    var t: seq<nat> := [0, 1, 0, 2];
    assert t[1] > t[2];
    var es := [Edge(0, 1, 1), Edge(1, 2, 1)];
    assert Srcs(es) == [0, 1];
    var g := Graph([], es, t, 3, 2);
    assert g.edges[0..2] == es;
  }

  /** The evidently intended table: nodes past the last source get the edge
      count, closing the trailing gap as the loop closes the inner ones. */
  function FilledOffsets(srcs: seq<usize>, n: nat): seq<nat> {
    OffsetsTable(srcs, n, |srcs|)
  }

  /** The filled table is valid for every sorted list of sources. */
  lemma FilledOffsetsValid(srcs: seq<usize>, n: nat)
    requires SortedSources(srcs, n)
    ensures IsCsr(FilledOffsets(srcs, n), srcs, n)
  {
    SortedTableIsCsr(srcs, n, |srcs|);
  }

  /** The two tables differ only where the written one leaves a trailing 0. */
  lemma FilledAgreesWhenLastNodeHasEdges(srcs: seq<usize>, n: nat)
    requires SortedSources(srcs, n)
    requires |srcs| > 0 && srcs[|srcs| - 1] == n - 1
    ensures FilledOffsets(srcs, n) == AsWrittenOffsets(srcs, n)
  {
    var a := FilledOffsets(srcs, n);
    var b := AsWrittenOffsets(srcs, n);
    forall j | 0 <= j < n
      ensures a[j] == b[j]
    {
      assert AsI64(srcs[|srcs| - 1]) >= j;
    }
  }
}
