/** The early, unweighted fire engine (`OSMFProblem` of
    `backend/src/firefighter.rs`): one map of node states, fire crossing
    every edge in one tick whatever its weight, an explicit error for a
    second attachment to the same node, and a change tracker that files the
    nodes changed at each tick under that tick. Random draws are an input
    sequence of node ids; the hash map's iteration order is fixed to
    ascending keys. */
module UnweightedEngine {

  import opened Wrappers
  import opened GraphStore
  import opened SortedSets

  datatype NodeState = Burning | Defended

  datatype NodeData = NodeData(nodeId: nat, state: NodeState, time: nat)

  type Records = map<nat, NodeData>

  /** Ids changed at each tick, in the order they were changed. */
  type Tracker = map<nat, seq<nat>>

  datatype Problem = Problem(
    graph: Graph,
    nodeData: Records,
    globalTime: nat,
    changeTracker: Tracker,
    isActive: bool)

  datatype ProblemError = NodeDataAlreadyAttached

  /** `new` panics when more roots are asked for than there are nodes. With
      the draws given as a finite sequence, running out of draws before
      enough roots are found is reported too. */
  datatype NewError = TooManyRoots | DrawsExhausted

  /** Every record is filed under its own node id. */
  predicate KeysMatch(m: Records) {
    forall k :: k in m ==> m[k].nodeId == k
  }

  // ---------------------------------------------------------------------
  // Attaching node data
  // ---------------------------------------------------------------------

  /** `attach_node_data`: a record stamped with the current time. */
  function Attach(m: Records, v: nat, state: NodeState, t: nat): Records {
    m[v := NodeData(v, state, t)]
  }

  datatype Attempt = Attempt(problem: Problem, result: Result<(), ProblemError>)

  /** `try_attach_node_data`: refuses a node that already has data and then
      leaves the problem as it was; otherwise adds one record for the node
      with the current time and keeps every other record. */
  function TryAttachNodeData(p: Problem, v: nat, state: NodeState): (r: Attempt)
    ensures r.result.Err? <==> v in p.nodeData
    ensures r.result.Err? ==> r.result.error == NodeDataAlreadyAttached && r.problem == p
    ensures r.result.Ok? ==>
              && r.problem.nodeData.Keys == p.nodeData.Keys + {v}
              && r.problem.nodeData[v] == NodeData(v, state, p.globalTime)
              && (forall k :: k in p.nodeData ==> r.problem.nodeData[k] == p.nodeData[k])
              && r.problem.(nodeData := p.nodeData) == p
  {
    if v !in p.nodeData then
      Attempt(p.(nodeData := Attach(p.nodeData, v, state, p.globalTime)), Ok(()))
    else
      Attempt(p, Err(NodeDataAlreadyAttached))
  }

  /** A node takes data once: a second attempt fails whatever the state, and
      the first record stays. */
  lemma AttachOnce(p: Problem, v: nat, s1: NodeState, s2: NodeState)
    requires KeysMatch(p.nodeData)
    ensures var first := TryAttachNodeData(p, v, s1);
      var second := TryAttachNodeData(first.problem, v, s2);
      && second.result == Err(NodeDataAlreadyAttached)
      && second.problem == first.problem
      && KeysMatch(first.problem.nodeData)
  {
  }

  /** Attaches the listed nodes in order, all with the same state and time;
      a node listed twice gets the same record twice. */
  function AttachAll(m: Records, vs: seq<nat>, state: NodeState, t: nat): (r: Records)
    ensures forall v :: v in r <==> v in m || v in vs
    ensures forall v :: v in vs ==> r[v] == NodeData(v, state, t)
    ensures forall v :: v in m && v !in vs ==> r[v] == m[v]
  {
    if |vs| == 0 then m
    else
      var pre := vs[..|vs| - 1];
      assert forall v :: v in vs <==> v in pre || v == vs[|vs| - 1] by {
        assert vs == pre + [vs[|vs| - 1]];
      }
      Attach(AttachAll(m, pre, state, t), vs[|vs| - 1], state, t)
  }

  // ---------------------------------------------------------------------
  // The change tracker
  // ---------------------------------------------------------------------

  /** `track_changes`: appends to the list of tick `t`, creating it when
      the tick has none; other ticks keep their lists. */
  function TrackChanges(tr: Tracker, t: nat, changed: seq<nat>): (r: Tracker)
    ensures r.Keys == tr.Keys + {t}
    ensures t in tr ==>
              |r[t]| == |tr[t]| + |changed| && r[t][..|tr[t]|] == tr[t] && r[t][|tr[t]|..] == changed
    ensures t !in tr ==> r[t] == changed
    ensures forall k :: k in tr && k != t ==> r[k] == tr[k]
  {
    if t in tr then tr[t := tr[t] + changed] else tr[t := changed]
  }

  /** The tracker has a list for every tick so far and for no other. */
  ghost predicate TrackerCovers(p: Problem) {
    forall t: nat :: t in p.changeTracker <==> t <= p.globalTime
  }

  /** Hence `change_tracker.len() == global_time + 1`. */
  lemma TrackerSize(p: Problem)
    requires TrackerCovers(p)
    ensures |p.changeTracker| == p.globalTime + 1
  {
    assert p.changeTracker.Keys == Range(p.globalTime + 1);
  }

  // ---------------------------------------------------------------------
  // Construction
  // ---------------------------------------------------------------------

  datatype Roots = Roots(roots: seq<nat>, nodeData: Records)

  /** The draws still usable as roots: distinct ids without data. */
  function Fresh(m: Records, draws: seq<nat>): set<nat> {
    Members(draws) - m.Keys
  }

  /** The loop of `gen_fire_roots`: draws are taken in order; a draw whose
      node has no data yet is attached burning at `t` and kept, any other
      draw is skipped, until `need` roots are kept. `None` when the draws
      run out first. */
  function GenFireRoots(m: Records, draws: seq<nat>, need: nat, t: nat): Option<Roots>
    decreases |draws|
  {
    if need == 0 then Some(Roots([], m))
    else if |draws| == 0 then None
    else if draws[0] in m then GenFireRoots(m, draws[1..], need, t)
    else
      var d := draws[0];
      match GenFireRoots(Attach(m, d, Burning, t), draws[1..], need - 1, t)
      case None => None
      case Some(rest) => Some(Roots([d] + rest.roots, rest.nodeData))
  }

  /** What a successful loop leaves: `need` distinct roots, each one a draw
      that had no data, each attached burning at `t`, and every earlier
      record kept. */
  ghost predicate RootsOk(m: Records, draws: seq<nat>, need: nat, t: nat, rs: Roots) {
    && |rs.roots| == need && Distinct(rs.roots)
    && (forall i :: 0 <= i < |rs.roots| ==> rs.roots[i] in draws && rs.roots[i] !in m)
    && (forall v :: v in rs.nodeData <==> v in m || v in rs.roots)
    && (forall v :: v in rs.roots ==> rs.nodeData[v] == NodeData(v, Burning, t))
    && (forall v :: v in m ==> rs.nodeData[v] == m[v])
  }

  lemma {:induction false} GenFireRootsFacts(m: Records, draws: seq<nat>, need: nat, t: nat)
    ensures GenFireRoots(m, draws, need, t).Some? ==> RootsOk(m, draws, need, t, GenFireRoots(m, draws, need, t).value)
    decreases |draws|
  {
    if need > 0 && |draws| > 0 {
      var d, tail := draws[0], draws[1..];
      assert forall x :: x in tail ==> x in draws;
      if d in m {
        GenFireRootsFacts(m, tail, need, t);
      } else {
        var m' := Attach(m, d, Burning, t);
        GenFireRootsFacts(m', tail, need - 1, t);
        var sub := GenFireRoots(m', tail, need - 1, t);
        if sub.Some? {
          var rest := sub.value;
          assert GenFireRoots(m, draws, need, t) == Some(Roots([d] + rest.roots, rest.nodeData));
          RootsCons(m, m', d, draws, tail, need, t, rest);
        }
      }
    }
  }

  /** Putting a fresh draw in front of the roots found after it. */
  lemma RootsCons(m: Records, m': Records, d: nat, draws: seq<nat>, tail: seq<nat>, need: nat, t: nat, rest: Roots)
    requires need > 0 && |draws| > 0 && d == draws[0] && tail == draws[1..] && d !in m
    requires m' == Attach(m, d, Burning, t)
    requires RootsOk(m', tail, need - 1, t, rest)
    ensures RootsOk(m, draws, need, t, Roots([d] + rest.roots, rest.nodeData))
  {
    var roots := [d] + rest.roots;
    assert forall i :: 1 <= i < |roots| ==> roots[i] == rest.roots[i - 1] && roots[i] != d;
    assert forall x :: x in tail ==> x in draws;
    forall v | v in rest.nodeData
      ensures v in m || v in roots
    {
      if v !in m && v !in rest.roots {
        assert v in m';
      }
    }
  }

  /** The loop finds its roots exactly when the draws hold `need` distinct
      ids without data. */
  lemma {:induction false} RootsFoundIff(m: Records, draws: seq<nat>, need: nat, t: nat)
    ensures GenFireRoots(m, draws, need, t).Some? <==> need <= |Fresh(m, draws)|
    decreases |draws|
  {
    if need == 0 {
    } else if |draws| == 0 {
      assert Fresh(m, draws) == {};
    } else if draws[0] in m {
      RootsFoundIff(m, draws[1..], need, t);
      SkipStep(m, draws, need, t);
    } else {
      RootsFoundIff(Attach(m, draws[0], Burning, t), draws[1..], need - 1, t);
      TakeStep(m, draws, need, t);
    }
  }

  /** A draw that already has data is skipped and leaves the supply as it
      was, so the claim carries over from the remaining draws. */
  lemma SkipStep(m: Records, draws: seq<nat>, need: nat, t: nat)
    requires need > 0 && |draws| > 0 && draws[0] in m
    requires GenFireRoots(m, draws[1..], need, t).Some? <==> need <= |Fresh(m, draws[1..])|
    ensures GenFireRoots(m, draws, need, t).Some? <==> need <= |Fresh(m, draws)|
  {
    assert GenFireRoots(m, draws, need, t) == GenFireRoots(m, draws[1..], need, t);
    assert Members(draws) == {draws[0]} + Members(draws[1..]) by {
      assert draws == [draws[0]] + draws[1..];
    }
    assert Fresh(m, draws) == Fresh(m, draws[1..]);
  }

  /** A draw without data is attached: the loop goes on for one root fewer
      from a supply one smaller, so the claim carries over. */
  lemma TakeStep(m: Records, draws: seq<nat>, need: nat, t: nat)
    requires need > 0 && |draws| > 0 && draws[0] !in m
    requires GenFireRoots(Attach(m, draws[0], Burning, t), draws[1..], need - 1, t).Some?
             <==> need - 1 <= |Fresh(Attach(m, draws[0], Burning, t), draws[1..])|
    ensures GenFireRoots(m, draws, need, t).Some? <==> need <= |Fresh(m, draws)|
  {
    var m' := Attach(m, draws[0], Burning, t);
    assert GenFireRoots(m, draws, need, t).Some? == GenFireRoots(m', draws[1..], need - 1, t).Some?;
    TakeSupply(m, draws, t);
  }

  /** Attaching a draw without data takes exactly it out of the supply. */
  lemma TakeSupply(m: Records, draws: seq<nat>, t: nat)
    requires |draws| > 0 && draws[0] !in m
    ensures |Fresh(m, draws)| == |Fresh(Attach(m, draws[0], Burning, t), draws[1..])| + 1
  {
    var d, rest := draws[0], draws[1..];
    assert Members(draws) == {d} + Members(rest) by {
      assert draws == [d] + rest;
    }
    var f := Fresh(Attach(m, d, Burning, t), rest);
    assert d !in f;
    assert Fresh(m, draws) == f + {d};
    assert f * {d} == {};
  }

  /** `OSMFProblem::new` with the random draws given: panics when more
      roots are wanted than the graph has nodes; otherwise the roots are
      attached burning at time 0, filed in the tracker under tick 0, and the
      engine is active. */
  function New(g: Graph, numRoots: nat, draws: seq<nat>): (r: Result<Problem, NewError>)
    ensures r == Err(TooManyRoots) <==> numRoots > g.numNodes
    ensures r.Ok? ==> r.value.graph == g && r.value.globalTime == 0 && r.value.isActive
  {
    if numRoots > g.numNodes then Err(TooManyRoots)
    else
      match GenFireRoots(map[], draws, numRoots, 0)
      case None => Err(DrawsExhausted)
      case Some(rs) => Ok(Problem(g, rs.nodeData, 0, TrackChanges(map[], 0, rs.roots), true))
  }

  /** After construction there are exactly `num_roots` records, all burning
      roots of time 0 with ids of the graph, filed under their ids, and the
      tracker holds one list, the roots of tick 0. */
  lemma NewFacts(g: Graph, numRoots: nat, draws: seq<nat>)
    requires forall i :: 0 <= i < |draws| ==> draws[i] < g.numNodes
    requires New(g, numRoots, draws).Ok?
    ensures var p := New(g, numRoots, draws).value;
      && |p.nodeData| == numRoots
      && (forall v :: v in p.nodeData ==> p.nodeData[v] == NodeData(v, Burning, 0) && v < g.numNodes)
      && KeysMatch(p.nodeData)
      && TrackerCovers(p) && |p.changeTracker| == 1
      && |p.changeTracker[0]| == numRoots
      && (forall v :: v in p.changeTracker[0] <==> v in p.nodeData)
  {
    var none: Records := map[];
    GenFireRootsFacts(none, draws, numRoots, 0);
    var rs := GenFireRoots(none, draws, numRoots, 0).value;
    assert RootsOk(none, draws, numRoots, 0, rs);
    var p := New(g, numRoots, draws).value;
    assert p.nodeData == rs.nodeData && p.changeTracker == map[0 := rs.roots];
    assert forall v :: v in p.nodeData ==> v in rs.roots;
    assert p.nodeData.Keys == Members(rs.roots);
    MembersCardinality(rs.roots);
    assert |p.nodeData| == numRoots;
    forall v | v in p.nodeData
      ensures p.nodeData[v] == NodeData(v, Burning, 0) && v < g.numNodes
    {
      var i :| 0 <= i < |rs.roots| && rs.roots[i] == v;
      assert v in draws;
    }
    assert p.globalTime == 0 && p.changeTracker.Keys == {0};
    forall t: nat
      ensures t in p.changeTracker <==> t <= p.globalTime
    {
      assert t in p.changeTracker <==> t in p.changeTracker.Keys;
    }
  }

  /** The nodes of a problem can only be entered by `new` with distinct
      roots: when `num_roots` does not exceed the node count and the draws
      hold that many distinct ids, construction succeeds. */
  lemma NewSucceeds(g: Graph, numRoots: nat, draws: seq<nat>)
    requires numRoots <= g.numNodes && numRoots <= |Members(draws)|
    ensures New(g, numRoots, draws).Ok?
  {
    RootsFoundIff(map[], draws, numRoots, 0);
    assert Fresh(map[], draws) == Members(draws);
  }

  // ---------------------------------------------------------------------
  // Spreading the fire
  // ---------------------------------------------------------------------

  predicate IsBurningRecord(m: Records, k: nat) {
    k in m && m[k].state == Burning
  }

  /** The keys of the burning records, in key order. */
  function BurningKeys(m: Records): (ks: seq<nat>)
    ensures forall k :: k in ks <==> IsBurningRecord(m, k)
    ensures forall i :: 0 <= i < |ks| ==> ks[i] in m && IsBurningRecord(m, ks[i])
  {
    var ks := Ascending(set k | k in m && IsBurningRecord(m, k));
    assert forall i :: 0 <= i < |ks| ==> ks[i] in ks;
    ks
  }

  /** The node ids held by the records under the keys `ks`. */
  function IdsOf(m: Records, ks: seq<nat>): (ids: seq<nat>)
    requires forall i :: 0 <= i < |ks| ==> ks[i] in m
    ensures |ids| == |ks| && forall i :: 0 <= i < |ks| ==> ids[i] == m[ks[i]].nodeId
  {
    seq(|ks|, i requires 0 <= i < |ks| => m[ks[i]].nodeId)
  }

  /** Some edge of `es` leads to `v`, which has no data. */
  ghost predicate SliceReaches(m: Records, es: seq<Edge>, v: nat) {
    v !in m && exists e :: e in es && e.tgt == v
  }

  /** The inner loop of `spread_fire`: the targets without data of the edges
      `es`, in edge order. */
  function FreshTargets(m: Records, es: seq<Edge>): (r: seq<nat>)
    ensures forall v :: v in r <==> SliceReaches(m, es, v)
  {
    if |es| == 0 then []
    else
      var pre, e := es[..|es| - 1], es[|es| - 1];
      assert forall f :: f in es <==> f in pre || f == e by {
        assert es == pre + [e];
      }
      FreshTargets(m, pre) + (if e.tgt !in m then [e.tgt] else [])
  }

  /** Some slice of `outs` reaches `v`. */
  ghost predicate AnyReaches(m: Records, outs: seq<seq<Edge>>, v: nat) {
    exists i :: 0 <= i < |outs| && SliceReaches(m, outs[i], v)
  }

  /** The outer loop of `spread_fire` over the slices of the burning nodes. */
  function ScanTargets(m: Records, outs: seq<seq<Edge>>): (r: seq<nat>)
    ensures forall v :: v in r <==> AnyReaches(m, outs, v)
  {
    if |outs| == 0 then []
    else
      var n := |outs| - 1;
      assert forall i :: 0 <= i < n ==> outs[..n][i] == outs[i];
      ScanTargets(m, outs[..n]) + FreshTargets(m, outs[n])
  }

  /** The node `v` has no data and is the target of an edge leaving a
      burning node: one hop, whatever the edge's weight. */
  ghost predicate Reached(g: Graph, m: Records, v: nat) {
    && v !in m
    && exists k, e :: IsBurningRecord(m, k) && e in g.edges && e.src == m[k].nodeId && e.tgt == v
  }

  /** The spread can look up the out-edges of every burning record. */
  ghost predicate Scannable(g: Graph, m: Records) {
    && ValidGraph(g)
    && forall k :: IsBurningRecord(m, k) ==> m[k].nodeId < g.numNodes
  }

  /** The nodes `spread_fire` collects, before anything is attached: the
      burning records are visited in key order, and each one's out-edges in
      slice order. */
  function ToBurn(g: Graph, m: Records): seq<nat>
    requires Scannable(g, m)
  {
    var ks := BurningKeys(m);
    var ids := IdsOf(m, ks);
    ScanTargets(m, OutSlices(g, ids))
  }

  /** Reading the scan as a statement about the graph: exactly the reached
      nodes are collected. */
  lemma ToBurnMeaning(g: Graph, m: Records)
    requires Scannable(g, m)
    ensures forall v :: v in ToBurn(g, m) <==> Reached(g, m, v)
  {
    var ks := BurningKeys(m);
    var ids := IdsOf(m, ks);
    var outs := OutSlices(g, ids);
    assert ToBurn(g, m) == ScanTargets(m, outs);
    forall v
      ensures AnyReaches(m, outs, v) <==> Reached(g, m, v)
    {
      SlicesReach(g, m, ks, ids, outs, v);
    }
  }

  /** The slices of the burning records reach exactly the reached nodes. */
  lemma SlicesReach(g: Graph, m: Records, ks: seq<nat>, ids: seq<nat>, outs: seq<seq<Edge>>, v: nat)
    requires forall k :: k in ks <==> IsBurningRecord(m, k)
    requires forall i :: 0 <= i < |ks| ==> ks[i] in m && IsBurningRecord(m, ks[i])
    requires |ids| == |ks| && forall i :: 0 <= i < |ks| ==> ids[i] == m[ks[i]].nodeId
    requires SlicesOf(g, ids, outs)
    ensures AnyReaches(m, outs, v) <==> Reached(g, m, v)
  {
    if AnyReaches(m, outs, v) {
      var i :| 0 <= i < |outs| && SliceReaches(m, outs[i], v);
      var e: Edge :| e in outs[i] && e.tgt == v;
      assert IsBurningRecord(m, ks[i]) && e in g.edges && e.src == m[ks[i]].nodeId;
    }
    if Reached(g, m, v) {
      var k, e :| IsBurningRecord(m, k) && e in g.edges && e.src == m[k].nodeId && e.tgt == v;
      assert k in ks;
      var i :| 0 <= i < |ks| && ks[i] == k;
      assert e in outs[i];
      assert SliceReaches(m, outs[i], v);
    }
  }

  /** `spread_fire`: the collected nodes are attached burning at the
      current time (attaching none changes nothing); when none were
      collected the engine stops. Either way the collected list is tracked
      under the current tick. */
  function SpreadFire(p: Problem): (r: Problem)
    requires Scannable(p.graph, p.nodeData)
    ensures r.graph == p.graph && r.globalTime == p.globalTime
  {
    var toBurn := ToBurn(p.graph, p.nodeData);
    p.(nodeData := AttachAll(p.nodeData, toBurn, Burning, p.globalTime),
       isActive := if |toBurn| > 0 then p.isActive else false,
       changeTracker := TrackChanges(p.changeTracker, p.globalTime, toBurn))
  }

  /** What one spread does: every reached node becomes burning at the
      current time, nodes with data (defended ones included) keep their
      records, `is_active` turns false exactly when nothing is reached and
      never turns true, and the tracker lists the reached nodes under the
      current tick. */
  lemma SpreadFireEffect(p: Problem)
    requires Scannable(p.graph, p.nodeData)
    ensures SpreadFire(p).isActive <==> p.isActive && exists v :: Reached(p.graph, p.nodeData, v)
    ensures forall v :: v in SpreadFire(p).nodeData <==> v in p.nodeData || Reached(p.graph, p.nodeData, v)
    ensures forall v :: v in p.nodeData ==> SpreadFire(p).nodeData[v] == p.nodeData[v]
    ensures forall v :: Reached(p.graph, p.nodeData, v) ==>
              SpreadFire(p).nodeData[v] == NodeData(v, Burning, p.globalTime)
    ensures SpreadFire(p).changeTracker.Keys == p.changeTracker.Keys + {p.globalTime}
    ensures forall k :: k in p.changeTracker && k != p.globalTime ==>
              SpreadFire(p).changeTracker[k] == p.changeTracker[k]
    ensures p.globalTime !in p.changeTracker ==>
              forall v :: v in SpreadFire(p).changeTracker[p.globalTime] <==> Reached(p.graph, p.nodeData, v)
  {
    var toBurn := ToBurn(p.graph, p.nodeData);
    ToBurnMeaning(p.graph, p.nodeData);
    var r := SpreadFire(p);
    assert r.nodeData == AttachAll(p.nodeData, toBurn, Burning, p.globalTime);
    assert r.isActive == (p.isActive && |toBurn| > 0);
    assert r.changeTracker == TrackChanges(p.changeTracker, p.globalTime, toBurn);
    forall v | v in p.nodeData
      ensures r.nodeData[v] == p.nodeData[v]
    {
      assert !Reached(p.graph, p.nodeData, v);
      assert v !in toBurn;
    }
    if exists v :: Reached(p.graph, p.nodeData, v) {
      var v :| Reached(p.graph, p.nodeData, v);
      assert v in toBurn;
    }
  }

  /** `exec_step`: the clock advances by one, then the fire spreads (the
      containment call is commented out in this engine). */
  function ExecStep(p: Problem): (r: Problem)
    requires Scannable(p.graph, p.nodeData)
    ensures r.globalTime == p.globalTime + 1 && r.graph == p.graph
  {
    SpreadFire(p.(globalTime := p.globalTime + 1))
  }

  // ---------------------------------------------------------------------
  // Invariants of the step
  // ---------------------------------------------------------------------

  /** The state the engine keeps: a valid graph, records filed under their
      ids, every record an id of the graph, and a tracker list per tick. */
  ghost predicate Wf(p: Problem) {
    && ValidGraph(p.graph)
    && KeysMatch(p.nodeData)
    && (forall k :: k in p.nodeData ==> k < p.graph.numNodes)
    && TrackerCovers(p)
  }

  lemma WfScannable(p: Problem)
    requires Wf(p)
    ensures Scannable(p.graph, p.nodeData)
  {
  }

  /** A step keeps the state well formed: new records are targets of
      edges, hence nodes, and the new tick gets its list. */
  lemma StepKeepsWf(p: Problem)
    requires Wf(p)
    ensures Wf(ExecStep(p))
  {
    var q := p.(globalTime := p.globalTime + 1);
    assert Scannable(q.graph, q.nodeData);
    var r := SpreadFire(q);
    assert ExecStep(p) == r;
    SpreadKeepsRecords(q);
    SpreadFireEffect(q);
    forall t: nat
      ensures t in r.changeTracker <==> t <= r.globalTime
    {
      assert t in r.changeTracker <==> t in q.changeTracker || t == q.globalTime;
    }
    assert TrackerCovers(r);
  }

  /** A spread files every new record under its id, and only ids of the
      graph: the new records are targets of edges. */
  lemma SpreadKeepsRecords(p: Problem)
    requires Scannable(p.graph, p.nodeData) && KeysMatch(p.nodeData)
    requires forall k :: k in p.nodeData ==> k < p.graph.numNodes
    ensures KeysMatch(SpreadFire(p).nodeData)
    ensures forall k :: k in SpreadFire(p).nodeData ==> k < p.graph.numNodes
  {
    SpreadFireEffect(p);
    var r := SpreadFire(p);
    forall k | k in r.nodeData
      ensures r.nodeData[k].nodeId == k && k < p.graph.numNodes
    {
      if k !in p.nodeData {
        var b, e :| IsBurningRecord(p.nodeData, b) && e in p.graph.edges && e.src == p.nodeData[b].nodeId && e.tgt == k;
        var i :| 0 <= i < |p.graph.edges| && p.graph.edges[i] == e;
      }
    }
  }

  /** Once stopped, the engine stays stopped. */
  lemma StoppedStaysStopped(p: Problem)
    requires Wf(p) && !p.isActive
    ensures !ExecStep(p).isActive
  {
    var q := p.(globalTime := p.globalTime + 1);
    assert Scannable(q.graph, q.nodeData);
    SpreadFireEffect(q);
    assert ExecStep(p) == SpreadFire(q);
  }

  /** After a step, every out-neighbour of a node burning before the step
      has data; one that had none is now burning. The tracker's list for
      the new tick holds exactly the nodes newly set burning, all of them
      out-neighbours of burning nodes. */
  lemma StepBurnsNeighbours(p: Problem)
    requires Wf(p)
    ensures var r := ExecStep(p);
      && (forall b, e :: IsBurningRecord(p.nodeData, b) && e in p.graph.edges && e.src == b ==>
            e.tgt in r.nodeData && (e.tgt !in p.nodeData ==> r.nodeData[e.tgt].state == Burning))
      && (forall v :: v in r.changeTracker[r.globalTime] ==>
            v !in p.nodeData && r.nodeData[v] == NodeData(v, Burning, r.globalTime)
            && exists b, e :: IsBurningRecord(p.nodeData, b) && e in p.graph.edges && e.src == b && e.tgt == v)
  {
    var q := p.(globalTime := p.globalTime + 1);
    assert Scannable(q.graph, q.nodeData);
    SpreadFireEffect(q);
    var r := SpreadFire(q);
    assert ExecStep(p) == r;
    assert q.globalTime !in q.changeTracker;
    forall b, e | IsBurningRecord(p.nodeData, b) && e in p.graph.edges && e.src == b
      ensures e.tgt in r.nodeData && (e.tgt !in p.nodeData ==> r.nodeData[e.tgt].state == Burning)
    {
      if e.tgt !in p.nodeData {
        assert Reached(q.graph, q.nodeData, e.tgt);
      }
    }
  }

  /** The first step after construction, as the engine's test checks it:
      the tracker has two lists, every id filed at tick 1 is an out-neighbour
      of a root, and every out-neighbour of a root is burning. */
  lemma FirstStep(g: Graph, numRoots: nat, draws: seq<nat>)
    requires ValidGraph(g)
    requires forall i :: 0 <= i < |draws| ==> draws[i] < g.numNodes
    requires New(g, numRoots, draws).Ok?
    ensures var p := New(g, numRoots, draws).value;
      && Scannable(p.graph, p.nodeData)
      && var r := ExecStep(p);
      && |r.changeTracker| == r.globalTime + 1 == 2
      && (forall v :: v in r.changeTracker[1] ==>
            exists b, e :: b in p.nodeData && e in g.edges && e.src == b && e.tgt == v)
      && (forall b, e :: b in p.nodeData && e in g.edges && e.src == b ==>
            e.tgt in r.nodeData && r.nodeData[e.tgt].state == Burning)
  {
    var p := New(g, numRoots, draws).value;
    NewFacts(g, numRoots, draws);
    assert Wf(p);
    StepKeepsWf(p);
    StepBurnsNeighbours(p);
    var r := ExecStep(p);
    TrackerSize(r);
    forall b, e | b in p.nodeData && e in g.edges && e.src == b
      ensures e.tgt in r.nodeData && r.nodeData[e.tgt].state == Burning
    {
      assert IsBurningRecord(p.nodeData, b);
      if e.tgt in p.nodeData {
        assert r.nodeData[e.tgt] == p.nodeData[e.tgt] by {
          SpreadFireEffect(p.(globalTime := 1));
        }
      }
    }
  }
}
